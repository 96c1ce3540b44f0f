/** Bin edges and labels for trip-duration histograms
    (`create_duration_labels` in urbanpy/utils/utils.py). */
module Durations {
  import opened Common
  import opened Seqs

  const DefaultBins: seq<int> := [0, 15, 30, 45, 60, 90, 120]
  const DefaultLabels: seq<string> := ["De 0 a 15", "De 15 a 30", "De 30 a 45", "De 45 a 60",
                                       "De 60 a 90", "De 90 a 120", "Más de 120"]

  /** The inputs for `pd.cut`: bin edges and one label per bin. */
  datatype Binning = Binning(bins: seq<int>, labels: seq<string>)

  predicate Increasing(s: seq<int>) {
    forall i, j :: 0 <= i < j < |s| ==> s[i] < s[j]
  }

  /** The default edges are strictly increasing. */
  lemma DefaultBinsIncreasing()
    ensures Increasing(DefaultBins)
  {
  }

  /** `math.ceil`: the least integer at or above `x`. */
  function Ceil(x: real): (n: int)
    ensures (n - 1) as real < x <= n as real
  {
    if x.Floor as real == x then x.Floor else x.Floor + 1
  }

  /** `sorted(set([m] + s))` for an increasing list `s`. */
  function InsertSorted(s: seq<int>, m: int): (r: seq<int>)
    requires Increasing(s)
    ensures Increasing(r) && m in r
    ensures forall v :: v in r <==> v == m || v in s
    decreases |s|
  {
    if |s| == 0 then [m]
    else if m < s[0] then [m] + s
    else if m == s[0] then s
    else
      var rest := InsertSorted(s[1..], m);
      assert forall j :: 0 <= j < |rest| ==> s[0] < rest[j] by {
        forall j | 0 <= j < |rest| ensures s[0] < rest[j] {
          assert rest[j] in rest;
          if rest[j] != m {
            var k :| 0 <= k < |s[1..]| && s[1..][k] == rest[j];
            assert s[k + 1] == rest[j];
          }
        }
      }
      [s[0]] + rest
  }

  /** `list.index(m)`: the position of the first occurrence of `m`. */
  function IndexOf(s: seq<int>, m: int): (ix: nat)
    requires m in s
    ensures ix < |s| && s[ix] == m && m !in s[..ix]
    decreases |s|
  {
    if s[0] == m then 0 else 1 + IndexOf(s[1..], m)
  }

  /** Inserting `m` after a smaller first edge moves its index by one. */
  lemma IndexPastSmallerHead(s: seq<int>, m: int)
    requires Increasing(s) && |s| > 0 && m > s[0]
    ensures Increasing(s[1..])
    ensures IndexOf(InsertSorted(s, m), m) == 1 + IndexOf(InsertSorted(s[1..], m), m)
  {
    var r := InsertSorted(s, m);
    assert r == [s[0]] + InsertSorted(s[1..], m);
    assert r[1..] == InsertSorted(s[1..], m);
  }

  /** How many leading edges of `s` lie below `m`. */
  function CountBelow(s: seq<int>, m: int): nat
    decreases |s|
  {
    if |s| == 0 || m <= s[0] then 0 else 1 + CountBelow(s[1..], m)
  }

  /** In an increasing list, exactly the first `CountBelow(s, m)` edges lie
      below `m`. */
  lemma {:induction false} CountBelowSplits(s: seq<int>, m: int)
    requires Increasing(s)
    ensures CountBelow(s, m) <= |s|
    ensures forall k :: 0 <= k < CountBelow(s, m) ==> s[k] < m
    ensures forall k :: CountBelow(s, m) <= k < |s| ==> m <= s[k]
    decreases |s|
  {
    if |s| > 0 && m > s[0] {
      var t := s[1..];
      assert Increasing(t);
      CountBelowSplits(t, m);
      forall k | 0 <= k < CountBelow(s, m) ensures s[k] < m {
        if k > 0 {
          assert s[k] == t[k - 1];
        }
      }
      forall k | CountBelow(s, m) <= k < |s| ensures m <= s[k] {
        assert s[k] == t[k - 1];
      }
    } else if |s| > 0 {
      forall k | 0 <= k < |s| ensures m <= s[k] {
        if k > 0 {
          assert s[0] < s[k];
        }
      }
    }
  }

  /** The index of `m` after insertion counts the edges below it. */
  lemma {:induction false} IndexIsCountBelow(s: seq<int>, m: int)
    requires Increasing(s)
    ensures IndexOf(InsertSorted(s, m), m) == CountBelow(s, m)
    decreases |s|
  {
    if |s| > 0 && m > s[0] {
      IndexPastSmallerHead(s, m);
      IndexIsCountBelow(s[1..], m);
    }
  }

  /** The position of `m` once inserted is the number of edges below `m`. */
  lemma IndexAfterInsert(s: seq<int>, m: int)
    requires Increasing(s)
    ensures var ix := IndexOf(InsertSorted(s, m), m);
            ix <= |s| &&
            (forall k :: 0 <= k < ix ==> s[k] < m) &&
            (forall k :: ix <= k < |s| ==> m <= s[k])
  {
    IndexIsCountBelow(s, m);
    CountBelowSplits(s, m);
  }

  /** What `create_duration_labels` promises for a rounded-up maximum `m`:
      one label per bin, bins starting at 0 and strictly increasing, labels
      a prefix of the defaults; above 120 every default edge plus `m` itself
      with all seven labels, otherwise the defaults up to the smallest edge
      at or above `m`. */
  predicate DurationBinning(m: int, b: Binning) {
    |b.labels| == |b.bins| - 1 && b.bins[0] == 0 && Increasing(b.bins) &&
    |b.labels| <= |DefaultLabels| && b.labels == DefaultLabels[..|b.labels|] &&
    (m > 120 ==> b.bins == DefaultBins + [m] && b.labels == DefaultLabels) &&
    (m <= 120 ==> |b.bins| <= |DefaultBins| && b.bins == DefaultBins[..|b.bins|] &&
                  m <= b.bins[|b.bins| - 1] && (|b.bins| >= 2 ==> b.bins[|b.bins| - 2] < m))
  }

  /** The bins and labels cut at index `ix`, after `m` is appended when
      `ix` reaches the last default edge and `m` is not that edge. As in
      Python, a slice past the end stops at the end. */
  function CutBinning(m: int, ix: nat): Binning
    requires ix <= |DefaultBins|
  {
    var extended := if ix + 1 >= |DefaultBins| && m != DefaultBins[|DefaultBins| - 1]
                    then DefaultBins + [m] else DefaultBins;
    var cut := if ix + 1 <= |extended| then ix + 1 else |extended|;  // slices clip
    Binning(extended[..cut], DefaultLabels[..ix])
  }

  /** The slices taken after the optional append meet `DurationBinning`,
      given that `ix` counts the default edges below `m`. */
  lemma SlicesMeetBinning(m: int, ix: nat)
    requires ix <= |DefaultBins|
    requires forall k :: 0 <= k < ix ==> DefaultBins[k] < m
    requires forall k :: ix <= k < |DefaultBins| ==> m <= DefaultBins[k]
    ensures DurationBinning(m, CutBinning(m, ix))
  {
    if ix == |DefaultBins| {
      assert m > 120;
      assert CutBinning(m, ix).bins == DefaultBins + [m];
    } else {
      assert m <= DefaultBins[6] == 120;
      assert CutBinning(m, ix).bins == DefaultBins[..ix + 1];
    }
  }

  /** `create_duration_labels`. An empty series has a NaN maximum, and
      `ceil(NaN)` raises `ValueError`. */
  method CreateDurationLabels(durations: seq<real>) returns (r: Result<Binning>)
    ensures r.Err? <==> |durations| == 0
    ensures |durations| > 0 ==> r.Ok? && DurationBinning(Ceil(MaxOf(durations)), r.value)
  {
    if |durations| == 0 {
      return Err(ValueError("cannot convert float NaN to integer"));
    }
    var defaultBins := DefaultBins;
    var defaultLabels := DefaultLabels;

    DefaultBinsIncreasing();
    var binsCopy := defaultBins;
    var maxDurationRaw := MaxOf(durations);
    var maxDurationAsInt := Ceil(maxDurationRaw);

    binsCopy := InsertSorted(binsCopy, maxDurationAsInt);  // insert(0, m), then sorted(set(...))
    var ix := IndexOf(binsCopy, maxDurationAsInt);
    IndexAfterInsert(defaultBins, maxDurationAsInt);
    SlicesMeetBinning(maxDurationAsInt, ix);

    if ix + 1 >= |defaultBins| && maxDurationAsInt != defaultBins[|defaultBins| - 1] {
      defaultBins := defaultBins + [maxDurationAsInt];
    }

    var customBins := defaultBins[..ix + 1];
    var customLabels := defaultLabels[..ix];
    r := Ok(Binning(customBins, customLabels));
    assert r.value == CutBinning(maxDurationAsInt, ix);
  }

  /** `DurationBinning` leaves no freedom: for each `m` at most one binning
      meets it, so the method's postcondition fixes its result. */
  lemma DurationBinningUnique(m: int, b1: Binning, b2: Binning)
    requires DurationBinning(m, b1) && DurationBinning(m, b2)
    ensures b1 == b2
  {
    if m <= 120 {
      var n1, n2 := |b1.bins|, |b2.bins|;
      assert b1.bins == DefaultBins[..n1] && b2.bins == DefaultBins[..n2];
    }
  }

  /** Worked cases: a maximum of 50 stops at edge 60 with four labels; a
      maximum in (90, 120) keeps the seven default edges (the appended value
      is sliced away); a maximum of 150 adds 150 as an eighth edge with all
      seven labels. */
  lemma DurationExamples()
    ensures DurationBinning(50, Binning([0, 15, 30, 45, 60], DefaultLabels[..4]))
    ensures DurationBinning(100, Binning(DefaultBins, DefaultLabels[..6]))
    ensures DurationBinning(150, Binning([0, 15, 30, 45, 60, 90, 120, 150], DefaultLabels))
  {
    assert DefaultBins[..5] == [0, 15, 30, 45, 60];
    assert DefaultBins[..7] == DefaultBins;
  }
}
