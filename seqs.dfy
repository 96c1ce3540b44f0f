/** Sequence helpers standing for the pandas primitives the core relies on:
    boolean-mask selection (`df[mask]`), `drop_duplicates` (keep the first
    occurrence) and the numeric reductions `sum`, `min`, `max`. */
module Seqs {

  /** `rows[mask]`: the rows whose mask entry is true, in their order. */
  function Masked<T>(rows: seq<T>, mask: seq<bool>): (r: seq<T>)
    requires |mask| == |rows|
    ensures |r| <= |rows|
    decreases |rows|
  {
    if |rows| == 0 then []
    else Masked(rows[..|rows| - 1], mask[..|mask| - 1])
         + (if mask[|mask| - 1] then [rows[|rows| - 1]] else [])
  }

  /** Selecting with a mask distributes over concatenation: selection keeps
      the input order and decides every row on its own. */
  lemma {:induction false} MaskedConcat<T>(a: seq<T>, ma: seq<bool>, b: seq<T>, mb: seq<bool>)
    requires |ma| == |a| && |mb| == |b|
    ensures Masked(a + b, ma + mb) == Masked(a, ma) + Masked(b, mb)
    decreases |b|
  {
    if |b| == 0 {
      assert a + b == a && ma + mb == ma;
    } else {
      var b', mb' := b[..|b| - 1], mb[..|mb| - 1];
      assert (a + b)[..|a + b| - 1] == a + b';
      assert (ma + mb)[..|ma + mb| - 1] == ma + mb';
      MaskedConcat(a, ma, b', mb');
    }
  }

  /** A row is selected exactly when its mask entry is true. */
  lemma {:induction false} MaskedMembership<T>(rows: seq<T>, mask: seq<bool>, x: T)
    requires |mask| == |rows|
    ensures x in Masked(rows, mask) <==> exists i :: 0 <= i < |rows| && mask[i] && rows[i] == x
    decreases |rows|
  {
    if |rows| > 0 {
      var n := |rows| - 1;
      MaskedMembership(rows[..n], mask[..n], x);
      if x in Masked(rows[..n], mask[..n]) {
        var i :| 0 <= i < n && mask[..n][i] && rows[..n][i] == x;
        assert mask[i] && rows[i] == x;
      }
      if exists i :: 0 <= i < |rows| && mask[i] && rows[i] == x {
        var i :| 0 <= i < |rows| && mask[i] && rows[i] == x;
        if i < n {
          assert mask[..n][i] && rows[..n][i] == x;
        }
      }
    }
  }

  /** Positions of the first occurrence of each distinct value, in order:
      the rows `drop_duplicates()` keeps (it keeps their index labels). */
  function FirstOccurrences<T(==)>(s: seq<T>): (r: seq<nat>)
    ensures forall k :: 0 <= k < |r| ==> r[k] < |s|
    decreases |s|
  {
    if |s| == 0 then []
    else FirstOccurrences(s[..|s| - 1])
         + (if s[|s| - 1] in s[..|s| - 1] then [] else [|s| - 1])
  }

  /** The kept positions are increasing, and they are exactly the positions
      whose value did not occur earlier. */
  lemma {:induction false} FirstOccurrencesSpec<T>(s: seq<T>)
    ensures forall k, l :: 0 <= k < l < |FirstOccurrences(s)| ==>
              FirstOccurrences(s)[k] < FirstOccurrences(s)[l]
    ensures forall i :: 0 <= i < |s| ==> (i in FirstOccurrences(s) <==> s[i] !in s[..i])
    decreases |s|
  {
    if |s| > 0 {
      var n := |s| - 1;
      var p := s[..n];
      FirstOccurrencesSpec(p);
      var fo, fp := FirstOccurrences(s), FirstOccurrences(p);
      assert fo == fp + (if s[n] in p then [] else [n]);
      forall k, l | 0 <= k < l < |fo| ensures fo[k] < fo[l] {
        if l < |fp| {
          assert fo[k] == fp[k] && fo[l] == fp[l];
        } else {
          assert fo[k] == fp[k] < n && fo[l] == n;
        }
      }
      forall i | 0 <= i < |s| ensures i in fo <==> s[i] !in s[..i] {
        if i < n {
          assert s[..i] == p[..i] && s[i] == p[i];
          assert i in fo <==> i in fp;
        } else {
          assert s[..i] == p;
          assert n !in fp;
        }
      }
    }
  }

  /** After dropping duplicates no value repeats, and every value of the input
      is still present. */
  lemma FirstOccurrencesDistinct<T>(s: seq<T>)
    ensures forall k, l :: 0 <= k < l < |FirstOccurrences(s)| ==>
              s[FirstOccurrences(s)[k]] != s[FirstOccurrences(s)[l]]
    ensures forall i :: 0 <= i < |s| ==> exists k :: 0 <= k < |FirstOccurrences(s)| && s[FirstOccurrences(s)[k]] == s[i]
  {
    var fo := FirstOccurrences(s);
    FirstOccurrencesSpec(s);
    forall k, l | 0 <= k < l < |fo| ensures s[fo[k]] != s[fo[l]] {
      assert fo[k] < fo[l];
      assert s[fo[k]] == s[..fo[l]][fo[k]];
    }
    forall i | 0 <= i < |s| ensures exists k :: 0 <= k < |fo| && s[fo[k]] == s[i] {
      FirstWitness(s, i);
    }
  }

  /** Position n is kept exactly when no earlier position holds an equal
      value. */
  lemma FirstOccurrencesKept<T>(s: seq<T>)
    ensures forall n :: 0 <= n < |s| ==>
              ((exists k :: 0 <= k < |FirstOccurrences(s)| && FirstOccurrences(s)[k] == n) <==>
               (forall m :: 0 <= m < n ==> s[m] != s[n]))
  {
    FirstOccurrencesSpec(s);
    forall n | 0 <= n < |s|
      ensures (s[n] in s[..n]) <==> exists m :: 0 <= m < n && s[m] == s[n]
    {
      if s[n] in s[..n] {
        var m :| 0 <= m < n && s[..n][m] == s[n];
      }
      if exists m :: 0 <= m < n && s[m] == s[n] {
        var m :| 0 <= m < n && s[m] == s[n];
        assert s[..n][m] == s[n];
      }
    }
  }

  /** Every value has a first occurrence at or before any of its positions. */
  lemma {:induction false} FirstWitness<T>(s: seq<T>, i: nat)
    requires i < |s|
    ensures exists k :: 0 <= k < |FirstOccurrences(s)| && s[FirstOccurrences(s)[k]] == s[i]
    decreases i
  {
    FirstOccurrencesSpec(s);
    var fo := FirstOccurrences(s);
    if s[i] !in s[..i] {
      var k :| 0 <= k < |fo| && fo[k] == i;
    } else {
      var j :| 0 <= j < i && s[..i][j] == s[i];
      FirstWitness(s, j);
    }
  }

  /** Two sequences with the same equality pattern (for instance one and the
      image of it under an injective map) keep the same positions. */
  lemma {:induction false} FirstOccurrencesSamePattern<T, U>(s: seq<T>, t: seq<U>)
    requires |s| == |t|
    requires forall i, j :: 0 <= i < |s| && 0 <= j < |s| ==> (s[i] == s[j] <==> t[i] == t[j])
    ensures FirstOccurrences(s) == FirstOccurrences(t)
    decreases |s|
  {
    if |s| > 0 {
      var n := |s| - 1;
      FirstOccurrencesSamePattern(s[..n], t[..n]);
      assert (s[n] in s[..n]) <==> (t[n] in t[..n]) by {
        if s[n] in s[..n] {
          var j :| 0 <= j < n && s[..n][j] == s[n];
          assert t[..n][j] == t[n];
        }
        if t[n] in t[..n] {
          var j :| 0 <= j < n && t[..n][j] == t[n];
          assert s[..n][j] == s[n];
        }
      }
    }
  }

  /** Folds over a column of numbers: `sum`, `min` and `max` without NaN. */
  function SumOf(vs: seq<real>): real
    decreases |vs|
  {
    if |vs| == 0 then 0.0 else SumOf(vs[..|vs| - 1]) + vs[|vs| - 1]
  }

  function MinOf(vs: seq<real>): (m: real)
    requires |vs| > 0
    ensures m in vs
    ensures forall i :: 0 <= i < |vs| ==> m <= vs[i]
    decreases |vs|
  {
    if |vs| == 1 then vs[0]
    else
      var m := MinOf(vs[..|vs| - 1]);
      if vs[|vs| - 1] < m then vs[|vs| - 1] else m
  }

  function MaxOf(vs: seq<real>): (m: real)
    requires |vs| > 0
    ensures m in vs
    ensures forall i :: 0 <= i < |vs| ==> m >= vs[i]
    decreases |vs|
  {
    if |vs| == 1 then vs[0]
    else
      var m := MaxOf(vs[..|vs| - 1]);
      if vs[|vs| - 1] > m then vs[|vs| - 1] else m
  }

  lemma {:induction false} SumOfConcat(x: seq<real>, y: seq<real>)
    ensures SumOf(x + y) == SumOf(x) + SumOf(y)
    decreases |y|
  {
    if |y| == 0 {
      assert x + y == x;
    } else {
      var n := |y| - 1;
      assert (x + y)[..|x + y| - 1] == x + y[..n];
      SumOfConcat(x, y[..n]);
    }
  }
}
