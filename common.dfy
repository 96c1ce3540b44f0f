/** Values shared by the geometry helpers and the utilities: an optional value,
    the error a Python helper raises, and a planar point (x = longitude,
    y = latitude). */
module Common {

  datatype Option<T> = None | Some(value: T)

  /** The Python exceptions the modelled helpers raise; only `ValueError`
      escapes from the core. */
  datatype Error = ValueError(message: string)

  datatype Result<T> = Ok(value: T) | Err(error: Error)

  /** A shapely `Point(x, y)`. */
  datatype PointXY = PointXY(x: real, y: real)
}
