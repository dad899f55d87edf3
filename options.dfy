/** The optional value used where the source returns null or a nullable struct, and .NET's int bound. */
module Options {
  datatype Option<T> = None | Some(value: T)

  /** .NET's int.MaxValue, which the solvers use as "no answer yet" or "cannot be filled". */
  const IntMax: int := 0x7fff_ffff
}
