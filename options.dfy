/** Optional values: Kotlin's nullable types (`BgProc?`, a failed `toLong`). */
module Options {
  datatype Option<+T> = None | Some(value: T)
}
