/** What the server learns from the file system, as plain values. */
module FsModel {
  /** The part of an `fs.Stats` result the server reads: `isFile()` and `size`. */
  datatype Stats = Stats(isFile: bool, size: nat)

  /** A name as `fs.readdir` lists it: a single path component, so it never holds '/'. */
  type EntryName = s: string | '/' !in s witness ""
}
