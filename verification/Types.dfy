/** Shared vocabulary: the key type of lists and hashes, and optional values. */
module Types {

  type Int64 = k: int | -0x8000_0000_0000_0000 <= k <= 0x7fff_ffff_ffff_ffff

  datatype Option<+T> = None | Some(value: T)
}
