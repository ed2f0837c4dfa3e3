/** The values the size matcher works on. The decoding of an index file
    into directory entries, the per-kind exact-match rule and the signed
    size distance live in source files that are not part of this model;
    they enter as the uninterpreted functions of `SizeRules`. */
module Directories {

  /** `u16` */
  type U16 = x: int | 0 <= x < 0x1_0000

  /** `i16` */
  type I16 = x: int | -0x8000 <= x < 0x8000

  /** The cast `x as i16` of a `u16`: reinterprets the 16 bits as two's
      complement, so values from 0x8000 on wrap to negatives. */
  function AsI16(x: U16): (r: I16)
    ensures (r - x) % 0x1_0000 == 0
    ensures x < 0x8000 ==> r == x
  {
    if x < 0x8000 then x else x - 0x1_0000
  }

  /** `DirectoryType`; its per-kind bounds are only read by the
      uninterpreted rules. */
  datatype DirectoryType = Fixed | Scalable | Threshold

  /** One directory entry of a theme's index: its path relative to the
      theme root, its kind and its (`i16`) scale. */
  datatype Directory = Directory(name: string, kind: DirectoryType, scale: I16)

  /** `DirectoryType::match_size(size, scale)` and
      `directory_size_distance(size, scale)`, both uninterpreted. */
  datatype SizeRules = SizeRules(
    matches: (Directory, U16, U16) -> bool,
    distance: (Directory, U16, U16) -> int)

  /** `SizeScheme` */
  datatype SizeScheme = Closest | LargerClosest | SmallerClosest

  /** A directory kept by the closest-size pass with its signed distance
      and its position in the index (the position only serves to state
      that the sort is stable). */
  datatype Candidate = Candidate(dir: Directory, distance: int, pos: nat)
}
