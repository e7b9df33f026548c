/** Vocabulary shared by all parts. */
module Common {
  const PGSIZE: nat := 4096
  const PHYS_BASE: nat := 0xC000_0000
  const WORD: nat := 0x1_0000_0000
  const INT_LIMIT: nat := 0x8000_0000
  const SECTOR_SIZE: nat := 512

  type Byte = x: int | 0 <= x < 256

  datatype Option<+T> = None | Some(value: T)

  function Min(a: int, b: int): int {
    if a < b then a else b
  }

  predicate NoDup<T(==)>(s: seq<T>) {
    forall i, j :: 0 <= i < j < |s| ==> s[i] != s[j]
  }
}
