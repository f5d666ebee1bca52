/** Identifiers and result types shared by every layer of the engine. */
module Storage {

  datatype Option<+T> = None | Some(value: T)

  datatype Result<+T, +E> = Ok(value: T) | Err(error: E)

  /** A page is addressed by its file and its position in that file. */
  datatype PageId = PageId(fileId: nat, pageNum: nat)

  /** A heap row is addressed by its page and its slot in that page. */
  datatype Ctid = Ctid(page: PageId, slot: nat)

  const U32_MAX: nat := 0xFFFF_FFFF

  const INVALID_PAGE_ID := PageId(U32_MAX, U32_MAX)

  /** Keys are 32-bit signed integers; KEY_END is the first value above them. */
  const KEY_MIN: int := -0x8000_0000
  const KEY_END: int := 0x8000_0000

  type Key = k: int | KEY_MIN <= k < KEY_END witness 0
}
