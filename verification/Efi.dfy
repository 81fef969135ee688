/** Vocabulary shared by the models: status codes, character widths and machine words. */
module Efi {

  datatype Status =
    | Success
    | InvalidParameter
    | Unsupported
    | BadBufferSize
    | BufferTooSmall
    | NotReady
    | DeviceError
    | OutOfResources
    | NotFound
    | AccessDenied
    | Timeout
    | ProtocolError
    | WarnDeleteFailure
  {
    /** EFI_ERROR(): warnings are not errors. */
    predicate IsError() {
      !Success? && !WarnDeleteFailure?
    }
  }

  datatype Option<+T> = None | Some(value: T)

  type Byte = b: int | 0 <= b < 0x100
  type Char8 = c: int | 0 <= c < 0x100
  type Char16 = c: int | 0 <= c < 0x1_0000

  const NUL := 0
  const DOT := 0x2E
  const SLASH := 0x2F
  const BACKSLASH := 0x5C

  const TWO_TO_16: int := 0x1_0000
  const TWO_TO_32: int := 0x1_0000_0000
  const TWO_TO_64: int := 0x1_0000_0000_0000_0000
  const MAX_UINT16: int := TWO_TO_16 - 1
  const MAX_UINT32: int := TWO_TO_32 - 1
  const MAX_UINT64: int := TWO_TO_64 - 1

  const PAGE_SIZE: int := 0x1000

  /** EFI_SIZE_TO_PAGES(): rounds up. */
  function SizeToPages(size: nat): nat {
    size / PAGE_SIZE + if size % PAGE_SIZE != 0 then 1 else 0
  }

  function Min(a: nat, b: nat): nat {
    if a <= b then a else b
  }

  // ----- little-endian words -----

  function Word16(b0: Byte, b1: Byte): nat {
    b0 + 0x100 * b1
  }

  function Word32(b0: Byte, b1: Byte, b2: Byte, b3: Byte): nat {
    Word16(b0, b1) + 0x1_0000 * Word16(b2, b3)
  }

  /** The byte of a word that is stored at offset k. */
  function ByteOf(word: nat, k: nat): Byte
    requires k < 4
  {
    match k
    case 0 => word % 0x100
    case 1 => word / 0x100 % 0x100
    case 2 => word / 0x1_0000 % 0x100
    case 3 => word / 0x100_0000 % 0x100
  }

  lemma BytesOf16(b0: Byte, b1: Byte)
    ensures ByteOf(Word16(b0, b1), 0) == b0 && ByteOf(Word16(b0, b1), 1) == b1
  {
  }

  lemma BytesOf32(b0: Byte, b1: Byte, b2: Byte, b3: Byte)
    ensures var w := Word32(b0, b1, b2, b3);
            ByteOf(w, 0) == b0 && ByteOf(w, 1) == b1 && ByteOf(w, 2) == b2 && ByteOf(w, 3) == b3
  {
    var w := Word32(b0, b1, b2, b3);
    assert w / 0x1_0000 == Word16(b2, b3);
    assert w / 0x100_0000 == b3;
  }
}
