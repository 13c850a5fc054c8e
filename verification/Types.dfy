/** Values shared by every part of the cell: bytes, checksums, directory records and
    the constants of the on-slab layout. */
module Types {

  newtype byte = b: int | 0 <= b < 256

  const CHECKSUM_SIZE := 32

  /** A chunk checksum: 32 bytes, compared bytewise. How it is computed plays no part here. */
  type Checksum = s: seq<byte> | |s| == CHECKSUM_SIZE witness seq(CHECKSUM_SIZE, _ => 0)

  /** The checksum that memset leaves behind. */
  const ZERO_CHECKSUM: Checksum :=
    [0, 0, 0, 0, 0, 0, 0, 0, 0, 0, 0, 0, 0, 0, 0, 0,
     0, 0, 0, 0, 0, 0, 0, 0, 0, 0, 0, 0, 0, 0, 0, 0]

  /** sizeof(struct cell_body_entry) and sizeof(struct cell_dir_entry). */
  const ENTRY_SIZE := 36
  const RECORD_SIZE := 36

  const CELL_DIR_BLOCK_COUNT := 256
  const CELL_DIR_BLOCK_ENTRIES := 3
  const CELL_DIR_BLOCK_CHECKSUM_BYTE := 17

  /** Widths of the bit fields: size and previous_size, the per-block overflow count,
      the overflow record count and the record offset. */
  const SIZE_LIMIT := 0x8000
  const BLOCK_OVERFLOW_LIMIT := 0x1000
  const OVERFLOW_LIMIT := 0x1_0000
  const OFFSET_LIMIT := 0x8000_0000

  const CELL_HEADER_MAGIC := 26061973
  const CODE_LIMIT := 0x1_0000_0000  // entry_code and exit_code are 32 bits wide

  /** The directory block that a checksum selects. */
  function BlockNo(key: Checksum): (b: nat)
    ensures b < CELL_DIR_BLOCK_COUNT
  {
    key[CELL_DIR_BLOCK_CHECKSUM_BYTE] as nat
  }

  datatype DirEntry = DirEntry(checksum: Checksum, offset: nat, inUse: bool)

  const ZERO_RECORD := DirEntry(ZERO_CHECKSUM, 0, false)

  datatype Option<+T> = None | Some(value: T)
}
