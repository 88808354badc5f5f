/** The knowledge block the scanner fills in before it sweeps (`PGBLOCK`), the record it creates
    for every context it finds (`PGOBJECT`), and the header constants both depend on. */
module Block {
  import opened Bits

  /** Constants that come from headers outside this model, kept as parameters. */
  datatype Params = Params(
    fieldBits: u32,            // PG_FIELD_BITS: rotate amount of the field key walk
    firstFieldOffset: nat,     // PG_FIRST_FIELD_OFFSET: offset of Fields[0] inside a context
    compareFieldsCount: nat    // PG_COMPARE_FIELDS_COUNT: words in the patch buffer
  ) {
    /** The patch buffer must hold at least the entry dword at any byte of the first word. */
    predicate Valid() {
      compareFieldsCount >= 4
    }

    /** Bytes copied in and out by one patch. */
    function WindowSize(): nat {
      8 * compareFieldsCount
    }
  }

  /** `PgBlock->Fields` holds four reference words. */
  const FIELDS_COUNT: nat := 4
  const FIELDS_SIZE: nat := 8 * FIELDS_COUNT

  /** How the context was found: in the clear or still encoded. */
  datatype Protection = Declassified | Encrypted

  /** The kind of region a context was found in; `NoRegion` is the `-1` an unlocated object
      carries. */
  datatype RegionType = NoRegion | PoolBigPage | SystemPtes

  /** The fields of the knowledge block the modelled routines read or write. */
  datatype PgBlock = PgBlock(
    offsetEntryPoint: u32,
    sizeCmpAppendDllSection: u32,
    sizeINITKDBG: u64,
    header: seq<byte>,             // copy of the guardian's prologue
    fields: seq<word>,             // Fields[0..3]
    fieldsAddress: u64,            // &PgBlock->Fields, which the sweep must not match
    btcEnable: bool,
    referenceCount: nat,
    poolBigPageTable: u64,
    poolBigPageTableSize: u64,
    expLargePoolTableLock: u64,
    mmDeterminePoolType: u64,
    basePte: u64,
    numberOfPtes: u64,
    clearCallback: u64,
    captureContext: u64
  ) {
    /** The prologue copy is long enough for the search to read two words at any alignment, and
        there are four reference fields. */
    predicate WellFormed() {
      |header| >= 24 && |fields| == FIELDS_COUNT
    }
  }

  /** `GUARD_BODY` as `SetGuardBody` stamps it: the redirect a patched entry jumps to. The
      back-pointer to the owning object is implied by the enclosing `PgObject`. */
  datatype GuardBody = GuardBody(filter: u64, original: u64, captureContext: u64)

  datatype PgObject = PgObject(
    protection: Protection,
    region: RegionType,
    baseAddress: u64,
    regionSize: u64,
    callback: GuardBody,
    establisher: u64
  )
}
