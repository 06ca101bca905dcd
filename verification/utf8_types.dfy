/**
 The declarations shared by the UTF-8 codec: the integer types it works on,
 the code-point storage widths ("kinds"), the configuration options, the
 result codes, and the codec record with its diagnostics of the last encode.
 */
module Utf8Types {

  /** One byte of encoded UTF-8 output (C `uint8_t`). */
  type Byte = bv8

  /** A code point as the codec holds it (C `ucs4_t`, an unsigned 32-bit integer). */
  type Ucs4 = bv32

  /** Storage widths, in bytes per code point, of the caller's code-point array. */
  const Kind1B: int := 1
  const Kind2B: int := 2
  const Kind4B: int := 4

  /** The width a freshly initialised codec uses. */
  const KindDefault: int := Kind2B

  /** The kinds the codec accepts: 1, 2 or 4 bytes per stored code point. */
  predicate ValidKind(kind: int) {
    kind == Kind1B || kind == Kind2B || kind == Kind4B
  }

  /** The one configuration option: set the storage width. */
  const OptSetKind: nat := 1

  /**
   The results the core can return. `UTF8_ERR` and `UTF8_ERR_NO_MEM` are
   declared but never returned by any operation, so they have no constructor.
   */
  datatype Status = Ok | ErrBadOpt | ErrBadKind | ErrNoBuff | ErrBadCp

  /** The numeric result code a status is reported as. */
  function ResultCode(s: Status): (code: int)
    ensures code == 0 <==> s == Ok
    ensures code < 0 <==> s != Ok
  {
    match s
    case Ok => 0
    case ErrBadOpt => -3
    case ErrBadKind => -4
    case ErrNoBuff => -5
    case ErrBadCp => -6
  }

  /** Distinct statuses are reported as distinct codes. */
  lemma ResultCodeInjective(s: Status, t: Status)
    ensures ResultCode(s) == ResultCode(t) ==> s == t
  {
  }

  /**
   Diagnostics of the last encode: the last code point fetched, the number of
   bytes written, and the number of code points completely encoded.
   */
  datatype Proc = Proc(codePoint: Ucs4, encodedNoBuff: nat, encodedCpNum: nat)

  /** The codec: the configured storage width plus the diagnostics. */
  datatype Codec = Codec(kind: int, proc: Proc)
}
