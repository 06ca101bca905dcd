/**
 The codec's operations: initialisation, configuration of the code-point
 storage width, and encoding of a code-point array into a caller buffer.
 */
module Utf8Codec {
  import opened Utf8Types
  import opened Utf8Layout

  /**
   Sets the storage width to the default of two bytes and reports success;
   the diagnostics are left as they were.
   */
  function Init(codec: Codec): (r: (Status, Codec))
    ensures r.0 == Ok
    ensures ValidKind(r.1.kind)
    ensures r.1.kind == Kind2B
    ensures r.1.proc == codec.proc
  {
    (Ok, codec.(kind := KindDefault))
  }

  /**
   Applies one configuration option. The only option sets the storage width,
   which must be 1, 2 or 4; every refusal leaves the codec as it was.
   */
  function Config(codec: Codec, opt: nat, arg: int): (r: (Status, Codec))
    ensures r.0 == Ok <==> opt == OptSetKind && ValidKind(arg)
    ensures r.0 == ErrBadOpt <==> opt != OptSetKind
    ensures r.0 == ErrBadKind <==> opt == OptSetKind && !ValidKind(arg)
    ensures r.0 == Ok ==> r.1.kind == arg
    ensures r.0 != Ok ==> r.1 == codec
    ensures r.1.proc == codec.proc
  {
    if opt == OptSetKind then
      if arg == Kind1B || arg == Kind2B || arg == Kind4B then (Ok, codec.(kind := arg))
      else (ErrBadKind, codec)
    else (ErrBadOpt, codec)
  }

  /** Setting a width twice has the same effect as setting it once, and succeeds both times or neither. */
  lemma ConfigIdempotent(codec: Codec, opt: nat, arg: int)
    ensures Config(Config(codec, opt, arg).1, opt, arg) == Config(codec, opt, arg)
  {
  }

  /** Whatever is configured, a codec with a valid width keeps a valid width. */
  lemma ConfigPreservesValidKind(codec: Codec, opt: nat, arg: int)
    requires ValidKind(codec.kind)
    ensures ValidKind(Config(codec, opt, arg).1.kind)
  {
  }

  /** The default width is one the configuration itself accepts: setting it after `Init` changes nothing. */
  lemma ConfigDefaultAfterInit(codec: Codec)
    ensures Config(Init(codec).1, OptSetKind, KindDefault) == (Ok, Init(codec).1)
  {
  }

  /** The largest value a slot of the given width can hold (any 32-bit value for an invalid width). */
  function SlotMax(kind: int): Ucs4 {
    if kind == Kind1B then 0xFF
    else if kind == Kind2B then 0xFFFF
    else 0xFFFF_FFFF
  }

  /** Every stored code point fits the slot width the codec reads it at. */
  predicate SlotsFit(kind: int, cps: seq<Ucs4>) {
    forall i | 0 <= i < |cps| :: cps[i] <= SlotMax(kind)
  }

  /** The last code point fetched when encoding stopped after `n` complete ones; 0 if none was fetched. */
  function LastFetched(cps: seq<Ucs4>, n: nat): Ucs4
    requires n <= |cps|
  {
    if n < |cps| then cps[n]
    else if n == 0 then 0
    else cps[n - 1]
  }

  /** Code points stored one or two bytes wide are always encodable. */
  lemma NarrowSlotsEncodable(kind: int, cps: seq<Ucs4>)
    requires kind == Kind1B || kind == Kind2B
    requires SlotsFit(kind, cps)
    ensures AllEncodable(cps)
  {
  }

  /**
   Writes `bytes` into `a` from index `at` on, first byte first, leaving every
   other byte of `a` as it was.
   */
  method StoreBytes(a: array<Byte>, at: nat, bytes: seq<Byte>)
    requires at + |bytes| <= a.Length
    modifies a
    ensures a[..] == old(a[..at]) + bytes + old(a[at + |bytes|..])
  {
    ghost var s0 := a[..];
    for k := 0 to |bytes|
      invariant a[..] == s0[..at] + bytes[..k] + s0[at + k..]
    {
      a[at + k] := bytes[k];
      assert bytes[..k + 1] == bytes[..k] + [bytes[k]];
    }
    assert bytes[..|bytes|] == bytes;
  }

  /**
   The buffer bookkeeping of one loop step: writing `bytes` right after the
   encoded prefix `done` extends the prefix and leaves the rest of the
   caller's buffer as it was.
   */
  lemma SpliceAfterPrefix(before: seq<Byte>, buff: seq<Byte>, done: seq<Byte>, bytes: seq<Byte>, after: seq<Byte>)
    requires |done| + |bytes| <= |buff|
    requires before == done + buff[|done|..]
    requires after == before[..|done|] + bytes + before[|done| + |bytes|..]
    ensures after == (done + bytes) + buff[|done + bytes|..]
  {
    assert before[..|done|] == done;
    assert before[|done| + |bytes|..] == buff[|done| + |bytes|..];
  }

  /**
   One step of the encoding loop: with the encodings of `cps[..n]` already at
   the front of `a`, stores the bytes of `cps[n]` right after them.
   */
  method AppendEncoding(a: array<Byte>, buff: seq<Byte>, cps: seq<Ucs4>, n: nat)
    requires n < |cps| && AllEncodable(cps[..n]) && Encodable(cps[n])
    requires a.Length == |buff|
    requires |EncodeAll(cps[..n])| + EncodedLength(cps[n]) <= |buff|
    requires a[..] == EncodeAll(cps[..n]) + buff[|EncodeAll(cps[..n])|..]
    modifies a
    ensures AllEncodable(cps[..n + 1])
    ensures |EncodeAll(cps[..n + 1])| == |EncodeAll(cps[..n])| + EncodedLength(cps[n])
    ensures a[..] == EncodeAll(cps[..n + 1]) + buff[|EncodeAll(cps[..n + 1])|..]
  {
    ghost var before := a[..];
    StoreBytes(a, |EncodeAll(cps[..n])|, EncodeOne(cps[n]));
    SpliceAfterPrefix(before, buff, EncodeAll(cps[..n]), EncodeOne(cps[n]), a[..]);
    EncodeAllExtend(cps, n);
  }

  /**
   Encodes `cps` (stored at the codec's width) into the first `maxBuffSize`
   bytes of the caller's buffer `buff`, returning the status, the codec with
   its diagnostics updated and the buffer's new contents.

   An invalid width is refused before anything is read, written or recorded.
   Otherwise encoding runs as `EncodeCodePoints` describes, and its
   diagnostics replace the codec's.
   */
  method Encode(codec: Codec, buff: seq<Byte>, maxBuffSize: nat, cps: seq<Ucs4>)
    returns (res: Status, codec': Codec, buff': seq<Byte>)
    requires maxBuffSize <= |buff|
    requires SlotsFit(codec.kind, cps)
    ensures |buff'| == |buff|
    ensures res == Ok || res == ErrNoBuff || res == ErrBadCp || res == ErrBadKind
    ensures res == ErrBadKind <==> !ValidKind(codec.kind)
    ensures res == ErrBadKind ==> codec' == codec && buff' == buff
    ensures res != ErrBadKind ==>
              && codec'.kind == codec.kind
              && codec'.proc.encodedCpNum <= |cps|
              && codec'.proc.encodedNoBuff <= maxBuffSize
              && codec'.proc.codePoint == LastFetched(cps, codec'.proc.encodedCpNum)
    ensures res != ErrBadKind ==>
              var n, w := codec'.proc.encodedCpNum, codec'.proc.encodedNoBuff;
              && AllEncodable(cps[..n])
              && buff'[..w] == EncodeAll(cps[..n])
              && buff'[w..] == buff[w..]
    ensures res != ErrBadKind ==>
              var n, w := codec'.proc.encodedCpNum, codec'.proc.encodedNoBuff;
              && (res == Ok <==> n == |cps|)
              && (res == ErrBadCp <==> n < |cps| && !Encodable(cps[n]))
              && (res == ErrNoBuff <==> n < |cps| && Encodable(cps[n]) && maxBuffSize - w < EncodedLength(cps[n]))
    // Only four-byte slots can hold a value above 0x1FFFFF.
    ensures codec.kind == Kind1B || codec.kind == Kind2B ==> res != ErrBadCp
  {
    if !ValidKind(codec.kind) {
      return ErrBadKind, codec, buff;
    }
    var proc;
    res, proc, buff' := EncodeCodePoints(buff, maxBuffSize, cps);
    codec' := codec.(proc := proc);
    if codec.kind == Kind1B || codec.kind == Kind2B {
      NarrowSlotsEncodable(codec.kind, cps);
    }
  }

  /**
   The encoding loop. Code points are taken in order; encoding stops at the
   first one above 0x1FFFFF or the first one whose bytes do not fit in the
   remaining capacity, and nothing of that code point is written. The bytes of
   the code points before it stay in the buffer. The diagnostics give the last
   code point fetched, the bytes written and the code points fully encoded.
   */
  method EncodeCodePoints(buff: seq<Byte>, maxBuffSize: nat, cps: seq<Ucs4>)
    returns (res: Status, proc: Proc, buff': seq<Byte>)
    requires maxBuffSize <= |buff|
    ensures |buff'| == |buff|
    ensures proc.encodedCpNum <= |cps| && proc.encodedNoBuff <= maxBuffSize
    ensures proc.codePoint == LastFetched(cps, proc.encodedCpNum)
    ensures AllEncodable(cps[..proc.encodedCpNum])
    ensures buff'[..proc.encodedNoBuff] == EncodeAll(cps[..proc.encodedCpNum])
    ensures buff'[proc.encodedNoBuff..] == buff[proc.encodedNoBuff..]
    ensures res == Ok || res == ErrNoBuff || res == ErrBadCp
    ensures res == Ok <==> proc.encodedCpNum == |cps|
    ensures res == ErrBadCp <==> proc.encodedCpNum < |cps| && !Encodable(cps[proc.encodedCpNum])
    ensures res == ErrNoBuff <==>
              && proc.encodedCpNum < |cps|
              && Encodable(cps[proc.encodedCpNum])
              && maxBuffSize - proc.encodedNoBuff < EncodedLength(cps[proc.encodedCpNum])
  {
    var a := new Byte[|buff|](i requires 0 <= i < |buff| => buff[i]);
    var codePoint: Ucs4 := 0;
    var cpIdx: nat := 0;
    var encoded: nat := 0;
    var remain := maxBuffSize;
    res := Ok;
    while cpIdx < |cps|
      invariant cpIdx <= |cps|
      invariant encoded <= maxBuffSize && remain == maxBuffSize - encoded
      invariant AllEncodable(cps[..cpIdx])
      invariant encoded == |EncodeAll(cps[..cpIdx])|
      invariant a[..] == EncodeAll(cps[..cpIdx]) + buff[encoded..]
      invariant codePoint == if cpIdx == 0 then 0 else cps[cpIdx - 1]
    {
      // The slot is read at the configured width; `SlotsFit` bounds the value it holds.
      codePoint := cps[cpIdx];
      if !Encodable(codePoint) {
        res := ErrBadCp;
        break;
      }
      var len := EncodedLength(codePoint);
      if remain < len {
        res := ErrNoBuff;
        break;
      }
      AppendEncoding(a, buff, cps, cpIdx);
      encoded := encoded + len;
      remain := maxBuffSize - encoded;
      cpIdx := cpIdx + 1;
    }
    proc := Proc(codePoint, encoded, cpIdx);
    buff' := a[..];
    assert buff'[..encoded] == EncodeAll(cps[..cpIdx]);
    assert buff'[encoded..] == buff[encoded..];
  }
}
