/**
 The UTF-8 bit layout the encoder follows (section 3 of RFC 3629, widened to
 accept code points up to 0x1FFFFF): the code-point range of each encoded
 length, the leading bits and payload masks of each byte, the encoding of a
 single code point and of a sequence of them.

 `Reassemble` and `ReassembleAll` are ghost inverses. They exist only to prove
 that the encoding loses no information; the codec's own decoder is not
 part of this model.
 */
module Utf8Layout {
  import opened Utf8Types

  /* Leading bits of the first byte, by encoded length. */
  const LeadBits2: Ucs4 := 0xC0
  const LeadBits3: Ucs4 := 0xE0
  const LeadBits4: Ucs4 := 0xF0

  /* Leading bits of every later (continuation) byte. */
  const ContinuationBits: Ucs4 := 0x80

  /* Payload masks of the first byte, by encoded length, and of a continuation byte. */
  const LeadMask1: Ucs4 := 0x7F
  const LeadMask2: Ucs4 := 0x1F
  const LeadMask3: Ucs4 := 0x0F
  const LeadMask4: Ucs4 := 0x07
  const ContinuationMask: Ucs4 := 0x3F

  /* Payload bit counts of the first byte, by encoded length, and of a continuation byte. */
  const LeadPayloadBits1: bv32 := 7
  const LeadPayloadBits2: bv32 := 5
  const LeadPayloadBits3: bv32 := 4
  const LeadPayloadBits4: bv32 := 3
  const ContinuationPayloadBits: bv32 := 6

  /* The code-point range of each encoded length. */
  const MinCodePoint1: Ucs4 := 0x000000
  const MaxCodePoint1: Ucs4 := 0x00007F
  const MinCodePoint2: Ucs4 := 0x000080
  const MaxCodePoint2: Ucs4 := 0x0007FF
  const MinCodePoint3: Ucs4 := 0x000800
  const MaxCodePoint3: Ucs4 := 0x00FFFF
  const MinCodePoint4: Ucs4 := 0x010000
  const MaxCodePoint4: Ucs4 := 0x1FFFFF

  function MinCodePoint(n: nat): Ucs4
    requires 1 <= n <= 4
  {
    match n
    case 1 => MinCodePoint1
    case 2 => MinCodePoint2
    case 3 => MinCodePoint3
    case 4 => MinCodePoint4
  }

  function MaxCodePoint(n: nat): Ucs4
    requires 1 <= n <= 4
  {
    match n
    case 1 => MaxCodePoint1
    case 2 => MaxCodePoint2
    case 3 => MaxCodePoint3
    case 4 => MaxCodePoint4
  }

  function LeadMask(n: nat): Ucs4
    requires 1 <= n <= 4
  {
    match n
    case 1 => LeadMask1
    case 2 => LeadMask2
    case 3 => LeadMask3
    case 4 => LeadMask4
  }

  /** The number of code-point bits an n-byte encoding carries. */
  function PayloadBits(n: nat): bv32
    requires 1 <= n <= 4
  {
    match n
    case 1 => LeadPayloadBits1
    case 2 => LeadPayloadBits2 + ContinuationPayloadBits
    case 3 => LeadPayloadBits3 + ContinuationPayloadBits * 2
    case 4 => LeadPayloadBits4 + ContinuationPayloadBits * 3
  }

  /** `cp` needs no more than `bits` bits. */
  predicate FitsIn(cp: Ucs4, bits: bv32)
    requires bits <= 32
  {
    cp >> bits == 0
  }

  /** A code point the encoder accepts: at most 0x1FFFFF (surrogates included). */
  predicate Encodable(cp: Ucs4) {
    cp <= MaxCodePoint4
  }

  predicate AllEncodable(cps: seq<Ucs4>) {
    forall i | 0 <= i < |cps| :: Encodable(cps[i])
  }

  /** The C `(uint8_t)` cast: keep the low eight bits. */
  function Trunc8(x: bv32): Byte {
    (x & 0xFF) as Byte
  }

  /** The number of bytes a code point encodes to, chosen by its numeric range. */
  function EncodedLength(cp: Ucs4): (n: nat)
    requires Encodable(cp)
    ensures 1 <= n <= 4
    ensures MinCodePoint(n) <= cp <= MaxCodePoint(n)
  {
    if cp <= MaxCodePoint1 then 1
    else if cp <= MaxCodePoint2 then 2
    else if cp <= MaxCodePoint3 then 3
    else 4
  }

  /** The first-byte pattern a byte carries: 1 to 4 for a leading byte, 0 otherwise. */
  function LeadLength(b: Byte): nat {
    if b & 0x80 == 0x00 then 1
    else if b & 0xE0 == 0xC0 then 2
    else if b & 0xF0 == 0xE0 then 3
    else if b & 0xF8 == 0xF0 then 4
    else 0
  }

  /** The pattern `10xxxxxx` of every byte after the first. */
  predicate IsContinuation(b: Byte) {
    b & 0xC0 == 0x80
  }

  /**
   The bytes of one code point: a first byte announcing the length, then six
   payload bits per continuation byte, most significant first.
   */
  function EncodeOne(cp: Ucs4): (r: seq<Byte>)
    requires Encodable(cp)
    ensures |r| == EncodedLength(cp)
  {
    if cp <= MaxCodePoint1 then
      [Trunc8(cp)]
    else if cp <= MaxCodePoint2 then
      [ Trunc8(LeadBits2 | ((cp >> ContinuationPayloadBits) & LeadMask2)),
        Trunc8(ContinuationBits | (cp & ContinuationMask)) ]
    else if cp <= MaxCodePoint3 then
      [ Trunc8(LeadBits3 | ((cp >> (ContinuationPayloadBits * 2)) & LeadMask3)),
        Trunc8(ContinuationBits | ((cp >> ContinuationPayloadBits) & ContinuationMask)),
        Trunc8(ContinuationBits | (cp & ContinuationMask)) ]
    else
      [ Trunc8(LeadBits4 | ((cp >> (ContinuationPayloadBits * 3)) & LeadMask4)),
        Trunc8(ContinuationBits | ((cp >> (ContinuationPayloadBits * 2)) & ContinuationMask)),
        Trunc8(ContinuationBits | ((cp >> ContinuationPayloadBits) & ContinuationMask)),
        Trunc8(ContinuationBits | (cp & ContinuationMask)) ]
  }

  /** The concatenated encodings of a sequence of code points, in order. */
  function EncodeAll(cps: seq<Ucs4>): (r: seq<Byte>)
    requires AllEncodable(cps)
    ensures |cps| <= |r| <= 4 * |cps|
  {
    if cps == [] then [] else EncodeOne(cps[0]) + EncodeAll(cps[1..])
  }

  datatype Option<T> = None | Some(value: T)

  /** Shifts the six payload bits of each continuation byte into `acc`, in order. */
  ghost function AppendPayloads(acc: Ucs4, conts: seq<Byte>): Ucs4
    decreases |conts|
  {
    if conts == [] then acc
    else AppendPayloads(PushPayload(acc, conts[0]), conts[1..])
  }

  /** Shifts the six payload bits of one continuation byte into `acc`. */
  ghost function PushPayload(acc: Ucs4, b: Byte): Ucs4 {
    (acc << ContinuationPayloadBits) | ((b as Ucs4) & ContinuationMask)
  }

  /** The code point an n-byte sequence carries: the first byte's payload, then each continuation's. */
  ghost function Reassemble(bs: seq<Byte>): Ucs4
    requires 1 <= |bs| <= 4
  {
    AppendPayloads((bs[0] as Ucs4) & LeadMask(|bs|), bs[1..])
  }

  /** Splits a byte sequence at the lengths its first bytes announce and reassembles each part. */
  ghost function ReassembleAll(bs: seq<Byte>): Option<seq<Ucs4>>
    decreases |bs|
  {
    if bs == [] then Some([])
    else
      var n := LeadLength(bs[0]);
      if n == 0 || n > |bs| then None
      else
        match ReassembleAll(bs[n..])
        case None => None
        case Some(rest) => Some([Reassemble(bs[..n])] + rest)
  }

  /**
   The range table written as payload capacities: a code point takes n bytes
   exactly when it fits in the n-byte payload but not in the (n-1)-byte one.
   */
  lemma EncodedLengthIsShortestFit(cp: Ucs4, n: nat)
    requires Encodable(cp)
    requires 1 <= n <= 4
    ensures EncodedLength(cp) == n <==>
              (FitsIn(cp, PayloadBits(n)) && (n == 1 || !FitsIn(cp, PayloadBits(n - 1))))
  {
  }

  /** The four ranges are contiguous and end at 0x1FFFFF. */
  lemma RangesContiguous(n: nat)
    requires 1 <= n < 4
    ensures MinCodePoint(1) == 0
    ensures MinCodePoint(n + 1) as int == MaxCodePoint(n) as int + 1
    ensures MaxCodePoint(4) == 0x1FFFFF
  {
  }

  /**
   The first byte of an encoding announces its length by its leading bits,
   and every later byte is a continuation byte.
   */
  lemma EncodeOneLayout(cp: Ucs4)
    requires Encodable(cp)
    ensures LeadLength(EncodeOne(cp)[0]) == |EncodeOne(cp)|
    ensures forall k | 1 <= k < |EncodeOne(cp)| :: IsContinuation(EncodeOne(cp)[k])
  {
  }

  /** Reassembling the bytes of a code point recovers it. */
  lemma ReassembleEncodeOne(cp: Ucs4)
    requires Encodable(cp)
    ensures Reassemble(EncodeOne(cp)) == cp
  {
    var r := EncodeOne(cp);
    if |r| == 1 {
      assert r[1..] == [];
    } else if |r| == 2 {
      ReassembleTwo(cp);
    } else if |r| == 3 {
      ReassembleThree(cp);
    } else {
      ReassembleFour(cp);
    }
  }

  /** Reassembling any two bytes: the first byte's five payload bits, then one continuation. */
  lemma ReassembleOfTwo(b0: Byte, b1: Byte)
    ensures Reassemble([b0, b1]) == PushPayload((b0 as Ucs4) & LeadMask2, b1)
  {
    var a0 := (b0 as Ucs4) & LeadMask2;
    assert [b0, b1][1..] == [b1] && [b1][1..] == [];
    assert AppendPayloads(a0, [b1]) == AppendPayloads(PushPayload(a0, b1), []);
  }

  /** Reassembling any three bytes: the first byte's four payload bits, then two continuations. */
  lemma ReassembleOfThree(b0: Byte, b1: Byte, b2: Byte)
    ensures Reassemble([b0, b1, b2]) == PushPayload(PushPayload((b0 as Ucs4) & LeadMask3, b1), b2)
  {
    var a0 := (b0 as Ucs4) & LeadMask3;
    var a1 := PushPayload(a0, b1);
    assert [b0, b1, b2][1..] == [b1, b2] && [b1, b2][1..] == [b2] && [b2][1..] == [];
    assert AppendPayloads(a0, [b1, b2]) == AppendPayloads(a1, [b2]);
    assert AppendPayloads(a1, [b2]) == AppendPayloads(PushPayload(a1, b2), []);
  }

  /** Reassembling any four bytes: the first byte's three payload bits, then three continuations. */
  lemma ReassembleOfFour(b0: Byte, b1: Byte, b2: Byte, b3: Byte)
    ensures Reassemble([b0, b1, b2, b3]) ==
              PushPayload(PushPayload(PushPayload((b0 as Ucs4) & LeadMask4, b1), b2), b3)
  {
    var a0 := (b0 as Ucs4) & LeadMask4;
    var a1 := PushPayload(a0, b1);
    var a2 := PushPayload(a1, b2);
    assert [b0, b1, b2, b3][1..] == [b1, b2, b3] && [b1, b2, b3][1..] == [b2, b3];
    assert [b2, b3][1..] == [b3] && [b3][1..] == [];
    assert AppendPayloads(a0, [b1, b2, b3]) == AppendPayloads(a1, [b2, b3]);
    assert AppendPayloads(a1, [b2, b3]) == AppendPayloads(a2, [b3]);
    assert AppendPayloads(a2, [b3]) == AppendPayloads(PushPayload(a2, b3), []);
  }

  /** `ReassembleEncodeOne` for the two-byte range. */
  lemma ReassembleTwo(cp: Ucs4)
    requires MaxCodePoint1 < cp <= MaxCodePoint2
    ensures Reassemble(EncodeOne(cp)) == cp
  {
    var b0 := Trunc8(LeadBits2 | ((cp >> ContinuationPayloadBits) & LeadMask2));
    var b1 := Trunc8(ContinuationBits | (cp & ContinuationMask));
    assert EncodeOne(cp) == [b0, b1];
    ReassembleOfTwo(b0, b1);
    PayloadBitsTwo(cp);
  }

  /** The bit arithmetic behind `ReassembleTwo`, apart from the sequence bookkeeping. */
  lemma PayloadBitsTwo(cp: Ucs4)
    requires MaxCodePoint1 < cp <= MaxCodePoint2
    ensures var b0 := Trunc8(LeadBits2 | ((cp >> ContinuationPayloadBits) & LeadMask2));
            var b1 := Trunc8(ContinuationBits | (cp & ContinuationMask));
            PushPayload((b0 as Ucs4) & LeadMask2, b1) == cp
  {
  }

  /** `ReassembleEncodeOne` for the three-byte range. */
  lemma ReassembleThree(cp: Ucs4)
    requires MaxCodePoint2 < cp <= MaxCodePoint3
    ensures Reassemble(EncodeOne(cp)) == cp
  {
    var b0 := Trunc8(LeadBits3 | ((cp >> (ContinuationPayloadBits * 2)) & LeadMask3));
    var b1 := Trunc8(ContinuationBits | ((cp >> ContinuationPayloadBits) & ContinuationMask));
    var b2 := Trunc8(ContinuationBits | (cp & ContinuationMask));
    assert EncodeOne(cp) == [b0, b1, b2];
    ReassembleOfThree(b0, b1, b2);
    PayloadBitsThree(cp);
  }

  /** The bit arithmetic behind `ReassembleThree`, apart from the sequence bookkeeping. */
  lemma PayloadBitsThree(cp: Ucs4)
    requires MaxCodePoint2 < cp <= MaxCodePoint3
    ensures var b0 := Trunc8(LeadBits3 | ((cp >> (ContinuationPayloadBits * 2)) & LeadMask3));
            var b1 := Trunc8(ContinuationBits | ((cp >> ContinuationPayloadBits) & ContinuationMask));
            var b2 := Trunc8(ContinuationBits | (cp & ContinuationMask));
            PushPayload(PushPayload((b0 as Ucs4) & LeadMask3, b1), b2) == cp
  {
  }

  /** `ReassembleEncodeOne` for the four-byte range. */
  lemma ReassembleFour(cp: Ucs4)
    requires MaxCodePoint3 < cp <= MaxCodePoint4
    ensures Reassemble(EncodeOne(cp)) == cp
  {
    var b0 := Trunc8(LeadBits4 | ((cp >> (ContinuationPayloadBits * 3)) & LeadMask4));
    var b1 := Trunc8(ContinuationBits | ((cp >> (ContinuationPayloadBits * 2)) & ContinuationMask));
    var b2 := Trunc8(ContinuationBits | ((cp >> ContinuationPayloadBits) & ContinuationMask));
    var b3 := Trunc8(ContinuationBits | (cp & ContinuationMask));
    assert EncodeOne(cp) == [b0, b1, b2, b3];
    ReassembleOfFour(b0, b1, b2, b3);
    PayloadBitsFour(cp);
  }

  /** The bit arithmetic behind `ReassembleFour`, apart from the sequence bookkeeping. */
  lemma PayloadBitsFour(cp: Ucs4)
    requires MaxCodePoint3 < cp <= MaxCodePoint4
    ensures var b0 := Trunc8(LeadBits4 | ((cp >> (ContinuationPayloadBits * 3)) & LeadMask4));
            var b1 := Trunc8(ContinuationBits | ((cp >> (ContinuationPayloadBits * 2)) & ContinuationMask));
            var b2 := Trunc8(ContinuationBits | ((cp >> ContinuationPayloadBits) & ContinuationMask));
            var b3 := Trunc8(ContinuationBits | (cp & ContinuationMask));
            PushPayload(PushPayload(PushPayload((b0 as Ucs4) & LeadMask4, b1), b2), b3) == cp
  {
  }

  /** Distinct code points have distinct encodings. */
  lemma EncodeOneInjective(a: Ucs4, b: Ucs4)
    requires Encodable(a) && Encodable(b)
    ensures EncodeOne(a) == EncodeOne(b) ==> a == b
  {
    ReassembleEncodeOne(a);
    ReassembleEncodeOne(b);
  }

  /** Encoding distributes over concatenation. */
  lemma {:induction false} EncodeAllAppend(xs: seq<Ucs4>, ys: seq<Ucs4>)
    requires AllEncodable(xs) && AllEncodable(ys)
    ensures AllEncodable(xs + ys)
    ensures EncodeAll(xs + ys) == EncodeAll(xs) + EncodeAll(ys)
  {
    if xs == [] {
      assert xs + ys == ys;
    } else {
      assert (xs + ys)[1..] == xs[1..] + ys;
      EncodeAllAppend(xs[1..], ys);
    }
  }

  /** Encoding one more code point appends exactly its bytes. */
  lemma EncodeAllExtend(cps: seq<Ucs4>, i: nat)
    requires i < |cps|
    requires AllEncodable(cps[..i]) && Encodable(cps[i])
    ensures AllEncodable(cps[..i + 1])
    ensures EncodeAll(cps[..i + 1]) == EncodeAll(cps[..i]) + EncodeOne(cps[i])
  {
    assert cps[..i + 1] == cps[..i] + [cps[i]];
    assert EncodeAll([cps[i]]) == EncodeOne(cps[i]) + EncodeAll([]);
    EncodeAllAppend(cps[..i], [cps[i]]);
  }

  /** Splitting an encoding at the lengths its first bytes announce recovers the code points. */
  lemma {:induction false} ReassembleAllEncodeAll(cps: seq<Ucs4>)
    requires AllEncodable(cps)
    ensures ReassembleAll(EncodeAll(cps)) == Some(cps)
  {
    if cps != [] {
      var head := EncodeOne(cps[0]);
      var bs := EncodeAll(cps);
      assert bs == head + EncodeAll(cps[1..]);
      assert bs[..|head|] == head;
      assert bs[|head|..] == EncodeAll(cps[1..]);
      EncodeOneLayout(cps[0]);
      ReassembleAllEncodeAll(cps[1..]);
      ReassembleEncodeOne(cps[0]);
      assert [cps[0]] + cps[1..] == cps;
    }
  }

  /** Distinct sequences of code points have distinct encodings. */
  lemma EncodeAllInjective(xs: seq<Ucs4>, ys: seq<Ucs4>)
    requires AllEncodable(xs) && AllEncodable(ys)
    ensures EncodeAll(xs) == EncodeAll(ys) ==> xs == ys
  {
    ReassembleAllEncodeAll(xs);
    ReassembleAllEncodeAll(ys);
  }

  /** The worked examples of the range table. */
  lemma EncodeOneExamples()
    ensures EncodeOne(0x7F) == [0x7F]
    ensures EncodeOne(0x80) == [0xC2, 0x80]
    ensures EncodeOne(0x800) == [0xE0, 0xA0, 0x80]
    ensures EncodeOne(0x10000) == [0xF0, 0x90, 0x80, 0x80]
    ensures EncodeOne(0x1FFFFF) == [0xF7, 0xBF, 0xBF, 0xBF]
  {
  }
}
