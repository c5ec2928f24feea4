/** Fields of a packet: values written bit by bit, most significant bit first, at arbitrary bit positions. */
module BitPacking {
  import opened Powers
  import SignalCodec

  /** Bit k of a byte, counted from the most significant one. */
  function Mask(k: nat): bv8
    requires k < 8
  {
    match k
    case 0 => 0x80
    case 1 => 0x40
    case 2 => 0x20
    case 3 => 0x10
    case 4 => 0x08
    case 5 => 0x04
    case 6 => 0x02
    case _ => 0x01
  }

  predicate BitOf(b: bv8, k: nat)
    requires k < 8
  {
    b & Mask(k) != 0
  }

  function Digit(bit: bool): int { if bit then 1 else 0 }

  /** A byte as a number is the binary number of its bits, most significant one first. */
  lemma ByteIsBinary(b: bv8)
    ensures b as int ==
            128 * Digit(BitOf(b, 0)) + 64 * Digit(BitOf(b, 1)) + 32 * Digit(BitOf(b, 2)) + 16 * Digit(BitOf(b, 3)) +
            8 * Digit(BitOf(b, 4)) + 4 * Digit(BitOf(b, 5)) + 2 * Digit(BitOf(b, 6)) + Digit(BitOf(b, 7))
  {
  }

  /** Setting one bit of a byte sets that bit and no other. */
  lemma SetOneBit(b: bv8, k: nat, l: nat)
    requires k < 8 && l < 8
    ensures BitOf(b | Mask(k), l) <==> BitOf(b, l) || k == l
  {
  }

  /** The bits of a packet, in order. */
  function Bits(packet: seq<bv8>): (r: seq<bool>)
    ensures |r| == 8 * |packet|
    ensures forall q :: 0 <= q < |r| ==> (r[q] <==> BitOf(packet[q / 8], q % 8))
  {
    seq(8 * |packet|, q requires 0 <= q < 8 * |packet| => BitOf(packet[q / 8], q % 8))
  }

  /** Bit n of an integer in two's complement: its last bit after n shifts to the right. */
  predicate ValueBit(value: int, n: nat)
    decreases n
  {
    if n == 0 then value % 2 == 1 else ValueBit(value / 2, n - 1)
  }

  lemma QuotientOfHalf(value: int, p: int)
    requires p >= 1
    ensures (value / 2) / p == value / (2 * p)
  {
    var a, b := value / 2, value % 2;
    var q, r := a / p, a % p;
    assert value == 2 * (q * p + r) + b;
    assert 2 * (q * p) == q * (2 * p);
    ModUnique(value, 2 * p, q, 2 * r + b);
  }

  /** Bit n of an integer is its binary digit of weight 2^n. */
  lemma {:induction false} ValueBitIsDigit(value: int, n: nat)
    ensures Digit(ValueBit(value, n)) == (value / Pow2(n)) % 2
    decreases n
  {
    if n > 0 {
      ValueBitIsDigit(value / 2, n - 1);
      QuotientOfHalf(value, Pow2(n - 1));
    }
  }

  /** The field as an unsigned number, most significant bit first. */
  function Read(bits: seq<bool>, start: nat, length: nat): (r: int)
    requires start + length <= |bits|
    ensures 0 <= r
  {
    if length == 0 then 0
    else 2 * Read(bits, start, length - 1) + if bits[start + length - 1] then 1 else 0
  }

  lemma {:induction false} ReadNext(bits: seq<bool>, start: nat, length: nat, next: nat)
    requires next == length + 1 && start + next <= |bits|
    ensures Read(bits, start, next) == 2 * Read(bits, start, length) + Digit(bits[start + length])
  {
  }

  lemma ReadFour(s: seq<bool>, n: nat, next: nat, d0: int, d1: int, d2: int, d3: int)
    requires next == n + 4 <= |s|
    requires Digit(s[n]) == d0 && Digit(s[n + 1]) == d1 && Digit(s[n + 2]) == d2 && Digit(s[n + 3]) == d3
    ensures Read(s, 0, next) == 16 * Read(s, 0, n) + 8 * d0 + 4 * d1 + 2 * d2 + d3
  {
    ReadNext(s, 0, n, n + 1);
    ReadNext(s, 0, n + 1, n + 2);
    ReadNext(s, 0, n + 2, n + 3);
    ReadNext(s, 0, n + 3, next);
  }

  lemma {:induction false} ReadEight(s: seq<bool>, d0: int, d1: int, d2: int, d3: int,
                                     d4: int, d5: int, d6: int, d7: int)
    requires |s| == 8
    requires Digit(s[0]) == d0 && Digit(s[1]) == d1 && Digit(s[2]) == d2 && Digit(s[3]) == d3
    requires Digit(s[4]) == d4 && Digit(s[5]) == d5 && Digit(s[6]) == d6 && Digit(s[7]) == d7
    ensures Read(s, 0, 8) == 128 * d0 + 64 * d1 + 32 * d2 + 16 * d3 + 8 * d4 + 4 * d5 + 2 * d6 + d7
  {
    ReadFour(s, 0, 4, d0, d1, d2, d3);
    ReadFour(s, 4, 8, d4, d5, d6, d7);
    assert Read(s, 0, 0) == 0;
  }

  /** The bits of a byte, read most significant one first, are the number that the byte is. */
  lemma ByteIsRead(b: bv8)
    ensures Read(Bits([b]), 0, 8) == b as int
  {
    ReadEight(Bits([b]), Digit(BitOf(b, 0)), Digit(BitOf(b, 1)), Digit(BitOf(b, 2)), Digit(BitOf(b, 3)),
              Digit(BitOf(b, 4)), Digit(BitOf(b, 5)), Digit(BitOf(b, 6)), Digit(BitOf(b, 7)));
    ByteIsBinary(b);
  }

  /** The bits of what is read are the bits that were read. */
  lemma {:induction false} BitOfRead(bits: seq<bool>, start: nat, length: nat, k: nat)
    requires start + length <= |bits| && k < length
    ensures ValueBit(Read(bits, start, length), length - 1 - k) <==> bits[start + k]
    decreases length
  {
    var front := Read(bits, start, length - 1);
    assert Read(bits, start, length) == 2 * front + Digit(bits[start + length - 1]);
    if k < length - 1 {
      BitOfRead(bits, start, length - 1, k);
    }
  }

  /** Bit k of a byte is what remains of the number that the byte is after 7 - k shifts to the right. */
  lemma {:induction false} BitIsDigit(b: bv8, k: nat)
    requires k < 8
    ensures BitOf(b, k) <==> ValueBit(b as int, 7 - k)
  {
    ByteIsRead(b);
    BitOfRead(Bits([b]), 0, 8, k);
  }

  /** Bit q of a packet, by the numbers that its bytes are: `(byte >> (7 - q % 8)) & 1`. */
  predicate PacketBit(packet: seq<bv8>, q: int)
    requires 0 <= q < 8 * |packet|
  {
    ValueBit(packet[q / 8] as int, 7 - q % 8)
  }

  lemma PacketBitIsBit(packet: seq<bv8>, q: int)
    requires 0 <= q < 8 * |packet|
    ensures PacketBit(packet, q) <==> Bits(packet)[q]
  {
    BitIsDigit(packet[q / 8], q % 8);
  }

  /** Bit q of a packet is the binary digit of weight 2^(7 - q % 8) of byte q / 8. */
  lemma {:induction false} PacketBitIsDigit(packet: seq<bv8>, q: int)
    requires 0 <= q < 8 * |packet|
    ensures PacketBit(packet, q) <==> (packet[q / 8] as int / Pow2(7 - q % 8)) % 2 == 1
  {
    ValueBitIsDigit(packet[q / 8] as int, 7 - q % 8);
  }

  datatype Write = Write(value: int, start: nat, length: nat) {
    predicate Covers(q: int) { start <= q < start + length }

    predicate Sets(q: int) { Covers(q) && ValueBit(value, start + length - 1 - q) }
  }

  /** What a write leaves: the bits that were set, and the set bits of the value in its field. */
  function Written(bits: seq<bool>, w: Write): (r: seq<bool>)
    ensures |r| == |bits|
    ensures forall q :: 0 <= q < |r| ==> (r[q] <==> bits[q] || w.Sets(q))
  {
    seq(|bits|, q requires 0 <= q < |bits| => bits[q] || w.Sets(q))
  }

  /** Bit q of the field from `start` on is set if the value's digit for it is 1; all other bits stay. */
  ghost predicate IsWritten(before: seq<bv8>, after: seq<bv8>, value: int, start: nat, length: nat) {
    && |after| == |before|
    && forall q :: 0 <= q < 8 * |before| ==>
         (PacketBit(after, q) <==>
          PacketBit(before, q) || (start <= q < start + length && ValueBit(value, start + length - 1 - q)))
  }

  lemma WrittenBytes(before: seq<bv8>, after: seq<bv8>, value: int, start: nat, length: nat)
    requires |after| == |before| && Bits(after) == Written(Bits(before), Write(value, start, length))
    ensures IsWritten(before, after, value, start, length)
  {
    forall q | 0 <= q < 8 * |before|
      ensures PacketBit(after, q) <==>
              PacketBit(before, q) || (start <= q < start + length && ValueBit(value, start + length - 1 - q))
    {
      PacketBitIsBit(after, q);
      PacketBitIsBit(before, q);
    }
  }

  method SetBits(packet: array<bv8>, value: int, start: nat, length: nat)
    requires start + length <= 8 * packet.Length
    modifies packet
    ensures Bits(packet[..]) == Written(old(Bits(packet[..])), Write(value, start, length))
    ensures IsWritten(old(packet[..]), packet[..], value, start, length)
  {
    ghost var bytes := packet[..];
    ghost var before := Bits(packet[..]);
    var i := 0;
    while i < length
      invariant 0 <= i <= length
      invariant forall q :: 0 <= q < |before| ==>
        (Bits(packet[..])[q] <==> before[q] || (q < start + i && Write(value, start, length).Sets(q)))
    {
      var bit := ValueBit(value, length - 1 - i);
      var place := start + i;
      SetPacketBit(packet, place / 8, place % 8, bit);
      i := i + 1;
    }
    WrittenBytes(bytes, packet[..], value, start, length);
  }

  method SetPacketBit(packet: array<bv8>, byteIndex: nat, bitIndex: nat, bit: bool)
    requires byteIndex < packet.Length && bitIndex < 8
    modifies packet
    ensures forall q :: 0 <= q < 8 * packet.Length ==>
              (Bits(packet[..])[q] <==> old(Bits(packet[..]))[q] || (bit && q == 8 * byteIndex + bitIndex))
  {
    ghost var before := packet[..];
    packet[byteIndex] := packet[byteIndex] | if bit then Mask(bitIndex) else 0;
    forall q | 0 <= q < 8 * packet.Length
      ensures Bits(packet[..])[q] <==> Bits(before)[q] || (bit && q == 8 * byteIndex + bitIndex)
    {
      if q / 8 == byteIndex {
        SetOneBit(before[byteIndex], bitIndex, q % 8);
      }
    }
  }

  // ---------- reading fields back ----------

  lemma LowBits(value: int, p: int)
    requires p >= 1
    ensures value % (2 * p) == 2 * ((value / 2) % p) + value % 2
  {
    var a, b := value / 2, value % 2;
    var q, r := a / p, a % p;
    assert value == 2 * (q * p + r) + b;
    assert 2 * (q * p) == q * (2 * p);
    ModUnique(value, 2 * p, q, 2 * r + b);
  }

  /** A field that holds the low bits of a value reads as the value modulo 2^length. */
  lemma {:induction false} ReadIsLowBits(bits: seq<bool>, value: int, start: nat, length: nat)
    requires start + length <= |bits|
    requires forall q :: start <= q < start + length ==> (bits[q] <==> ValueBit(value, start + length - 1 - q))
    ensures Read(bits, start, length) == value % Pow2(length)
    decreases length
  {
    if length > 0 {
      ReadIsLowBits(bits, value / 2, start, length - 1);
      LowBits(value, Pow2(length - 1));
    }
  }

  // ---------- sequences of writes ----------

  function WriteAll(bits: seq<bool>, writes: seq<Write>): (r: seq<bool>)
    ensures |r| == |bits|
  {
    if writes == [] then bits
    else Written(WriteAll(bits, writes[..|writes| - 1]), writes[|writes| - 1])
  }

  lemma {:induction false} WriteAllBit(bits: seq<bool>, writes: seq<Write>, q: nat)
    requires q < |bits|
    ensures WriteAll(bits, writes)[q] <==> bits[q] || exists k :: 0 <= k < |writes| && writes[k].Sets(q)
  {
    if writes != [] {
      var n := |writes| - 1;
      WriteAllBit(bits, writes[..n], q);
      if k :| 0 <= k < |writes| && writes[k].Sets(q) && k != n {
        assert writes[..n][k].Sets(q);
      }
    }
  }

  /** The fields lie inside the packet and do not overlap. */
  ghost predicate Fields(writes: seq<Write>, size: nat) {
    && (forall k :: 0 <= k < |writes| ==> writes[k].start + writes[k].length <= size)
    && (forall k, l, q :: 0 <= k < l < |writes| && writes[k].Covers(q) ==> !writes[l].Covers(q))
  }

  function Zeros(size: nat): (r: seq<bool>)
    ensures |r| == size && forall q :: 0 <= q < size ==> !r[q]
  {
    seq(size, _ => false)
  }

  /**
   Any sequence of writes to fields that do not overlap can be read back: each field of a
   zeroed packet reads as the low bits of its value, and the bits outside the fields stay 0.
   */
  lemma {:induction false} FieldsReadBack(writes: seq<Write>, size: nat)
    requires Fields(writes, size)
    ensures var bits := WriteAll(Zeros(size), writes);
            && (forall k :: 0 <= k < |writes| ==>
                  Read(bits, writes[k].start, writes[k].length) == writes[k].value % Pow2(writes[k].length))
            && (forall q :: 0 <= q < size && (forall k :: 0 <= k < |writes| ==> !writes[k].Covers(q)) ==> !bits[q])
  {
    var bits := WriteAll(Zeros(size), writes);
    forall k | 0 <= k < |writes|
      ensures Read(bits, writes[k].start, writes[k].length) == writes[k].value % Pow2(writes[k].length)
    {
      FieldReadsBack(writes, size, k);
    }
    forall q | 0 <= q < size && forall k :: 0 <= k < |writes| ==> !writes[k].Covers(q)
      ensures !bits[q]
    {
      WriteAllBit(Zeros(size), writes, q);
    }
  }

  /** A bit of field k is set exactly when its own write sets it. */
  lemma {:induction false} FieldBit(writes: seq<Write>, size: nat, k: nat, q: nat)
    requires Fields(writes, size) && k < |writes| && writes[k].Covers(q) && q < size
    ensures WriteAll(Zeros(size), writes)[q] <==> ValueBit(writes[k].value, writes[k].start + writes[k].length - 1 - q)
  {
    WriteAllBit(Zeros(size), writes, q);
    assert forall l :: 0 <= l < |writes| && l != k ==> !writes[l].Covers(q);
    assert writes[k].Sets(q) <==> ValueBit(writes[k].value, writes[k].start + writes[k].length - 1 - q);
  }

  lemma {:induction false} FieldReadsBack(writes: seq<Write>, size: nat, k: nat)
    requires Fields(writes, size) && k < |writes|
    ensures Read(WriteAll(Zeros(size), writes), writes[k].start, writes[k].length) ==
            writes[k].value % Pow2(writes[k].length)
  {
    var w, bits := writes[k], WriteAll(Zeros(size), writes);
    forall q | w.start <= q < w.start + w.length
      ensures bits[q] <==> ValueBit(w.value, w.start + w.length - 1 - q)
    {
      FieldBit(writes, size, k, q);
    }
    ReadIsLowBits(bits, w.value, w.start, w.length);
  }

  // ---------- the bytes of a packet ----------

  /** The bits of a packet, by the numbers that its bytes are. */
  function PacketBits(packet: seq<bv8>): (r: seq<bool>)
    ensures |r| == 8 * |packet|
    ensures forall q :: 0 <= q < |r| ==> (r[q] <==> PacketBit(packet, q))
  {
    seq(8 * |packet|, q requires 0 <= q < 8 * |packet| => PacketBit(packet, q))
  }

  lemma PacketBitsAreBits(packet: seq<bv8>)
    ensures PacketBits(packet) == Bits(packet)
  {
    forall q | 0 <= q < 8 * |packet|
      ensures PacketBits(packet)[q] == Bits(packet)[q]
    {
      PacketBitIsBit(packet, q);
    }
  }

  lemma {:induction false} SameRead(bits: seq<bool>, start: nat, other: seq<bool>, from: nat, length: nat)
    requires start + length <= |bits| && from + length <= |other|
    requires bits[start..start + length] == other[from..from + length]
    ensures Read(bits, start, length) == Read(other, from, length)
    decreases length
  {
    if length > 0 {
      var s, t := bits[start..start + length], other[from..from + length];
      assert s[..length - 1] == bits[start..start + length - 1] && t[..length - 1] == other[from..from + length - 1];
      assert s[length - 1] == bits[start + length - 1] && t[length - 1] == other[from + length - 1];
      SameRead(bits, start, other, from, length - 1);
    }
  }

  lemma BitsOfByte(packet: seq<bv8>, b: nat)
    requires b < |packet|
    ensures Bits(packet)[8 * b..8 * b + 8] == Bits([packet[b]])[0..0 + 8]
  {
    forall k | 0 <= k < 8
      ensures Bits(packet)[8 * b..8 * b + 8][k] == Bits([packet[b]])[k]
    {
      assert (8 * b + k) / 8 == b && (8 * b + k) % 8 == k;
    }
  }

  /** A whole byte reads as the number that the byte is. */
  lemma {:induction false} ByteIsField(packet: seq<bv8>, b: nat)
    requires b < |packet|
    ensures Read(PacketBits(packet), 8 * b, 8) == packet[b] as int
  {
    PacketBitsAreBits(packet);
    ByteIsRead(packet[b]);
    BitsOfByte(packet, b);
    SameRead(Bits(packet), 8 * b, Bits([packet[b]]), 0, 8);
  }

  /** Bit q lies in no field. */
  ghost predicate IsOutside(writes: seq<Write>, q: int) {
    forall k :: 0 <= k < |writes| ==> !writes[k].Covers(q)
  }

  /**
   Writes fields that do not overlap into a new packet. On its bytes, each field reads back as the
   low bits of its value, and the bits outside the fields are 0.
   */
  method WriteFields(writes: seq<Write>, size: nat) returns (packet: array<bv8>)
    requires Fields(writes, 8 * size)
    ensures packet.Length == size
    ensures forall k :: 0 <= k < |writes| ==>
              Read(PacketBits(packet[..]), writes[k].start, writes[k].length) ==
              writes[k].value % Pow2(writes[k].length)
    ensures forall q :: 0 <= q < 8 * size && IsOutside(writes, q) ==> !PacketBit(packet[..], q)
  {
    packet := new bv8[size](_ => 0);
    NothingWritten(packet[..]);
    var n := 0;
    while n < |writes|
      invariant 0 <= n <= |writes| && packet.Length == size
      invariant Bits(packet[..]) == WriteAll(Zeros(8 * size), writes[..n])
    {
      assert writes[..n + 1][..n] == writes[..n];
      SetBits(packet, writes[n].value, writes[n].start, writes[n].length);
      n := n + 1;
    }
    assert writes[..n] == writes;
    FieldsOfBytes(packet[..], writes);
  }

  lemma NothingWritten(packet: seq<bv8>)
    requires forall b :: 0 <= b < |packet| ==> packet[b] == 0
    ensures Bits(packet) == Zeros(8 * |packet|)
  {
  }

  /** The fields that were written, on the bytes of the packet. */
  lemma {:induction false} FieldsOfBytes(packet: seq<bv8>, writes: seq<Write>)
    requires Fields(writes, 8 * |packet|) && Bits(packet) == WriteAll(Zeros(8 * |packet|), writes)
    ensures forall k :: 0 <= k < |writes| ==>
              Read(PacketBits(packet), writes[k].start, writes[k].length) == writes[k].value % Pow2(writes[k].length)
    ensures forall q :: 0 <= q < 8 * |packet| && IsOutside(writes, q) ==> !PacketBit(packet, q)
  {
    FieldsReadBack(writes, 8 * |packet|);
    PacketBitsAreBits(packet);
    forall q | 0 <= q < 8 * |packet| && IsOutside(writes, q)
      ensures !PacketBit(packet, q)
    {
      PacketBitIsBit(packet, q);
    }
  }

  // ---------- the truncating encoders ----------

  /** Cuts the fraction off, towards zero. */
  function Truncated(v: real): int {
    if v >= 0.0 then v.Floor else -(-v).Floor
  }

  function Saturated(n: int, lo: int, hi: int): int {
    if n < lo then lo else if n > hi then hi else n
  }

  /** The signed encoders of widths 10, 11 and 14, of a value already divided by its scale. */
  function TruncateSigned(v: real, bit: int): int
    requires 1 <= bit
  {
    var n := Saturated(Truncated(v), -Pow2(bit - 1), Pow2(bit - 1) - 1);
    if n < 0 then Pow2(bit) + n else n
  }

  lemma CodeOfTruncated(n: int, bit: int)
    requires 1 <= bit < 63 && -Pow2(bit - 1) <= n < Pow2(bit - 1)
    ensures (if n < 0 then Pow2(bit) + n else n) % Pow2(bit) == n % Pow2(bit) && 0 <= n % Pow2(bit)
  {
    SignalCodec.ModOfSigned(n, Pow2(bit));
    var code := if n < 0 then Pow2(bit) + n else n;
    ModUnique(code, Pow2(bit), 0, code);
  }

  /** A truncated code decodes to the saturated, truncated value. */
  lemma TruncatedDecodes(v: real, bit: int, code: int)
    requires 1 <= bit < 63 && code == TruncateSigned(v, bit) % Pow2(bit)
    ensures 0 <= code
    ensures SignalCodec.DecodeSigned(code, bit) ==
            SignalCodec.Value(Saturated(Truncated(v), -Pow2(bit - 1), Pow2(bit - 1) - 1))
  {
    var n := Saturated(Truncated(v), -Pow2(bit - 1), Pow2(bit - 1) - 1);
    CodeOfTruncated(n, bit);
    SignalCodec.DecodeOfSigned(n, bit);
  }

  /** n is v with the fraction cut off, or the nearest bound of the signed range. */
  ghost predicate IsCut(v: real, bit: int, n: int)
    requires 1 <= bit
  {
    var half := Pow2(bit - 1);
    if v >= half as real then n == half - 1
    else if v <= -half as real then n == -half
    else if v >= 0.0 then n as real <= v < (n + 1) as real
    else (n - 1) as real < v <= n as real
  }

  lemma SaturatedIsCut(v: real, bit: int)
    requires 1 <= bit
    ensures IsCut(v, bit, Saturated(Truncated(v), -Pow2(bit - 1), Pow2(bit - 1) - 1))
  {
  }

  /** A signed signal that is encoded, written into a field and read back decodes to its saturated, truncated value. */
  lemma {:induction false} SignedFieldRoundTrip(writes: seq<Write>, size: nat, k: nat, v: real, bit: int)
    requires Fields(writes, size) && k < |writes| && 1 <= bit < 63
    requires writes[k].length == bit && writes[k].value == TruncateSigned(v, bit)
    ensures var d := SignalCodec.DecodeSigned(Read(WriteAll(Zeros(size), writes), writes[k].start, bit), bit);
            d.Value? && IsCut(v, bit, d.n)
  {
    SaturatedIsCut(v, bit);
    FieldReadsBack(writes, size, k);
    TruncatedDecodes(v, bit, Read(WriteAll(Zeros(size), writes), writes[k].start, bit));
  }
}
