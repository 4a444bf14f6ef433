/** The per-character encoder `WriteChar`: the bytes one character value
    becomes in a declared encoding. */
module Writer {
  import opened Base
  import opened Formats
  import opened Reader

  /** The `FMT_UTF8` case of `WriteChar`, band by band as the source
      unrolls it. The lead byte takes the value's LOWEST bits and each
      continuation the next six bits upward (`Char >>= k` after each byte);
      values above 0x3FFFFFF get the six-byte lead but only four
      continuations, and values above 0x7FFFFFFF produce nothing. */
  function EncodeUtf8(v: u32): (r: seq<byte>)
    ensures r == [] <==> v > 0x7FFF_FFFF
    ensures v <= 0x7F ==> r == [v]
    ensures 0x7F < v <= 0x3FF_FFFF ==>
      && 2 <= |r| <= 5
      && LeadLength(r[0]) == |r|
      && BandLimit(|r| - 1) <= v < BandLimit(|r|)
    ensures 0x3FF_FFFF < v <= 0x7FFF_FFFF ==> |r| == 5 && LeadLength(r[0]) == 6
    ensures forall i :: 1 <= i < |r| ==> 0x80 <= r[i] < 0xC0
  {
    if v <= 0x7F then
      [v]
    else if v <= 0x7FF then
      [0xC0 + v % 0x20,
       0x80 + v / 0x20 % 0x40]
    else if v <= 0xFFFF then
      [0xE0 + v % 0x10,
       0x80 + v / 0x10 % 0x40,
       0x80 + v / 0x400 % 0x40]
    else if v <= 0x1F_FFFF then
      [0xF0 + v % 0x08,
       0x80 + v / 0x08 % 0x40,
       0x80 + v / 0x200 % 0x40,
       0x80 + v / 0x8000 % 0x40]
    else if v <= 0x3FF_FFFF then
      [0xF8 + v % 0x04,
       0x80 + v / 0x04 % 0x40,
       0x80 + v / 0x100 % 0x40,
       0x80 + v / 0x4000 % 0x40,
       0x80 + v / 0x10_0000 % 0x40]
    else if v <= 0x7FFF_FFFF then
      [0xFC + v % 0x02,
       0x80 + v / 0x02 % 0x40,
       0x80 + v / 0x80 % 0x40,
       0x80 + v / 0x2000 % 0x40,
       0x80 + v / 0x8_0000 % 0x40]
    else
      []
  }

  /** Six-bit payloads of continuation bytes read least significant group
      first: the order in which `EncodeUtf8` lays them out. */
  function LowFirstRadix64(s: seq<byte>): nat
  {
    if |s| == 0 then 0 else Payload(s[0]) + 0x40 * LowFirstRadix64(s[1..])
  }

  /** Reads back a sequence in the encoder's own layout: lead data bits
      lowest, then the continuations upward. */
  function LowFirstValue(s: seq<byte>): nat
    requires |s| >= 1 && LeadLength(s[0]) >= 1
  {
    var n := LeadLength(s[0]);
    LeadData(s[0], n) + LeadRadix(n) * LowFirstRadix64(s[1..])
  }

  /** The encoder loses nothing up to 0x3FFFFFF: reading its output in its
      own bit order gives the value back. In the top band only bits 0..24
      survive; bits 25..30 are dropped. */
  lemma EncodeUtf8LowFirstInverse(v: u32)
    requires 0x7F < v <= 0x7FFF_FFFF
    ensures v <= 0x3FF_FFFF ==> LowFirstValue(EncodeUtf8(v)) == v
    ensures v > 0x3FF_FFFF ==> LowFirstValue(EncodeUtf8(v)) == v % 0x200_0000
  {
    var t := EncodeUtf8(v)[1..];
    if v <= 0x7FF {
      assert LowFirstRadix64(t) == Payload(t[0]) + 0x40 * LowFirstRadix64(t[1..]);
    } else if v <= 0xFFFF {
      LowFirstThreeBytes(v);
    } else if v <= 0x1F_FFFF {
      LowFirstFourBytes(v);
    } else {
      LowFirstFiveBytes(v);
    }
  }

  lemma LowFirstThreeBytes(v: u32)
    requires 0x7FF < v <= 0xFFFF
    ensures LowFirstValue(EncodeUtf8(v)) == v
  {
    var t := EncodeUtf8(v)[1..];
    assert LowFirstRadix64(t[1..]) == Payload(t[1]);
    assert LowFirstRadix64(t) == Payload(t[0]) + 0x40 * Payload(t[1]);
    var q := v / 0x10;
    assert v / 0x400 == q / 0x40;
  }

  lemma LowFirstFourBytes(v: u32)
    requires 0xFFFF < v <= 0x1F_FFFF
    ensures LowFirstValue(EncodeUtf8(v)) == v
  {
    var r := EncodeUtf8(v);
    var a, b, c := v / 0x08 % 0x40, v / 0x200 % 0x40, v / 0x8000 % 0x40;
    assert r[1..] == [0x80 + a, 0x80 + b, 0x80 + c];
    assert LeadData(r[0], 4) == v % 0x08;
    ThreeGroupsLowFirst(r[1..], a, b, c);
    FourBandDigits(v);
  }

  lemma ThreeGroupsLowFirst(t: seq<byte>, a: nat, b: nat, c: nat)
    requires a < 0x40 && b < 0x40 && c < 0x40
    requires t == [0x80 + a, 0x80 + b, 0x80 + c]
    ensures LowFirstRadix64(t) == a + 0x40 * (b + 0x40 * c)
  {
    assert t[1..][1..] == [0x80 + c] && t[1..][1..][1..] == [];
    assert LowFirstRadix64(t[1..][1..]) == c;
    assert LowFirstRadix64(t[1..]) == b + 0x40 * c;
  }

  /** The lead's three bits and three six-bit groups above them make up
      a value below 2^21. */
  lemma FourBandDigits(v: nat)
    requires v <= 0x1F_FFFF
    ensures v % 0x08 + 0x08 * (v / 0x08 % 0x40 + 0x40 * (v / 0x200 % 0x40
      + 0x40 * (v / 0x8000 % 0x40))) == v
  {
    var q := v / 0x08;
    var q1 := q / 0x40;
    var q2 := q1 / 0x40;
    assert q == 0x40 * q1 + q % 0x40;
    assert q1 == 0x40 * q2 + q1 % 0x40;
    assert v == 0x08 * q + v % 0x08;
    assert v / 0x200 == q1;
    assert v / 0x8000 == q2;
  }

  lemma LowFirstFiveBytes(v: u32)
    requires 0x1F_FFFF < v <= 0x7FFF_FFFF
    ensures v <= 0x3FF_FFFF ==> LowFirstValue(EncodeUtf8(v)) == v
    ensures v > 0x3FF_FFFF ==> LowFirstValue(EncodeUtf8(v)) == v % 0x200_0000
  {
    if v <= 0x3FF_FFFF {
      LowFirstFiveBand(v);
    } else {
      LowFirstTopBand(v);
    }
  }

  lemma LowFirstFiveBand(v: u32)
    requires 0x1F_FFFF < v <= 0x3FF_FFFF
    ensures LowFirstValue(EncodeUtf8(v)) == v
  {
    var r := EncodeUtf8(v);
    var q := v / 0x04;
    FiveBandBytes(v);
    FourGroupsLowFirst(r[1..], q);
    assert LowFirstValue(r) == v % 0x04 + 0x04 * (q % 0x100_0000);
    assert q < 0x100_0000 && q % 0x100_0000 == q;
    assert v == 0x04 * q + v % 0x04;
  }

  /** Four continuation bytes holding the six-bit groups of `q`, lowest
      first, read back in that order as the low 24 bits of `q`. */
  lemma FourGroupsLowFirst(t: seq<byte>, q: nat)
    requires t == [0x80 + q % 0x40, 0x80 + q / 0x40 % 0x40, 0x80 + q / 0x1000 % 0x40,
                   0x80 + q / 0x4_0000 % 0x40]
    ensures LowFirstRadix64(t) == q % 0x100_0000
  {
    assert Payload(t[0]) == q % 0x40;
    assert Payload(t[1]) == q / 0x40 % 0x40;
    assert Payload(t[2]) == q / 0x1000 % 0x40;
    assert Payload(t[3]) == q / 0x4_0000 % 0x40;
    FourContinuations(t);
    Radix64Digits4(q);
  }

  lemma FiveBandBytes(v: u32)
    requires 0x1F_FFFF < v <= 0x3FF_FFFF
    ensures LeadLength(EncodeUtf8(v)[0]) == 5
    ensures LeadData(EncodeUtf8(v)[0], 5) == v % 0x04
    ensures EncodeUtf8(v)[1..] == [0x80 + v / 0x04 % 0x40, 0x80 + v / 0x04 / 0x40 % 0x40,
      0x80 + v / 0x04 / 0x1000 % 0x40, 0x80 + v / 0x04 / 0x4_0000 % 0x40]
  {
    ShiftedGroups(v, 0x04);
  }

  lemma LowFirstTopBand(v: u32)
    requires 0x3FF_FFFF < v <= 0x7FFF_FFFF
    ensures LowFirstValue(EncodeUtf8(v)) == v % 0x200_0000
  {
    var r := EncodeUtf8(v);
    var q := v / 0x02;
    TopBandBytes(v);
    FourGroupsLowFirst(r[1..], q);
    assert LowFirstValue(r) == v % 0x02 + 0x02 * (q % 0x100_0000);
    HalvedLowBits(v);
  }

  lemma TopBandBytes(v: u32)
    requires 0x3FF_FFFF < v <= 0x7FFF_FFFF
    ensures LeadLength(EncodeUtf8(v)[0]) == 6
    ensures LeadData(EncodeUtf8(v)[0], 6) == v % 0x02
    ensures EncodeUtf8(v)[1..] == [0x80 + v / 0x02 % 0x40, 0x80 + v / 0x02 / 0x40 % 0x40,
      0x80 + v / 0x02 / 0x1000 % 0x40, 0x80 + v / 0x02 / 0x4_0000 % 0x40]
  {
    ShiftedGroups(v, 0x02);
  }

  /** Shifting by `m` and then by multiples of six is shifting by the sum. */
  lemma ShiftedGroups(v: nat, m: nat)
    requires m == 0x02 || m == 0x04
    ensures v / (m * 0x40) == v / m / 0x40
    ensures v / (m * 0x1000) == v / m / 0x1000
    ensures v / (m * 0x4_0000) == v / m / 0x4_0000
  {
    var q := v / m;
    assert v == m * q + v % m;
    var a, b, c := q / 0x40, q / 0x1000, q / 0x4_0000;
    assert q == 0x40 * a + q % 0x40;
    assert q == 0x1000 * b + q % 0x1000;
    assert q == 0x4_0000 * c + q % 0x4_0000;
    if m == 0x02 {
      assert v == 0x80 * a + (0x02 * (q % 0x40) + v % m);
      assert v == 0x2000 * b + (0x02 * (q % 0x1000) + v % m);
      assert v == 0x8_0000 * c + (0x02 * (q % 0x4_0000) + v % m);
    } else {
      assert v == 0x100 * a + (0x04 * (q % 0x40) + v % m);
      assert v == 0x4000 * b + (0x04 * (q % 0x1000) + v % m);
      assert v == 0x10_0000 * c + (0x04 * (q % 0x4_0000) + v % m);
    }
  }

  /** The low bit of `v` and the low 24 bits of `v / 2` are its low 25 bits. */
  lemma HalvedLowBits(v: nat)
    ensures v % 0x02 + 0x02 * (v / 0x02 % 0x100_0000) == v % 0x200_0000
  {
    var q := v / 0x02;
    var k := q / 0x100_0000;
    assert v == 0x02 * q + v % 0x02;
    assert q == 0x100_0000 * k + q % 0x100_0000;
    assert v == 0x200_0000 * k + (v % 0x02 + 0x02 * (q % 0x100_0000));
  }

  lemma FourContinuations(t: seq<byte>)
    requires |t| == 4
    ensures LowFirstRadix64(t) == Payload(t[0]) + 0x40 * (Payload(t[1]) + 0x40 * (Payload(t[2])
      + 0x40 * Payload(t[3])))
  {
    assert LowFirstRadix64(t[3..]) == Payload(t[3]);
    assert LowFirstRadix64(t[2..]) == Payload(t[2]) + 0x40 * LowFirstRadix64(t[3..]);
    assert LowFirstRadix64(t[1..]) == Payload(t[1]) + 0x40 * LowFirstRadix64(t[2..]);
  }

  /** Four six-bit groups of `q`, lowest first, make up its low 24 bits. */
  lemma Radix64Digits4(q: nat)
    ensures q % 0x40 + 0x40 * (q / 0x40 % 0x40 + 0x40 * (q / 0x1000 % 0x40
      + 0x40 * (q / 0x4_0000 % 0x40))) == q % 0x100_0000
  {
    var q1 := q / 0x40;
    var q2 := q1 / 0x40;
    var q3 := q2 / 0x40;
    var q4 := q3 / 0x40;
    var r0, r1, r2, r3 := q % 0x40, q1 % 0x40, q2 % 0x40, q3 % 0x40;
    assert q == 0x40 * q1 + r0;
    assert q1 == 0x40 * q2 + r1;
    assert q2 == 0x40 * q3 + r2;
    assert q3 == 0x40 * q4 + r3;
    assert q == 0x1000 * q2 + (0x40 * r1 + r0);
    assert q / 0x1000 == q2;
    assert q == 0x4_0000 * q3 + (0x1000 * r2 + 0x40 * r1 + r0);
    assert q / 0x4_0000 == q3;
    assert q == 0x100_0000 * q4 + (0x4_0000 * r3 + 0x1000 * r2 + 0x40 * r1 + r0);
  }

  /** `WriteChar`: `None` is the source's `false` for an encoding it has no
      case for. Write failures of the output stream are not modelled. */
  function WriteChar(fmt: Format, v: u32): (r: Option<seq<byte>>)
    ensures r.Some? <==> IsTextFormat(fmt)
    ensures fmt == Ansi ==> |r.value| == 1
    ensures fmt == Utf16 || fmt == Utf16BE ==> |r.value| == 2
    ensures fmt == Utf8 ==> |r.value| <= 5
  {
    match fmt
    case Ansi => Some([v % 0x100])
    case Utf8 => Some(EncodeUtf8(v))
    case Utf16 => Some([v % 0x100, v / 0x100 % 0x100])
    case Utf16BE => Some([v / 0x100 % 0x100, v % 0x100])
    case _ => None
  }

  /** The two UTF-16 writers emit the same two bytes in opposite orders. */
  lemma Utf16ByteOrders(v: u32)
    ensures WriteChar(Utf16BE, v).value == [WriteChar(Utf16, v).value[1], WriteChar(Utf16, v).value[0]]
  {
  }
}
