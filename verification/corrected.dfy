/** Corrected definitions for the three places where the converter does
    not do what it evidently means to: the UTF-8 encoder puts the highest
    bits in the lead byte and gives the top band six bytes, and a last line
    without a line feed is still copied. The program model in `Convert`
    keeps the behaviour as written; this module states the intended one
    and proves the round trip it was meant to complete. */
module Corrected {
  import opened Base
  import opened Formats
  import opened Reader
  import opened Writer
  import opened Bom
  import opened Lines

  /** The fixed high bits of the lead byte of an `n`-byte sequence. */
  function LeadPrefix(n: nat): (p: byte)
    requires 1 <= n <= 6
  {
    match n
    case 1 => 0x00
    case 2 => 0xC0
    case 3 => 0xE0
    case 4 => 0xF0
    case 5 => 0xF8
    case 6 => 0xFC
  }

  /** The number of bytes the encoder's band tests choose for `v`
      (`Char <= 0x7F`, `<= 0x7FF`, ... `<= 0x7FFFFFFF`). */
  function BandOf(v: nat): (n: nat)
    requires v < 0x8000_0000
    ensures 1 <= n <= 6
    ensures v < BandLimit(n)
    ensures n >= 2 ==> BandLimit(n - 1) <= v
  {
    if v < 0x80 then 1
    else if v < 0x800 then 2
    else if v < 0x1_0000 then 3
    else if v < 0x20_0000 then 4
    else if v < 0x400_0000 then 5
    else 6
  }

  /** `v` with its lowest `k` six-bit groups shifted out (`v >> 6k`). */
  function Shift64(v: nat, k: nat): nat
  {
    if k == 0 then v else Shift64(v / 0x40, k - 1)
  }

  /** The lowest `k` six-bit groups of `v` as continuation bytes, highest
      group first. */
  function HighFirstGroups(v: nat, k: nat): (s: seq<byte>)
    ensures |s| == k
    ensures forall i :: 0 <= i < k ==> 0x80 <= s[i] < 0xC0
  {
    if k == 0 then [] else HighFirstGroups(v / 0x40, k - 1) + [0x80 + v % 0x40]
  }

  /** One group's weight, one place further up. */
  lemma ScaleBy64(d: nat, p: nat)
    ensures d * (0x40 * p) == (d * p) * 0x40
  {
  }

  lemma {:induction false} Radix64Append(s: seq<byte>, b: byte)
    ensures Radix64(s + [b]) == Radix64(s) * 0x40 + Payload(b)
    decreases |s|
  {
    if |s| > 0 {
      var t := s + [b];
      assert t[0] == s[0] && t[1..] == s[1..] + [b];
      Radix64Append(s[1..], b);
      var d, p, q := Payload(s[0]), Pow64(|s| - 1), Radix64(s[1..]);
      assert Radix64(t) == d * Pow64(|s|) + (q * 0x40 + Payload(b));
      assert Radix64(s) == d * p + q;
      ScaleBy64(d, p);
    } else {
      assert s + [b] == [b];
    }
  }

  /** Shifting out `k` groups and reading them back as continuation bytes
      splits `v` exactly: `v == (v >> 6k) * 64^k + low groups`. */
  lemma {:induction false} GroupsSplit(v: nat, k: nat)
    ensures Shift64(v, k) * Pow64(k) + Radix64(HighFirstGroups(v, k)) == v
  {
    if k > 0 {
      var q := v / 0x40;
      GroupsSplit(q, k - 1);
      var g := HighFirstGroups(q, k - 1);
      Radix64Append(g, 0x80 + v % 0x40);
      PayloadOfContinuation(v % 0x40);
      SplitStep(v, Shift64(q, k - 1), Pow64(k - 1), Radix64(g));
    }
  }

  /** One step of `GroupsSplit`: `v / 64` split at weight `P` gives `v`
      split at weight `64 * P`. */
  lemma SplitStep(v: nat, S: nat, P: nat, R: nat)
    requires S * P + R == v / 0x40
    ensures S * (0x40 * P) + (R * 0x40 + v % 0x40) == v
  {
    assert S * (0x40 * P) == (S * P) * 0x40;
  }

  lemma PayloadOfContinuation(d: nat)
    requires d < 0x40
    ensures Payload(0x80 + d) == d
  {
  }

  /** Shifting out `k` groups of a value below `m * 64^k` leaves less than `m`. */
  lemma {:induction false} ShiftBelow(v: nat, m: nat, k: nat)
    requires v < m * Pow64(k)
    ensures Shift64(v, k) < m
  {
    if k > 0 {
      var P := Pow64(k - 1);
      assert m * Pow64(k) == 0x40 * (m * P);
      ShiftBelow(v / 0x40, m, k - 1);
    }
  }

  lemma BandLimitSplits(n: nat)
    requires 1 <= n <= 6
    ensures BandLimit(n) == LeadRadix(n) * Pow64(n - 1)
  {
    assert Pow64(1) == 0x40;
    assert Pow64(2) == 0x1000;
    assert Pow64(3) == 0x4_0000;
    assert Pow64(4) == 0x100_0000;
    assert Pow64(5) == 0x4000_0000;
  }

  /** A lead byte built from the prefix and data bits announces its length
      and gives its data bits back. */
  lemma LeadByte(n: nat, q: nat)
    requires 1 <= n <= 6 && q < LeadRadix(n)
    ensures LeadPrefix(n) + q < 0x100
    ensures LeadLength(LeadPrefix(n) + q) == n
    ensures LeadData(LeadPrefix(n) + q, n) == q
  {
  }

  /** The RFC 2279 layout: lead byte with the highest bits,
      then the continuation groups from high to low, six bytes for the top
      band. Nothing is written above 0x7FFFFFFF, as in the source. */
  function EncodeUtf8Intended(v: u32): (r: seq<byte>)
    ensures r == [] <==> v > 0x7FFF_FFFF
    ensures r != [] ==>
      && |r| == BandOf(v)
      && LeadLength(r[0]) == |r|
      && Utf8Value(r) == v
    ensures forall i :: 1 <= i < |r| ==> 0x80 <= r[i] < 0xC0
  {
    if v > 0x7FFF_FFFF then []
    else
      var n := BandOf(v);
      BandLimitSplits(n);
      ShiftBelow(v, LeadRadix(n), n - 1);
      var q := Shift64(v, n - 1);
      LeadByte(n, q);
      var g := HighFirstGroups(v, n - 1);
      var r := [LeadPrefix(n) + q] + g;
      assert r[1..] == g;
      GroupsSplit(v, n - 1);
      r
  }

  /** The corrected encoder completes the round trip the decoder expects:
      every value up to 0x7FFFFFFF reads back as itself, consuming exactly
      the bytes written, whatever follows them. */
  lemma {:induction false} IntendedUtf8RoundTrip(v: u32, rest: seq<byte>)
    requires v <= 0x7FFF_FFFF
    ensures ReadChar(EncodeUtf8Intended(v) + rest, 0, Utf8)
      == Some(Decoded(v, |EncodeUtf8Intended(v)|))
  {
    var e := EncodeUtf8Intended(v);
    assert (e + rest)[0] == e[0];
    assert (e + rest)[0..|e|] == e;
    ReadUtf8Decodes(e + rest, 0);
  }

  /** The corrected encoder keeps the as-written one's byte counts up to
      0x3FFFFFF and writes ASCII the same way. */
  lemma IntendedKeepsLengths(v: u32)
    requires v <= 0x3FF_FFFF
    ensures |EncodeUtf8Intended(v)| == |EncodeUtf8(v)|
    ensures v <= 0x7F ==> EncodeUtf8Intended(v) == EncodeUtf8(v)
  {
    if v <= 0x7F {
      assert Pow64(0) == 1;
    }
  }

  /** `WriteChar` with the corrected UTF-8 encoder; the other encodings
      are unchanged. */
  function WriteCharIntended(fmt: Format, v: u32): (r: Option<seq<byte>>)
    ensures r.Some? <==> IsTextFormat(fmt)
    ensures fmt != Utf8 ==> r == WriteChar(fmt, v)
  {
    if fmt == Utf8 then Some(EncodeUtf8Intended(v)) else WriteChar(fmt, v)
  }

  /** `WriteLine` over the corrected `WriteChar`. */
  function WriteLineIntended(fmt: Format, line: seq<u32>): (r: Option<seq<byte>>)
    ensures r.Some? <==> |line| == 0 || IsTextFormat(fmt)
    ensures fmt != Utf8 ==> r == WriteLine(fmt, line)
  {
    if |line| == 0 then Some([])
    else
      match WriteCharIntended(fmt, line[0])
      case None => None
      case Some(b) =>
        match WriteLineIntended(fmt, line[1..])
        case None => None
        case Some(rest) => Some(b + rest)
  }

  /** The result of a read, moved `offset` bytes further into the input. */
  function Moved(r: Option<Decoded>, offset: nat): Option<Decoded>
  {
    match r
    case None => None
    case Some(d) => Some(Decoded(d.value, offset + d.next))
  }

  /** `t` is `s` with `k` bytes in front of it. */
  ghost predicate Behind(t: seq<byte>, k: nat, s: seq<byte>)
  {
    k + |s| == |t| && t[k..] == s
  }

  /** The UTF-8 read of `ReadCharShiftBehind`. */
  lemma Utf8ShiftBehind(t: seq<byte>, k: nat, s: seq<byte>, pos: nat)
    requires Behind(t, k, s)
    ensures ReadUtf8(t, k + pos) == Moved(ReadUtf8(s, pos), k)
  {
    var a, b := ReadUtf8(t, k + pos), ReadUtf8(s, pos);
    if pos < |s| {
      assert s[pos] == t[k..][pos] == t[k + pos];
      var n := LeadLength(s[pos]);
      if n != 0 && pos + n <= |s| {
        assert s[pos..pos + n] == t[k..][pos..pos + n] == t[k + pos..k + pos + n];
        ReadUtf8Decodes(t, k + pos);
        ReadUtf8Decodes(s, pos);
        assert a.value.value == b.value.value && a.value.next == k + b.value.next;
      }
    }
  }

  /** A read that starts `k` bytes into `t` gives what the same read gives
      on `s`, the bytes after those `k`, offset by `k`. */
  lemma ReadCharShiftBehind(t: seq<byte>, k: nat, s: seq<byte>, pos: nat, fmt: Format)
    requires Behind(t, k, s)
    ensures ReadChar(t, k + pos, fmt) == Moved(ReadChar(s, pos, fmt), k)
  {
    match fmt
    case Utf8 => Utf8ShiftBehind(t, k, s, pos);
    case Ansi =>
      if pos < |s| {
        assert t[k + pos] == s[pos];
      }
    case Utf16 =>
      if pos + 2 <= |s| {
        assert t[k + pos] == s[pos] && t[k + pos + 1] == s[pos + 1];
      }
    case Utf16BE =>
      if pos + 2 <= |s| {
        assert t[k + pos] == s[pos] && t[k + pos + 1] == s[pos + 1];
      }
    case _ =>
  }

  /** The characters decoded after `k` bytes of `t` do not depend on
      those bytes. */
  lemma {:induction false} DecodeAllShiftBehind(t: seq<byte>, k: nat, s: seq<byte>, pos: nat, fmt: Format)
    requires Behind(t, k, s)
    ensures DecodeAll(t, k + pos, fmt) == DecodeAll(s, pos, fmt)
    decreases |s| - pos
  {
    ReadCharShiftBehind(t, k, s, pos, fmt);
    match ReadChar(s, pos, fmt)
    case None =>
    case Some(d) =>
      DecodeAllShiftBehind(t, k, s, d.next, fmt);
  }

  /** Text written with the corrected UTF-8 encoder decodes back to the
      characters written. */
  lemma {:induction false} IntendedTextDecodes(line: seq<u32>)
    requires forall i :: 0 <= i < |line| ==> line[i] <= 0x7FFF_FFFF
    ensures DecodeAll(WriteLineIntended(Utf8, line).value, 0, Utf8) == line
    decreases |line|
  {
    if |line| > 0 {
      var e := EncodeUtf8Intended(line[0]);
      var w := WriteLineIntended(Utf8, line[1..]).value;
      assert WriteLineIntended(Utf8, line).value == e + w;
      IntendedTextDecodes(line[1..]);
      DecodeFirstThenRest(e, w, line[0]);
    }
  }

  /** Decoding a character written by the corrected encoder and then the
      bytes after it. */
  lemma DecodeFirstThenRest(e: seq<byte>, w: seq<byte>, v: u32)
    requires v <= 0x7FFF_FFFF && e == EncodeUtf8Intended(v)
    ensures DecodeAll(e + w, 0, Utf8) == [v] + DecodeAll(w, 0, Utf8)
  {
    IntendedUtf8RoundTrip(v, w);
    assert (e + w)[|e|..] == w;
    DecodeAllShiftBehind(e + w, |e|, w, 0, Utf8);
    assert |e| + 0 == |e|;
  }

  /** A character other than a line feed put in front of a line keeps the
      line's only line feed at its end. */
  lemma LineConsKeepsShape(c: u32, line: seq<u32>)
    requires c != LF && |line| >= 1
    requires forall i :: 0 <= i < |line| - 1 ==> line[i] != LF
    ensures var t := [c] + line;
      && t[|t| - 1] == line[|line| - 1]
      && forall i :: 0 <= i < |t| - 1 ==> t[i] != LF
  {
    var t := [c] + line;
    forall i | 0 <= i < |t| - 1
      ensures t[i] != LF
    {
      if i > 0 { assert t[i] == line[i - 1]; }
    }
  }

  /** `ReadLine` as intended: a read that fails after characters were
      collected still yields them as a last, unterminated line, ending
      where the failed read started. */
  function ReadLineIntended(input: seq<byte>, pos: nat, fmt: Format): (r: Option<LineRead>)
    ensures r.Some? <==> ReadChar(input, pos, fmt).Some?
    ensures r.Some? ==> pos < r.value.next <= |input|
    ensures r.Some? ==>
      && |r.value.line| >= 1
      && (forall i :: 0 <= i < |r.value.line| - 1 ==> r.value.line[i] != LF)
      && (r.value.line[|r.value.line| - 1] == LF || ReadChar(input, r.value.next, fmt).None?)
    decreases |input| - pos
  {
    match ReadChar(input, pos, fmt)
    case None => None
    case Some(d) =>
      if d.value == LF then Some(LineRead([LF], d.next))
      else
        match ReadLineIntended(input, d.next, fmt)
        case None => Some(LineRead([d.value], d.next))
        case Some(l) =>
          var line := [d.value] + l.line;
          LineConsKeepsShape(d.value, l.line);
          Some(LineRead(line, l.next))
  }

  /** The intended line is the decoded characters up to the first line
      feed, or all of them when no line feed comes; there is one exactly
      when a character can be decoded. */
  lemma {:induction false} ReadLineIntendedTakesLine(input: seq<byte>, pos: nat, fmt: Format)
    ensures ReadLineIntended(input, pos, fmt).Some? <==> DecodeAll(input, pos, fmt) != []
    ensures ReadLineIntended(input, pos, fmt).Some? ==>
      var l := ReadLineIntended(input, pos, fmt).value;
      && DecodeAll(input, pos, fmt) == l.line + DecodeAll(input, l.next, fmt)
      && (l.line[|l.line| - 1] == LF || DecodeAll(input, l.next, fmt) == [])
  {
    if ReadLineIntended(input, pos, fmt).Some? {
      var l := ReadLineIntended(input, pos, fmt).value;
      ReadLineIntendedSplits(input, pos, fmt);
      if l.line[|l.line| - 1] != LF {
        assert ReadChar(input, l.next, fmt).None?;
      }
    }
  }

  lemma {:induction false} ReadLineIntendedSplits(input: seq<byte>, pos: nat, fmt: Format)
    requires ReadLineIntended(input, pos, fmt).Some?
    ensures DecodeAll(input, pos, fmt)
      == ReadLineIntended(input, pos, fmt).value.line
         + DecodeAll(input, ReadLineIntended(input, pos, fmt).value.next, fmt)
    decreases |input| - pos
  {
    match ReadChar(input, pos, fmt)
    case Some(d) =>
      if d.value != LF {
        match ReadLineIntended(input, d.next, fmt)
        case None =>
        case Some(l) =>
          ReadLineIntendedSplits(input, d.next, fmt);
          Associative([d.value], l.line, DecodeAll(input, l.next, fmt));
      }
  }

  /** Every line the corrected `ReadLine` yields, one after the other. */
  function ReadAllIntended(input: seq<byte>, pos: nat, fmt: Format): seq<u32>
    decreases |input| - pos
  {
    match ReadLineIntended(input, pos, fmt)
    case None => []
    case Some(l) => l.line + ReadAllIntended(input, l.next, fmt)
  }

  /** With the corrected `ReadLine`, the copy loop loses nothing: the lines
      read add up to every character decoded. */
  lemma {:induction false} ReadAllIntendedIsDecodeAll(input: seq<byte>, pos: nat, fmt: Format)
    ensures ReadAllIntended(input, pos, fmt) == DecodeAll(input, pos, fmt)
    decreases |input| - pos
  {
    ReadLineIntendedTakesLine(input, pos, fmt);
    match ReadLineIntended(input, pos, fmt)
    case None =>
    case Some(l) =>
      ReadAllIntendedIsDecodeAll(input, l.next, fmt);
  }

  /** The run of `main` with both corrections: the output mark, then every
      line the corrected `ReadLine` yields through the corrected writer. */
  function TranscodeIntended(input: seq<byte>, inFmt: Format, outFmt: Format): (r: Option<seq<byte>>)
    requires |input| > 0
    ensures r.Some? ==> WriteBOM(outFmt) <= r.value
  {
    var sniffed := CheckBOM(input);
    if inFmt == Auto && sniffed.fmt == Unknown then None
    else
      var fmt := Resolved(input, inFmt);
      match WriteLineIntended(outFmt, ReadAllIntended(input, sniffed.start, fmt))
      case None => None
      case Some(text) => Some(WriteBOM(outFmt) + text)
  }

  /** Whenever the input encoding is declared or sniffed, and the output
      encoding has a writer, the corrected run writes the mark and then
      every decoded character. */
  lemma TranscodeIntendedWritesAll(input: seq<byte>, inFmt: Format, outFmt: Format)
    requires |input| > 0 && IsTextFormat(outFmt)
    requires inFmt != Auto || CheckBOM(input).fmt != Unknown
    ensures TranscodeIntended(input, inFmt, outFmt)
      == Some(WriteBOM(outFmt)
              + WriteLineIntended(outFmt, DecodeAll(input, CheckBOM(input).start, Resolved(input, inFmt))).value)
  {
    ReadAllIntendedIsDecodeAll(input, CheckBOM(input).start, Resolved(input, inFmt));
  }

  /** Converting to UTF-8 with both corrections keeps the text, `AUTO`
      included whenever it resolves: after the output's mark, the output
      decodes to every character decoded from the input, its last line
      included. */
  lemma IntendedRunKeepsText(input: seq<byte>, inFmt: Format)
    requires |input| > 0
    requires inFmt != Auto || CheckBOM(input).fmt != Unknown
    ensures TranscodeIntended(input, inFmt, Utf8).Some?
    ensures DecodeAll(TranscodeIntended(input, inFmt, Utf8).value, 3, Utf8)
      == DecodeAll(input, CheckBOM(input).start, Resolved(input, inFmt))
  {
    var fmt := Resolved(input, inFmt);
    var cs := DecodeAll(input, CheckBOM(input).start, fmt);
    TranscodeIntendedWritesAll(input, inFmt, Utf8);
    forall i | 0 <= i < |cs|
      ensures cs[i] <= 0x7FFF_FFFF
    {
      DecodedBelowTopBit(input, CheckBOM(input).start, fmt, i);
    }
    MarkedTextDecodes(cs);
  }

  /** Characters below 0x80000000 written by the corrected UTF-8 writer
      after the UTF-8 mark decode back from offset 3. */
  lemma MarkedTextDecodes(cs: seq<u32>)
    requires forall i :: 0 <= i < |cs| ==> cs[i] <= 0x7FFF_FFFF
    ensures WriteLineIntended(Utf8, cs).Some?
    ensures DecodeAll(WriteBOM(Utf8) + WriteLineIntended(Utf8, cs).value, 3, Utf8) == cs
  {
    IntendedTextDecodes(cs);
    DecodeAfterMark(WriteLineIntended(Utf8, cs).value);
  }

  /** The UTF-8 mark in front of a text does not change what is decoded
      after it. */
  lemma DecodeAfterMark(text: seq<byte>)
    ensures DecodeAll(WriteBOM(Utf8) + text, 3, Utf8) == DecodeAll(text, 0, Utf8)
  {
    var t := WriteBOM(Utf8) + text;
    assert t[3..] == text;
    DecodeAllShiftBehind(t, 3, text, 0, Utf8);
  }

  /** Every character `ReadChar` yields is below 0x80000000. */
  lemma {:induction false} DecodedBelowTopBit(input: seq<byte>, pos: nat, fmt: Format, i: nat)
    requires i < |DecodeAll(input, pos, fmt)|
    ensures DecodeAll(input, pos, fmt)[i] <= 0x7FFF_FFFF
    decreases |input| - pos
  {
    match ReadChar(input, pos, fmt)
    case None =>
    case Some(d) =>
      if i > 0 {
        DecodedBelowTopBit(input, d.next, fmt, i - 1);
      }
  }

  /** The input whose last line the program drops is copied whole. */
  lemma IntendedKeepsLastLine(input: seq<byte>)
    requires input == [0x41, 0x0A, 0x42]
    ensures TranscodeIntended(input, Ansi, Ansi) == Some(input)
  {
    assert CheckBOM(input).start == 0;
    AnsiDecodesEveryByte(input, 0);
    assert input[0..] == input;
    TranscodeIntendedWritesAll(input, Ansi, Ansi);
    assert IsAscii(input);
    AsciiWritesItself(Ansi, input);
    assert WriteLineIntended(Ansi, input) == Some(input);
    assert WriteBOM(Ansi) + input == input;
  }
}
