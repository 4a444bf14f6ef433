/** What `ReadChar` gives back for the bytes `WriteChar` produced, and the
    other way round, encoding by encoding. */
module RoundTrip {
  import opened Base
  import opened Formats
  import opened Reader
  import opened Writer

  /** A character decoded from a prefix of the input decodes the same way
      whatever bytes follow. */
  lemma ReadCharIgnoresSuffix(s: seq<byte>, rest: seq<byte>, pos: nat, fmt: Format)
    requires ReadChar(s, pos, fmt).Some?
    ensures ReadChar(s + rest, pos, fmt) == ReadChar(s, pos, fmt)
  {
    var d := ReadChar(s, pos, fmt).value;
    assert (s + rest)[pos] == s[pos];
    if fmt == Utf8 {
      assert (s + rest)[pos..d.next] == s[pos..d.next];
    } else if fmt != Ansi {
      assert (s + rest)[pos + 1] == s[pos + 1];
    }
  }

  /** ANSI keeps the low eight bits of a character. */
  lemma AnsiRoundTrip(v: u32, rest: seq<byte>)
    ensures ReadChar(WriteChar(Ansi, v).value + rest, 0, Ansi) == Some(Decoded(v % 0x100, 1))
  {
  }

  /** Both UTF-16 byte orders keep the low sixteen bits of a character. */
  lemma Utf16RoundTrip(v: u32, rest: seq<byte>, fmt: Format)
    requires fmt == Utf16 || fmt == Utf16BE
    ensures ReadChar(WriteChar(fmt, v).value + rest, 0, fmt) == Some(Decoded(v % 0x1_0000, 2))
  {
    var b := WriteChar(fmt, v).value;
    assert (b + rest)[0] == b[0] && (b + rest)[1] == b[1];
    LowSixteenBits(v);
  }

  /** The low sixteen bits are the low byte plus 256 times the next byte. */
  lemma LowSixteenBits(v: nat)
    ensures v % 0x1_0000 == v % 0x100 + v / 0x100 % 0x100 * 0x100
  {
    var q := v / 0x100;
    assert v == 0x100 * q + v % 0x100;
    assert q == 0x100 * (q / 0x100) + q % 0x100;
  }

  /** The fixed-width decoders lose nothing: re-encoding a decoded
      character reproduces exactly the bytes it was read from. */
  lemma FixedWidthBytesRoundTrip(input: seq<byte>, pos: nat, fmt: Format)
    requires fmt == Ansi || fmt == Utf16 || fmt == Utf16BE
    requires ReadChar(input, pos, fmt).Some?
    ensures WriteChar(fmt, ReadChar(input, pos, fmt).value.value).value
      == input[pos..ReadChar(input, pos, fmt).value.next]
  {
    var d := ReadChar(input, pos, fmt).value;
    if fmt == Ansi {
      assert input[pos..d.next] == [input[pos]];
    } else {
      var b0: int, b1: int := input[pos], input[pos + 1];
      assert input[pos..d.next] == [b0, b1];
      if fmt == Utf16 {
        assert d.value == b0 + 0x100 * b1;
        assert d.value % 0x100 == b0 && d.value / 0x100 == b1;
      } else {
        assert d.value == 0x100 * b0 + b1;
        assert d.value % 0x100 == b1 && d.value / 0x100 == b0;
      }
    }
  }

  /** UTF-8 round-trips every 7-bit value. */
  lemma Utf8AsciiRoundTrip(v: u32, rest: seq<byte>)
    requires v <= 0x7F
    ensures ReadChar(WriteChar(Utf8, v).value + rest, 0, Utf8) == Some(Decoded(v, 1))
  {
    assert ([v] + rest)[0..1] == [v];
    assert Utf8Value([v]) == v;
  }

  /** Up to 0x3FFFFFF the decoder takes exactly the bytes the encoder
      wrote, no more and no fewer, and reads them as its own layout
      prescribes (lead byte highest). */
  lemma Utf8ReadsWhatWasWritten(v: u32, rest: seq<byte>)
    requires v <= 0x3FF_FFFF
    ensures ReadChar(EncodeUtf8(v) + rest, 0, Utf8).Some?
    ensures ReadChar(EncodeUtf8(v) + rest, 0, Utf8).value.next == |EncodeUtf8(v)|
    ensures ReadChar(EncodeUtf8(v) + rest, 0, Utf8).value.value == Utf8Value(EncodeUtf8(v))
  {
    var e := EncodeUtf8(v);
    assert (e + rest)[0] == e[0];
    assert (e + rest)[0..|e|] == e;
    ReadUtf8Decodes(e + rest, 0);
  }

  /** Above 0x3FFFFFF the encoder writes a six-byte lead but only five
      bytes: alone they read as end of input, and followed by anything the
      decoder swallows one byte of what comes next. */
  lemma Utf8TopBandOverreads(v: u32, rest: seq<byte>)
    requires 0x3FF_FFFF < v <= 0x7FFF_FFFF
    ensures ReadChar(EncodeUtf8(v) + rest, 0, Utf8).Some? <==> |rest| >= 1
    ensures ReadChar(EncodeUtf8(v) + rest, 0, Utf8).Some? ==>
      ReadChar(EncodeUtf8(v) + rest, 0, Utf8).value.next == |EncodeUtf8(v)| + 1
  {
    var e := EncodeUtf8(v);
    assert (e + rest)[0] == e[0];
  }

  /** The bit orders of encoder and decoder disagree: U+00E9 is written as
      C9 87, which reads back as U+0247. */
  lemma Utf8E9ReadsBackAs247()
    ensures EncodeUtf8(0xE9) == [0xC9, 0x87]
    ensures ReadChar(EncodeUtf8(0xE9), 0, Utf8) == Some(Decoded(0x247, 2))
  {
    var e: seq<byte> := [0xC9, 0x87];
    assert e[0..2] == e;
    assert e[0..2][1..] == [0x87];
    assert Radix64([0x87]) == 0x07;
    assert Utf8Value(e) == 0x09 * 0x40 + 0x07;
  }
}
