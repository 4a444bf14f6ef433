/** Byte-order marks: `CheckBOM`, which sniffs the start of the input, and
    `WriteBOM`, which emits the mark for the output encoding. */
module Bom {
  import opened Base
  import opened Formats

  /** The encoding `CheckBOM` settled on and the offset its `fseek` leaves
      the input at. */
  datatype Sniffed = Sniffed(fmt: Format, start: nat)

  /** `WriteBOM`: the mark written before the first line. Only the three
      Unicode encodings get one, and no mark is longer than three bytes. */
  function WriteBOM(fmt: Format): (bom: seq<byte>)
    ensures |bom| <= 3
    ensures bom != [] <==> fmt == Utf8 || fmt == Utf16 || fmt == Utf16BE
    ensures bom != [] ==> 0xEF <= bom[0]
  {
    match fmt
    case Utf8 => [0xEF, 0xBB, 0xBF]
    case Utf16 => [0xFF, 0xFE]
    case Utf16BE => [0xFE, 0xFF]
    case _ => []
  }

  /** `ch[i]` after `CheckBOM` zero-fills its 32-byte buffer and reads up to
      32 bytes into it. */
  function Peek(input: seq<byte>, i: nat): byte
  {
    if i < |input| && i < 32 then input[i] else 0
  }

  /** The scan loop of the ASCII fallback, byte by byte: it stops at the
      first byte above 127. */
  predicate ScanAscii(s: seq<byte>)
  {
    |s| == 0 || (s[0] <= 0x7F && ScanAscii(s[1..]))
  }

  lemma {:induction false} ScanAsciiMeans(s: seq<byte>)
    ensures ScanAscii(s) <==> IsAscii(s)
  {
    if |s| > 0 {
      ScanAsciiMeans(s[1..]);
      if forall i :: 0 <= i < |s| ==> s[i] <= 0x7F {
        assert forall i :: 0 <= i < |s| - 1 ==> s[1..][i] == s[i + 1];
      }
      if ScanAscii(s) {
        forall i | 0 <= i < |s|
          ensures s[i] <= 0x7F
        {
          if i > 0 { assert s[i] == s[1..][i - 1]; }
        }
      }
    }
  }

  /** `CheckBOM`. A UTF-16 (either order) or UTF-8 mark selects that
      encoding and leaves the input just after the mark; otherwise the
      input is left at its start and is taken for ANSI when at least 16
      bytes were read and none of the first 32 is above 127. Everything
      else, the empty input included, is `Unknown`. The mark it skips is
      exactly the one `WriteBOM` emits for the encoding it reports. */
  function CheckBOM(input: seq<byte>): (r: Sniffed)
    ensures r.fmt == Utf16BE <==> |input| >= 2 && input[0] == 0xFE && input[1] == 0xFF
    ensures r.fmt == Utf16 <==> |input| >= 2 && input[0] == 0xFF && input[1] == 0xFE
    ensures r.fmt == Utf8 <==> |input| >= 3 && input[..3] == [0xEF, 0xBB, 0xBF]
    ensures r.fmt == Ansi <==>
      |input| >= 16 && forall i :: 0 <= i < |input| && i < 32 ==> input[i] <= 0x7F
    ensures r.fmt != Auto
    ensures r.start <= |input| && input[..r.start] == WriteBOM(r.fmt)
  {
    var bytes := if |input| < 32 then |input| else 32;
    if bytes < 1 then
      Sniffed(Unknown, 0)
    else if Peek(input, 0) == 0xFE && Peek(input, 1) == 0xFF then
      Sniffed(Utf16BE, 2)
    else if Peek(input, 0) == 0xFF && Peek(input, 1) == 0xFE then
      Sniffed(Utf16, 2)
    else if Peek(input, 0) == 0xEF && Peek(input, 1) == 0xBB && Peek(input, 2) == 0xBF then
      assert input[..3] == [input[0], input[1], input[2]];
      Sniffed(Utf8, 3)
    else if bytes >= 16 then
      ScanAsciiMeans(input[..bytes]);
      assert forall i :: 0 <= i < bytes ==> input[..bytes][i] == input[i];
      if ScanAscii(input[..bytes]) then Sniffed(Ansi, 0) else Sniffed(Unknown, 0)
    else
      Sniffed(Unknown, 0)
  }

  /** Sniffing what `WriteBOM` emitted finds the same encoding and skips
      exactly the mark, whatever follows it. */
  lemma CheckBOMFindsWrittenBOM(fmt: Format, rest: seq<byte>)
    requires fmt == Utf8 || fmt == Utf16 || fmt == Utf16BE
    ensures CheckBOM(WriteBOM(fmt) + rest) == Sniffed(fmt, |WriteBOM(fmt)|)
  {
    var input := WriteBOM(fmt) + rest;
    assert input[0] == WriteBOM(fmt)[0] && input[1] == WriteBOM(fmt)[1];
    if fmt == Utf8 {
      assert input[..3] == WriteBOM(fmt);
    }
  }

  /** The input encoding a run decodes with: the declared one, or for
      `AUTO` the one `CheckBOM` sniffed. */
  function Resolved(input: seq<byte>, inFmt: Format): Format
    requires |input| > 0
  {
    if inFmt == Auto then CheckBOM(input).fmt else inFmt
  }
}
