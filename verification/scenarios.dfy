/** Whole-run consequences of the model: what the converter does to
    ASCII text, and the behaviours a reader of the program might not
    expect. */
module Scenarios {
  import opened Base
  import opened Formats
  import opened Reader
  import opened Writer
  import opened Bom
  import opened Lines
  import opened Convert

  lemma CompleteLinesOfAscii(cs: seq<u32>)
    requires IsAscii(cs)
    ensures IsAscii(CompleteLines(cs))
  {
    var p := CompleteLines(cs);
    forall i | 0 <= i < |p| ensures 0 <= p[i] <= 0x7F {
      assert p[i] == cs[i];
    }
  }

  /** Converting 7-bit text from ANSI to UTF-8 and back again gives the
      text back up to its last line feed; what follows the last line feed
      is lost in the first step. */
  lemma AsciiThroughUtf8AndBack(input: seq<byte>)
    requires |input| > 0 && IsAscii(input)
    ensures Transcode(input, Ansi, Utf8).success
    ensures Transcode(input, Ansi, Utf8).output == [0xEF, 0xBB, 0xBF] + CompleteLines(input)
    ensures Transcode(Transcode(input, Ansi, Utf8).output, Utf8, Ansi)
      == Exit(true, CompleteLines(input))
  {
    AsciiToUtf8(input);
    CompleteLinesOfAscii(input);
    AsciiFromUtf8(CompleteLines(input));
  }

  /** ASCII declared ANSI becomes its whole lines behind a UTF-8 mark. */
  lemma AsciiToUtf8(input: seq<byte>)
    requires |input| > 0 && IsAscii(input)
    ensures Transcode(input, Ansi, Utf8) == Exit(true, [0xEF, 0xBB, 0xBF] + CompleteLines(input))
  {
    assert input[0] <= 0x7F;
    assert CheckBOM(input).start == 0;
    AnsiDecodesEveryByte(input, 0);
    assert input[0..] == input;
    CompleteLinesOfAscii(input);
    AsciiWritesItself(Utf8, CompleteLines(input));
  }

  /** Whole lines of ASCII behind a UTF-8 mark, declared UTF-8 and
      written as ANSI, lose the mark and nothing else. */
  lemma AsciiFromUtf8(text: seq<byte>)
    requires IsAscii(text) && (text == [] || text[|text| - 1] == LF)
    ensures Transcode([0xEF, 0xBB, 0xBF] + text, Utf8, Ansi) == Exit(true, text)
  {
    var out: seq<byte> := [0xEF, 0xBB, 0xBF] + text;
    CheckBOMFindsWrittenBOM(Utf8, text);
    assert out[3..] == text;
    Utf8DecodesAscii(out, 3);
    assert CompleteLines(text) == text by {
      CompleteLinesOfWholeLines(text, []);
      assert text + [] == text;
    }
    AsciiWritesItself(Ansi, text);
  }

  /** With a declared input encoding and an output encoding that has a
      writer, the run always succeeds. */
  lemma DeclaredRunSucceeds(input: seq<byte>, inFmt: Format, outFmt: Format)
    requires |input| > 0 && inFmt != Auto && IsTextFormat(outFmt)
    ensures Transcode(input, inFmt, outFmt) == Exit(true, WriteBOM(outFmt)
      + WriteLine(outFmt, CompleteLines(DecodeAll(input, CheckBOM(input).start, inFmt))).value)
  {
  }

  lemma WriteOne(fmt: Format, c: u32)
    requires IsTextFormat(fmt)
    ensures WriteLine(fmt, [c]) == WriteChar(fmt, c)
  {
    assert [c][0] == c && [c][1..] == [];
    assert WriteLine(fmt, []) == Some([]);
    assert WriteChar(fmt, c).value + [] == WriteChar(fmt, c).value;
  }

  /** "Hello\\n" declared ANSI and written as UTF-16 little endian. */
  lemma HelloToUtf16(input: seq<byte>)
    requires input == [0x48, 0x65, 0x6C, 0x6C, 0x6F, 0x0A]
    ensures Transcode(input, Ansi, Utf16)
      == Exit(true, [0xFF, 0xFE, 0x48, 0x00, 0x65, 0x00, 0x6C, 0x00, 0x6C, 0x00, 0x6F, 0x00, 0x0A, 0x00])
  {
    DeclaredRunSucceeds(input, Ansi, Utf16);
    assert CheckBOM(input).start == 0;
    AnsiDecodesEveryByte(input, 0);
    assert input[0..] == input;
    assert CompleteLines(input) == input;
    HelloWritten(input);
  }

  /** Each byte followed by a zero byte: UTF-16 little endian of 8-bit text. */
  function Widened(s: seq<byte>): (r: seq<byte>)
    ensures |r| == 2 * |s|
  {
    if |s| == 0 then [] else [s[0], 0x00] + Widened(s[1..])
  }

  /** Writing 8-bit characters as UTF-16 little endian pairs each with a zero byte. */
  lemma {:induction false} Utf16WritesWidened(s: seq<byte>)
    ensures WriteLine(Utf16, s) == Some(Widened(s))
    decreases |s|
  {
    if |s| > 0 {
      Utf16WritesWidened(s[1..]);
      assert WriteChar(Utf16, s[0]) == Some([s[0], 0x00]);
    }
  }

  lemma HelloWritten(text: seq<byte>)
    requires text == [0x48, 0x65, 0x6C, 0x6C, 0x6F, 0x0A]
    ensures WriteLine(Utf16, text)
      == Some([0x48, 0x00, 0x65, 0x00, 0x6C, 0x00, 0x6C, 0x00, 0x6F, 0x00, 0x0A, 0x00])
  {
    Utf16WritesWidened(text);
    var t: seq<byte> := [0x48, 0x65, 0x6C, 0x6C, 0x6F, 0x0A];
    assert Widened(t) == [0x48, 0x00, 0x65, 0x00, 0x6C, 0x00, 0x6C, 0x00, 0x6F, 0x00, 0x0A, 0x00];
  }

  /** An unterminated last line is never written, and the run still
      succeeds. */
  lemma UnterminatedLineDropped()
    ensures Transcode([0x41, 0x0A, 0x42], Ansi, Ansi) == Exit(true, [0x41, 0x0A])
  {
    var input: seq<byte> := [0x41, 0x0A, 0x42];
    assert CheckBOM(input).start == 0;
    AnsiDecodesEveryByte(input, 0);
    assert input[0..] == input;
    assert input[..2] == [0x41, 0x0A];
    assert CompleteLines(input) == [0x41, 0x0A];
    AsciiWritesItself(Ansi, [0x41, 0x0A]);
  }

  /** A bad UTF-8 lead byte ends the run successfully; the characters
      before it on its line are lost. */
  lemma DecodeErrorEndsRun()
    ensures Transcode([0x41, 0x0A, 0x42, 0xFF, 0x43, 0x0A], Utf8, Ansi) == Exit(true, [0x41, 0x0A])
  {
    var input: seq<byte> := [0x41, 0x0A, 0x42, 0xFF, 0x43, 0x0A];
    assert CheckBOM(input).start == 0;
    DecodeStopsAtBadLead();
    var cs: seq<u32> := [0x41, 0x0A, 0x42];
    assert cs[..2] == [0x41, 0x0A];
    assert CompleteLines(cs) == [0x41, 0x0A];
    AsciiWritesItself(Ansi, [0x41, 0x0A]);
  }

  lemma DecodeStopsAtBadLead()
    ensures DecodeAll([0x41, 0x0A, 0x42, 0xFF, 0x43, 0x0A], 0, Utf8) == [0x41, 0x0A, 0x42]
  {
    var input: seq<byte> := [0x41, 0x0A, 0x42, 0xFF, 0x43, 0x0A];
    assert input[0..1] == [0x41] && input[1..2] == [0x0A] && input[2..3] == [0x42];
    assert Utf8Value([0x41]) == 0x41 && Utf8Value([0x0A]) == 0x0A && Utf8Value([0x42]) == 0x42;
    assert DecodeAll(input, 3, Utf8) == [];
    assert DecodeAll(input, 2, Utf8) == [0x42];
    assert DecodeAll(input, 1, Utf8) == [0x0A, 0x42];
  }

  /** An explicit input encoding does not stop the sniffer: a UTF-8 mark
      in front of text declared ANSI is skipped, not converted. */
  lemma ExplicitFormatSkipsMark()
    ensures Transcode([0xEF, 0xBB, 0xBF, 0x41, 0x0A], Ansi, Ansi) == Exit(true, [0x41, 0x0A])
  {
    var input: seq<byte> := [0xEF, 0xBB, 0xBF, 0x41, 0x0A];
    assert input[..3] == [0xEF, 0xBB, 0xBF];
    AnsiDecodesEveryByte(input, 3);
    assert input[3..] == [0x41, 0x0A];
    assert CompleteLines([0x41, 0x0A]) == [0x41, 0x0A];
    AsciiWritesItself(Ansi, [0x41, 0x0A]);
  }

  /** "é\\n" in UTF-8 with its mark, detected automatically and written as
      UTF-16 big endian. */
  lemma EAcuteToUtf16BE(input: seq<byte>)
    requires input == [0xEF, 0xBB, 0xBF, 0xC3, 0xA9, 0x0A]
    ensures Transcode(input, Auto, Utf16BE) == Exit(true, [0xFE, 0xFF, 0x00, 0xE9, 0x00, 0x0A])
  {
    EAcuteDecoded(input);
    var cs: seq<u32> := [0xE9, 0x0A];
    assert CompleteLines(cs) == cs;
    EAcuteWritten(cs);
  }

  lemma EAcuteDecoded(input: seq<byte>)
    requires input == [0xEF, 0xBB, 0xBF, 0xC3, 0xA9, 0x0A]
    ensures CheckBOM(input) == Sniffed(Utf8, 3)
    ensures DecodeAll(input, 3, Utf8) == [0xE9, 0x0A]
  {
    assert input[..3] == [0xEF, 0xBB, 0xBF];
    assert input[3..5] == [0xC3, 0xA9] && input[3..5][1..] == [0xA9];
    assert Radix64([0xA9]) == 0x29;
    assert Utf8Value([0xC3, 0xA9]) == 0xE9;
    assert input[5..6] == [0x0A] && Utf8Value([0x0A]) == 0x0A;
    assert DecodeAll(input, 6, Utf8) == [];
    assert DecodeAll(input, 5, Utf8) == [0x0A];
  }

  lemma EAcuteWritten(cs: seq<u32>)
    requires cs == [0xE9, 0x0A]
    ensures WriteLine(Utf16BE, cs) == Some([0x00, 0xE9, 0x00, 0x0A])
  {
    assert cs[..1] == [0xE9] && cs[1..] == [0x0A];
    WriteLineAppend(Utf16BE, [0xE9], [0x0A]);
    assert cs == [0xE9] + [0x0A];
    WriteOne(Utf16BE, 0xE9);
    WriteOne(Utf16BE, 0x0A);
    assert WriteChar(Utf16BE, 0xE9) == Some([0x00, 0xE9]);
    assert WriteChar(Utf16BE, 0x0A) == Some([0x00, 0x0A]);
    assert WriteLine(Utf16BE, cs).value == [0x00, 0xE9] + [0x00, 0x0A];
    assert [0x00, 0xE9] + [0x00, 0x0A] == [0x00, 0xE9, 0x00, 0x0A];
  }
}
