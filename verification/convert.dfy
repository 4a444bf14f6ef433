/** The conversion `main` performs once its options are parsed and its
    files are open: sniff the input, resolve `AUTO`, write the output mark,
    then copy line after line through the codec. */
module Convert {
  import opened Base
  import opened Formats
  import opened Reader
  import opened Writer
  import opened Bom
  import opened Lines

  /** The exit status (`true` for `EXIT_SUCCESS`) and every byte written. */
  datatype Exit = Exit(success: bool, output: seq<byte>)

  /** The whole run described on the whole stream at once: the output mark,
      then the encoding of every character decoded from the offset
      `CheckBOM` left the input at, up to and including the last line
      feed. `CheckBOM` runs whatever the declared input encoding, so an
      explicit encoding still starts after any mark it recognised. */
  function Transcode(input: seq<byte>, inFmt: Format, outFmt: Format): (e: Exit)
    requires |input| > 0
    ensures !e.success ==> e.output == []
    ensures e.success ==> WriteBOM(outFmt) <= e.output
  {
    var sniffed := CheckBOM(input);
    if inFmt == Auto && sniffed.fmt == Unknown then
      Exit(false, [])
    else
      var fmt := Resolved(input, inFmt);
      match WriteLine(outFmt, CompleteLines(DecodeAll(input, sniffed.start, fmt)))
      case None => Exit(false, [])
      case Some(text) => Exit(true, WriteBOM(outFmt) + text)
  }

  /** The loop invariant of `Convert`: `done` holds the whole lines read so
      far, `pos` is where the next one starts, and `output` is the mark
      followed by those lines written out. */
  ghost predicate Progress(input: seq<byte>, start: nat, fmt: Format, outFmt: Format,
                           pos: nat, done: seq<u32>, output: seq<byte>)
  {
    && pos <= |input|
    && DecodeAll(input, start, fmt) == done + DecodeAll(input, pos, fmt)
    && (done == [] || done[|done| - 1] == LF)
    && WriteLine(outFmt, done).Some?
    && output == WriteBOM(outFmt) + WriteLine(outFmt, done).value
  }

  lemma ProgressStep(input: seq<byte>, start: nat, fmt: Format, outFmt: Format,
                     pos: nat, done: seq<u32>, output: seq<byte>)
    requires Progress(input, start, fmt, outFmt, pos, done, output)
    requires ReadLine(input, pos, fmt).Some?
    requires WriteLine(outFmt, ReadLine(input, pos, fmt).value.line).Some?
    ensures var l := ReadLine(input, pos, fmt).value;
      Progress(input, start, fmt, outFmt, l.next, done + l.line,
               output + WriteLine(outFmt, l.line).value)
  {
    var l := ReadLine(input, pos, fmt).value;
    assert l.next <= |input| && |l.line| >= 1 && l.line[|l.line| - 1] == LF;
    ReadLineTakesFirstLine(input, pos, fmt);
    assert DecodeAll(input, pos, fmt) == l.line + DecodeAll(input, l.next, fmt);
    ProgressAdvance(input, start, fmt, outFmt, pos, done, output, l.line, l.next);
  }

  /** The invariant survives taking one decoded line, ending in a line
      feed, off the front of what is left and writing it. */
  lemma ProgressAdvance(input: seq<byte>, start: nat, fmt: Format, outFmt: Format,
                        pos: nat, done: seq<u32>, output: seq<byte>, line: seq<u32>, next: nat)
    requires Progress(input, start, fmt, outFmt, pos, done, output)
    requires next <= |input| && |line| >= 1 && line[|line| - 1] == LF
    requires DecodeAll(input, pos, fmt) == line + DecodeAll(input, next, fmt)
    requires WriteLine(outFmt, line).Some?
    ensures Progress(input, start, fmt, outFmt, next, done + line, output + WriteLine(outFmt, line).value)
  {
    Associative(done, line, DecodeAll(input, next, fmt));
    assert (done + line)[|done + line| - 1] == LF;
    OutputGrows(outFmt, done, line, output);
  }

  /** Writing one more non-empty line extends the output by that line's
      bytes, and the output stays the mark followed by every line so far. */
  lemma OutputGrows(outFmt: Format, done: seq<u32>, line: seq<u32>, output: seq<byte>)
    requires |line| > 0 && WriteLine(outFmt, line).Some?
    requires WriteLine(outFmt, done).Some?
    requires output == WriteBOM(outFmt) + WriteLine(outFmt, done).value
    ensures WriteLine(outFmt, done + line).Some?
    ensures output + WriteLine(outFmt, line).value == WriteBOM(outFmt) + WriteLine(outFmt, done + line).value
  {
    WriteLineAppend(outFmt, done, line);
    Associative(WriteBOM(outFmt), WriteLine(outFmt, done).value, WriteLine(outFmt, line).value);
  }

  lemma ProgressStop(input: seq<byte>, start: nat, fmt: Format, outFmt: Format,
                     pos: nat, done: seq<u32>, output: seq<byte>)
    requires Progress(input, start, fmt, outFmt, pos, done, output)
    requires ReadLine(input, pos, fmt).None?
    ensures CompleteLines(DecodeAll(input, start, fmt)) == done
  {
    ReadLineTakesFirstLine(input, pos, fmt);
    CompleteLinesOfWholeLines(done, DecodeAll(input, pos, fmt));
  }

  lemma ProgressWriteFails(input: seq<byte>, start: nat, fmt: Format, outFmt: Format,
                           pos: nat, done: seq<u32>, output: seq<byte>)
    requires Progress(input, start, fmt, outFmt, pos, done, output)
    requires ReadLine(input, pos, fmt).Some?
    requires WriteLine(outFmt, ReadLine(input, pos, fmt).value.line).None?
    ensures output == []
    ensures WriteLine(outFmt, CompleteLines(DecodeAll(input, start, fmt))).None?
  {
    ReadLineTakesFirstLine(input, pos, fmt);
    assert !IsTextFormat(outFmt);
    assert done == [];
    assert LF in DecodeAll(input, start, fmt);
  }

  /** Lines 741-764 of `main`: write the output mark, then read and write
      line after line until a read fails. The loop writes the mark and
      every character decoded from `start` up to the last line feed, and
      fails only when the output encoding has no writer and there is a
      line to write. */
  method CopyLines(input: seq<byte>, start: nat, fmt: Format, outFmt: Format)
    returns (success: bool, output: seq<byte>)
    requires start <= |input|
    ensures success <==> WriteLine(outFmt, CompleteLines(DecodeAll(input, start, fmt))).Some?
    ensures success ==>
      output == WriteBOM(outFmt) + WriteLine(outFmt, CompleteLines(DecodeAll(input, start, fmt))).value
    ensures !success ==> output == []
  {
    output := WriteBOM(outFmt);
    var pos := start;
    ghost var done: seq<u32> := [];
    assert output == WriteBOM(outFmt) + [];
    while true
      invariant Progress(input, start, fmt, outFmt, pos, done, output)
      decreases |input| - pos
    {
      var r := ReadLine(input, pos, fmt);
      if r.None? {
        ProgressStop(input, start, fmt, outFmt, pos, done, output);
        break;
      }
      var w := WriteLine(outFmt, r.value.line);
      if w.None? {
        ProgressWriteFails(input, start, fmt, outFmt, pos, done, output);
        return false, output;
      }
      ProgressStep(input, start, fmt, outFmt, pos, done, output);
      output := output + w.value;
      done := done + r.value.line;
      pos := r.value.next;
    }
    return true, output;
  }

  /** Lines 686-698 and 741-777 of `main`: sniff the input, resolve
      `AUTO` (failing before any output when the sniffer cannot tell), then
      copy the lines. The run writes exactly what `Transcode` describes. */
  method Convert(input: seq<byte>, inFmt: Format, outFmt: Format) returns (success: bool, output: seq<byte>)
    requires |input| > 0
    ensures Exit(success, output) == Transcode(input, inFmt, outFmt)
  {
    var sniffed := CheckBOM(input);
    var fmt := inFmt;
    if inFmt == Auto {
      if sniffed.fmt == Unknown {
        return false, [];
      }
      fmt := sniffed.fmt;
    }
    success, output := CopyLines(input, sniffed.start, fmt, outFmt);
  }
}
