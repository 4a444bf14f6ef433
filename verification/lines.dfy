/** Line framing: `ReadLine` collects decoded characters up to and
    including a line feed, `WriteLine` encodes a line character by
    character. */
module Lines {
  import opened Base
  import opened Formats
  import opened Reader
  import opened Writer

  /** The line feed, compared against the decoded value (`c != '\n'`). */
  const LF: u32 := 0x0A

  /** A line read and the input offset just after it. */
  datatype LineRead = LineRead(line: seq<u32>, next: nat)

  /** Every character `ReadChar` yields from `pos` on, up to the first
      read that fails (end of input or a bad UTF-8 sequence). */
  function DecodeAll(input: seq<byte>, pos: nat, fmt: Format): seq<u32>
    decreases |input| - pos
  {
    match ReadChar(input, pos, fmt)
    case None => []
    case Some(d) => [d.value] + DecodeAll(input, d.next, fmt)
  }

  /** `ReadLine`: `None` (the source's `false`) whenever a read fails before
      a line feed arrives, even when characters were already collected. */
  function ReadLine(input: seq<byte>, pos: nat, fmt: Format): (r: Option<LineRead>)
    ensures r.Some? ==> pos < r.value.next <= |input|
    ensures r.Some? ==>
      && |r.value.line| >= 1
      && r.value.line[|r.value.line| - 1] == LF
      && forall i :: 0 <= i < |r.value.line| - 1 ==> r.value.line[i] != LF
    decreases |input| - pos
  {
    match ReadChar(input, pos, fmt)
    case None => None
    case Some(d) =>
      if d.value == LF then Some(LineRead([LF], d.next))
      else
        match ReadLine(input, d.next, fmt)
        case None => None
        case Some(l) => Some(LineRead([d.value] + l.line, l.next))
  }

  /** A line is the decoded characters up to the first line feed: there is
      one exactly when a line feed is decoded before reading fails, and
      reading it consumes exactly those characters. */
  lemma {:induction false} ReadLineTakesFirstLine(input: seq<byte>, pos: nat, fmt: Format)
    ensures ReadLine(input, pos, fmt).Some? <==> LF in DecodeAll(input, pos, fmt)
    ensures ReadLine(input, pos, fmt).Some? ==>
      DecodeAll(input, pos, fmt)
        == ReadLine(input, pos, fmt).value.line + DecodeAll(input, ReadLine(input, pos, fmt).value.next, fmt)
    decreases |input| - pos
  {
    match ReadChar(input, pos, fmt)
    case None =>
    case Some(d) =>
      if d.value != LF {
        ReadLineTakesFirstLine(input, d.next, fmt);
        var rest := DecodeAll(input, d.next, fmt);
        assert DecodeAll(input, pos, fmt) == [d.value] + rest;
        assert LF in rest <==> LF in [d.value] + rest;
        match ReadLine(input, d.next, fmt)
        case None =>
        case Some(l) =>
          assert [d.value] + rest == ([d.value] + l.line) + DecodeAll(input, l.next, fmt);
      }
  }

  /** The characters up to and including the last line feed; empty when
      there is none. */
  function CompleteLines(cs: seq<u32>): (p: seq<u32>)
    ensures p <= cs
    ensures p == [] || p[|p| - 1] == LF
    ensures LF !in cs[|p|..]
  {
    if |cs| == 0 then []
    else if cs[|cs| - 1] == LF then cs
    else
      var p := CompleteLines(cs[..|cs| - 1]);
      assert cs[|p|..] == cs[..|cs| - 1][|p|..] + [cs[|cs| - 1]];
      p
  }

  /** Text made of whole lines followed by characters without a line feed
      keeps exactly the whole lines. */
  lemma CompleteLinesOfWholeLines(done: seq<u32>, tail: seq<u32>)
    requires done == [] || done[|done| - 1] == LF
    requires LF !in tail
    ensures CompleteLines(done + tail) == done
  {
    var p := CompleteLines(done + tail);
    assert p == (done + tail)[..|p|];
    assert done == (done + tail)[..|done|];
  }

  /** `WriteLine`: each character through `WriteChar`, in order; `None`
      when one of them fails. */
  function WriteLine(fmt: Format, line: seq<u32>): (r: Option<seq<byte>>)
    ensures r.Some? <==> |line| == 0 || IsTextFormat(fmt)
    ensures r.Some? && fmt == Ansi ==> |r.value| == |line|
    ensures r.Some? && (fmt == Utf16 || fmt == Utf16BE) ==> |r.value| == 2 * |line|
  {
    if |line| == 0 then Some([])
    else
      match WriteChar(fmt, line[0])
      case None => None
      case Some(b) =>
        match WriteLine(fmt, line[1..])
        case None => None
        case Some(rest) => Some(b + rest)
  }

  /** Writing two pieces one after the other writes their concatenation. */
  lemma {:induction false} WriteLineAppend(fmt: Format, a: seq<u32>, b: seq<u32>)
    requires IsTextFormat(fmt)
    ensures WriteLine(fmt, a + b).value == WriteLine(fmt, a).value + WriteLine(fmt, b).value
    decreases |a|
  {
    if |a| > 0 {
      assert (a + b)[0] == a[0] && (a + b)[1..] == a[1..] + b;
      WriteLineAppend(fmt, a[1..], b);
    } else {
      assert a + b == b;
    }
  }

  /** ANSI decoding yields every remaining byte as one character. */
  lemma {:induction false} AnsiDecodesEveryByte(input: seq<byte>, pos: nat)
    requires pos <= |input|
    ensures DecodeAll(input, pos, Ansi) == input[pos..]
    decreases |input| - pos
  {
    if pos < |input| {
      AnsiDecodesEveryByte(input, pos + 1);
      assert input[pos..] == [input[pos]] + input[pos + 1..];
    }
  }

  /** UTF-8 decoding of 7-bit bytes yields every byte as one character. */
  lemma {:induction false} Utf8DecodesAscii(input: seq<byte>, pos: nat)
    requires pos <= |input| && IsAscii(input[pos..])
    ensures DecodeAll(input, pos, Utf8) == input[pos..]
    decreases |input| - pos
  {
    if pos < |input| {
      assert input[pos] == input[pos..][0];
      assert input[pos..pos + 1] == [input[pos]];
      assert Utf8Value([input[pos]]) == input[pos];
      assert input[pos + 1..] == input[pos..][1..];
      Utf8DecodesAscii(input, pos + 1);
      assert input[pos..] == [input[pos]] + input[pos + 1..];
    }
  }

  /** ANSI and UTF-8 both write a 7-bit character as that one byte. */
  lemma {:induction false} AsciiWritesItself(fmt: Format, cs: seq<u32>)
    requires fmt == Ansi || fmt == Utf8
    requires IsAscii(cs)
    ensures WriteLine(fmt, cs) == Some(cs)
  {
    if |cs| > 0 {
      assert cs[0] == cs[..1][0];
      assert IsAscii(cs[1..]) by {
        forall i | 0 <= i < |cs| - 1 ensures 0 <= cs[1..][i] <= 0x7F {
          assert cs[1..][i] == cs[i + 1];
        }
      }
      AsciiWritesItself(fmt, cs[1..]);
      assert cs == [cs[0]] + cs[1..];
    }
  }
}
