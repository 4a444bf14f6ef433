/** The per-character decoder `ReadChar`: one character of the input,
    starting at a byte offset, in a declared encoding. */
module Reader {
  import opened Base
  import opened Formats

  /** A decoded character and the offset of the first byte after it. */
  datatype Decoded = Decoded(value: u32, next: nat)

  /** Length of the UTF-8 sequence a lead byte announces, or 0 when the
      byte cannot start one (a continuation byte, 0xFE or 0xFF). Each test
      is the source's `(c & mask) == pattern`, a test of the byte's top
      bits, written as a division. */
  function LeadLength(b: byte): (n: nat)
    ensures n <= 6
    ensures n == 0 <==> (0x80 <= b < 0xC0 || 0xFE <= b)
    ensures n == 1 <==> b < 0x80
    ensures n == 2 <==> 0xC0 <= b < 0xE0
    ensures n == 3 <==> 0xE0 <= b < 0xF0
    ensures n == 4 <==> 0xF0 <= b < 0xF8
    ensures n == 5 <==> 0xF8 <= b < 0xFC
    ensures n == 6 <==> 0xFC <= b < 0xFE
  {
    if b / 0x80 == 0x00 then 1        // (c & 0x80) == 0
    else if b / 0x20 == 0x06 then 2   // (c & 0xE0) == 0xC0
    else if b / 0x10 == 0x0E then 3   // (c & 0xF0) == 0xE0
    else if b / 0x08 == 0x1E then 4   // (c & 0xF8) == 0xF0
    else if b / 0x04 == 0x3E then 5   // (c & 0xFC) == 0xF8
    else if b / 0x02 == 0x7E then 6   // (c & 0xFE) == 0xFC
    else 0
  }

  /** One more than the largest data field a lead byte of an `n`-byte
      sequence carries: 7 data bits alone, then 5, 4, 3, 2 and 1. */
  function LeadRadix(n: nat): (m: nat)
    requires 1 <= n <= 6
  {
    match n
    case 1 => 0x80
    case 2 => 0x20
    case 3 => 0x10
    case 4 => 0x08
    case 5 => 0x04
    case 6 => 0x02
  }

  /** The data bits of a lead byte (`c & ~0xE0` and its siblings). */
  function LeadData(b: byte, n: nat): (d: nat)
    requires 1 <= n <= 6 && LeadLength(b) == n
    ensures d < LeadRadix(n)
  {
    b % LeadRadix(n)
  }

  /** One more than the largest value an `n`-byte sequence can carry. */
  function BandLimit(n: nat): (m: nat)
    requires 1 <= n <= 6
  {
    match n
    case 1 => 0x80
    case 2 => 0x800
    case 3 => 0x1_0000
    case 4 => 0x20_0000
    case 5 => 0x400_0000
    case 6 => 0x8000_0000
  }

  /** The six data bits of a continuation byte (`c & 0x3F`). */
  function Payload(b: byte): (d: nat)
    ensures d < 0x40
  {
    b % 0x40
  }

  /** The six-bit payloads of a run of continuation bytes read
      as one number, most significant group first. */
  function Radix64(s: seq<byte>): nat
  {
    if |s| == 0 then 0 else Payload(s[0]) * Pow64(|s| - 1) + Radix64(s[1..])
  }

  lemma {:induction false} Radix64Bound(s: seq<byte>)
    ensures Radix64(s) < Pow64(|s|)
  {
    if |s| > 0 {
      Radix64Bound(s[1..]);
      var p := Pow64(|s| - 1);
      MulBound(Payload(s[0]), 63, p);
      assert Pow64(|s|) == 64 * p;
    }
  }

  lemma MulBound(a: nat, b: nat, p: nat)
    requires a <= b
    ensures a * p <= b * p
  {
  }

  /** The value of a whole UTF-8 sequence: the lead byte's data bits as the
      highest group, then each continuation's six bits. */
  function Utf8Value(s: seq<byte>): nat
    requires |s| >= 1 && LeadLength(s[0]) == |s|
  {
    LeadData(s[0], |s|) * Pow64(|s| - 1) + Radix64(s[1..])
  }

  lemma Utf8ValueBound(s: seq<byte>)
    requires |s| >= 1 && LeadLength(s[0]) == |s|
    ensures Utf8Value(s) < BandLimit(|s|)
  {
    var n := |s|;
    var d := LeadData(s[0], n);
    Radix64Bound(s[1..]);
    var r := Radix64(s[1..]);
    assert Pow64(1) == 0x40;
    assert Pow64(2) == 0x1000;
    assert Pow64(3) == 0x4_0000;
    assert Pow64(4) == 0x100_0000;
    assert Pow64(5) == 0x4000_0000;
    if n == 1 {
    } else if n == 2 {
      assert d * Pow64(1) <= 0x1F * 0x40;
    } else if n == 3 {
      assert d * Pow64(2) <= 0xF * 0x1000;
    } else if n == 4 {
      assert d * Pow64(3) <= 0x7 * 0x4_0000;
    } else if n == 5 {
      assert d * Pow64(4) <= 0x3 * 0x100_0000;
    } else {
      assert d * Pow64(5) <= 0x1 * 0x4000_0000;
    }
  }

  /** The continuation loop of the UTF-8 decoder: `k` more bytes from
      `pos`, each shifting the accumulator six places and adding its low
      six bits; `None` when the input ends first. */
  function ReadContinuations(input: seq<byte>, pos: nat, acc: nat, k: nat): (r: Option<nat>)
    requires pos <= |input|
    ensures r.Some? <==> pos + k <= |input|
    decreases k
  {
    if k == 0 then Some(acc)
    else if pos >= |input| then None
    else ReadContinuations(input, pos + 1, acc * 64 + Payload(input[pos]), k - 1)
  }

  /** The accumulated value: the starting accumulator above the run's
      six-bit groups. */
  lemma {:induction false} ReadContinuationsValue(input: seq<byte>, pos: nat, acc: nat, k: nat)
    requires pos <= |input|
    ensures var r := ReadContinuations(input, pos, acc, k);
      r.Some? ==> r.value == acc * Pow64(k) + Radix64(input[pos..pos + k])
    decreases k
  {
    if k > 0 && pos + k <= |input| {
      ReadContinuationsValue(input, pos + 1, acc * 64 + Payload(input[pos]), k - 1);
      var run := input[pos..pos + k];
      assert run[0] == input[pos] && run[1..] == input[pos + 1..pos + k];
      ContinuationStep(run, acc, k);
    }
  }

  /** One continuation byte moved from the run into the accumulator
      leaves the value unchanged. */
  lemma ContinuationStep(s: seq<byte>, acc: nat, k: nat)
    requires k >= 1 && |s| == k
    ensures (acc * 64 + Payload(s[0])) * Pow64(k - 1) + Radix64(s[1..])
      == acc * Pow64(k) + Radix64(s)
  {
    var p := Pow64(k - 1);
    var d := Payload(s[0]);
    assert Radix64(s) == d * p + Radix64(s[1..]);
    assert (acc * 64 + d) * p == acc * (64 * p) + d * p;
  }

  /** The `FMT_UTF8` case of `ReadChar`: a lead byte, then as many
      continuation bytes as it announces. Fails at the end of the input,
      on a byte that cannot lead, and on a sequence the input cuts short. */
  function ReadUtf8(input: seq<byte>, pos: nat): (r: Option<Decoded>)
    ensures r.Some? <==>
      pos < |input| && LeadLength(input[pos]) != 0 && pos + LeadLength(input[pos]) <= |input|
    ensures r.Some? ==>
      && r.value.next == pos + LeadLength(input[pos])
      && r.value.value < BandLimit(LeadLength(input[pos]))
  {
    if pos >= |input| then None
    else
      var n := LeadLength(input[pos]);
      if n == 0 then None
      else
        match ReadContinuations(input, pos + 1, LeadData(input[pos], n), n - 1)
        case None => None
        case Some(v) =>
          ReadUtf8Value(input, pos);
          Some(Decoded(v, pos + n))
  }

  /** The decoded value: the lead byte's data bits above the
      continuations' six-bit groups, below the band's limit. */
  lemma ReadUtf8Value(input: seq<byte>, pos: nat)
    requires pos < |input| && LeadLength(input[pos]) != 0 && pos + LeadLength(input[pos]) <= |input|
    ensures var n := LeadLength(input[pos]);
      var v := ReadContinuations(input, pos + 1, LeadData(input[pos], n), n - 1).value;
      v == Utf8Value(input[pos..pos + n]) && v < BandLimit(n)
  {
    var n := LeadLength(input[pos]);
    ReadContinuationsValue(input, pos + 1, LeadData(input[pos], n), n - 1);
    var s := input[pos..pos + n];
    assert s[0] == input[pos] && s[1..] == input[pos + 1..pos + n];
    Utf8ValueBound(s);
  }

  /** What `ReadUtf8` returns, in terms of the sequence it read. */
  lemma ReadUtf8Decodes(input: seq<byte>, pos: nat)
    requires ReadUtf8(input, pos).Some?
    ensures var r := ReadUtf8(input, pos).value;
      r.value == Utf8Value(input[pos..r.next])
  {
    ReadUtf8Value(input, pos);
  }

  /** `ReadChar`: `None` is the source's `false` (end of input, a sequence
      cut short, or a byte that cannot start a UTF-8 sequence). */
  function ReadChar(input: seq<byte>, pos: nat, fmt: Format): (r: Option<Decoded>)
    ensures r.Some? ==> pos < r.value.next <= |input| && r.value.value < 0x8000_0000
    ensures !IsTextFormat(fmt) ==> r.None?
    ensures fmt == Ansi ==>
      && (r.Some? <==> pos < |input|)
      && (r.Some? ==> r.value.next == pos + 1 && r.value.value < 0x100)
    ensures fmt == Utf16 || fmt == Utf16BE ==>
      && (r.Some? <==> pos + 2 <= |input|)
      && (r.Some? ==> r.value.next == pos + 2 && r.value.value < 0x1_0000)
  {
    match fmt
    case Ansi =>
      if pos < |input| then Some(Decoded(input[pos], pos + 1)) else None
    case Utf8 =>
      ReadUtf8(input, pos)
    case Utf16 =>
      if pos + 2 <= |input| then Some(Decoded(input[pos] as int + input[pos + 1] as int * 0x100, pos + 2))
      else None
    case Utf16BE =>
      if pos + 2 <= |input| then Some(Decoded(input[pos] as int * 0x100 + input[pos + 1] as int, pos + 2))
      else None
    case _ => None
  }
}
