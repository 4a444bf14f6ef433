/** The text encodings the converter knows (`TxEncoding`) and the mapping
    between an encoding and its name on the command line. */
module Formats {
  import opened Ascii

  /** `FMT_UNKNOWN`, `FMT_AUTO`, `FMT_ANSI`, `FMT_UTF8`, `FMT_UTF16`
      (little endian) and `FMT_UTF16BE`. */
  datatype Format = Unknown | Auto | Ansi | Utf8 | Utf16 | Utf16BE

  /** The four encodings a file can actually be read or written in; the
      codec's `switch` statements fail on the other two. */
  predicate IsTextFormat(t: Format)
  {
    t == Ansi || t == Utf8 || t == Utf16 || t == Utf16BE
  }

  /** `TxEncodingToName`. */
  function ToName(t: Format): (name: string)
    ensures |name| >= 4
    ensures t == Unknown <==> name == "UNKNOWN"
  {
    match t
    case Auto => "AUTO"
    case Ansi => "ANSI"
    case Utf8 => "UTF8"
    case Utf16 => "UTF16"
    case Utf16BE => "UTF16BE"
    case Unknown => "UNKNOWN"
  }

  /** `TxEncodingFromName`: the encoding whose name equals `s` up to case,
      `Unknown` when there is none. */
  function FromName(s: string): (t: Format)
    ensures t != Unknown ==> EqualsIgnoreCase(s, ToName(t))
    ensures t == Unknown ==> forall u :: u != Unknown ==> !EqualsIgnoreCase(s, ToName(u))
  {
    if EqualsIgnoreCase(s, "AUTO") then Auto
    else if EqualsIgnoreCase(s, "ANSI") then Ansi
    else if EqualsIgnoreCase(s, "UTF8") then Utf8
    else if EqualsIgnoreCase(s, "UTF16") then Utf16
    else if EqualsIgnoreCase(s, "UTF16BE") then Utf16BE
    else Unknown
  }

  /** Every encoding, `Unknown` included, is recovered from its own name. */
  lemma FromNameOfToName(t: Format)
    ensures FromName(ToName(t)) == t
  {
    match t
    case Unknown =>
      forall u | u != Unknown
        ensures !EqualsIgnoreCase("UNKNOWN", ToName(u))
      {
        assert ToName(u)[1] != 'N' || |ToName(u)| != 7;
      }
    case Auto =>
    case Ansi =>
      assert !EqualsIgnoreCase("ANSI", "AUTO") by { assert Lower("ANSI"[1]) != Lower("AUTO"[1]); }
    case Utf8 =>
      assert !EqualsIgnoreCase("UTF8", "AUTO") by { assert Lower("UTF8"[0]) != Lower("AUTO"[0]); }
      assert !EqualsIgnoreCase("UTF8", "ANSI") by { assert Lower("UTF8"[0]) != Lower("ANSI"[0]); }
    case Utf16 =>
    case Utf16BE =>
  }

  /** Name lookup ignores case: two names equal up to case select the same
      encoding. */
  lemma FromNameIgnoresCase(s: string, s': string)
    requires EqualsIgnoreCase(s, s')
    ensures FromName(s) == FromName(s')
  {
  }
}
