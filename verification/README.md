# txu — a Dafny model of the text-encoding converter

`txu` converts a text file between four encodings: ANSI (one byte per
character), UTF-8 in the classic 1-to-6-byte layout, UTF-16 little endian
and UTF-16 big endian. Its core is a character codec in `txu.cpp`:

- `ReadChar` decodes one character.
- `WriteChar` encodes one character.
- `ReadLine` and `WriteLine` apply the codec to a whole line.
- `CheckBOM` sniffs the input's byte-order mark, or guesses ANSI for
  plain ASCII.
- `WriteBOM` writes the output's mark.
- The copy loop of `main` drives all of the above.
- `TxEncodingToName`, `TxEncodingFromName` and `OptionNameIs` handle
  encoding names and command-line switches.

This project models that core as pure functions over byte sequences and
proves properties of it.

The model follows the code as written, quirks included:
- the UTF-8 encoder puts the low bits of a character in the lead byte;
- the encoder writes only five bytes in its top band;
- a last line without a line feed is never copied;
- a decoding error ends the run successfully;
- the byte-order mark is sniffed, and skipped, even when the input
  encoding is given explicitly.

The module `Corrected` sets a corrected definition next to each defect and
proves the round trip the code was meant to complete.

Layout, one module per file:

| file | module | contents |
|---|---|---|
| `base.dfy` | `Base` | `byte`, the 32-bit `unsigned` as `u32`, `Option`, powers of 64 |
| `ascii.dfy` | `Ascii` | ASCII `tolower`, word characters, case-insensitive equality |
| `formats.dfy` | `Formats` | `TxEncoding` and its name conversions |
| `options.dfy` | `Options` | `OptionNameIs` |
| `reader.dfy` | `Reader` | `ReadChar` |
| `writer.dfy` | `Writer` | `WriteChar` and the layout of its UTF-8 encoder |
| `roundtrip.dfy` | `RoundTrip` | `ReadChar` after `WriteChar`, and the reverse, per encoding |
| `bom.dfy` | `Bom` | `CheckBOM`, `WriteBOM` |
| `lines.dfy` | `Lines` | `ReadLine`, `WriteLine`, the stream of decoded characters, ASCII through both |
| `convert.dfy` | `Convert` | the run of `main`, as a function and as a loop |
| `scenarios.dfy` | `Scenarios` | whole-run consequences on ASCII and on concrete inputs |
| `corrected.dfy` | `Corrected` | corrected encoder and line reader, and their properties |

Representation choices:
- Bytes are integers 0..255; a character is a `u32` (0..2^32-1).
- Every `c & mask`, `c >> k` and `c | prefix` of the source is written as a
  division, a remainder or an addition by a constant. The bits involved
  never overlap, so these are equal to the source's bit operations.
- A failed `ReadChar` is `None`. The source returns `false` alike for
  end of input, a sequence cut short and a byte that cannot start a
  sequence.
- The position of the input file is an offset into the byte sequence.

Where the source's own text and its code disagree, the model follows the
code:
- A decoding error is reported as an error ("Invalid character sequence",
  `txu.cpp:280-281`), yet it only ends the copy loop, and `main` then
  returns `EXIT_SUCCESS` (`txu.cpp:777`).
- The comment on `ReadLine` (`txu.cpp:320`) says it returns `false` only at
  end of file, yet when a read fails after characters were collected
  (`txu.cpp:331-333`) it returns `false` too, and those characters are
  never written: a last line without a line feed is dropped.
- The comment at `txu.cpp:350` says the encoder's numbers come from the
  UTF specifications. The UTF-8 layout of RFC 2279 (section 2) puts the
  highest bits in the lead byte, yet the encoder (`txu.cpp:361-456`)
  writes the lowest bits first.

## Model

| member | source | states |
|---|---|---|
| Formats.ToName | txu.cpp:39-47 | every name has at least four characters; `UNKNOWN` is the name of the unknown encoding and of no other |
| Formats.FromName | txu.cpp:52-60 | a recognised name equals the encoding's name up to case; `UNKNOWN` means the string matches no encoding's name |
| Formats.FromNameOfToName | txu.cpp:39-60 | parsing an encoding's own name gives back that encoding, `UNKNOWN` included |
| Formats.FromNameIgnoresCase | txu.cpp:52-60 | strings equal up to ASCII case parse to the same encoding |
| Options.MatchNameIsNameAtStart | txu.cpp:96-115 | the comparison loop accepts exactly when the name is a case-insensitive prefix of the argument, followed by the end of the argument or by a character that is not a letter, digit or `_` |
| Options.OptionNameIsSpec | txu.cpp:81-116 | a switch matches exactly when both strings are non-empty and the name starts the argument, after at most one leading `-` or `/`, at a word boundary |
| Options.LongSwitchExample | txu.cpp:625 | `/INFORMAT=UTF8` names the `INFORMAT` switch |
| Options.PrefixExample | txu.cpp:625 | `/INFORMAT=UTF8` does not name the `I` switch, though it starts with `I` |
| Options.ShortSwitchExample | txu.cpp:625 | `-i:ansi` names the `I` switch, whatever the case |
| Options.WordBoundaryExample | txu.cpp:645 | `-verbosely` does not name the `VERBOSE` switch, because the name must end at a word boundary |
| Reader.LeadLength | txu.cpp:207-282 | the lead-byte tests, as byte ranges: below 0x80 one byte, C0–DF two, E0–EF three, F0–F7 four, F8–FB five, FC–FD six; continuation bytes and FE, FF start nothing |
| Reader.ReadContinuations | txu.cpp:213-281 | the continuation loop fails exactly when the input ends before the announced number of bytes |
| Reader.ReadContinuationsValue | txu.cpp:213-281 | each continuation shifts the value six places and adds its low six bits: the result is the starting value above the run's six-bit groups |
| Reader.ReadUtf8 | txu.cpp:205-285 | succeeds exactly when the lead byte is valid and its whole sequence is present; consumes that many bytes; the value is below the band's limit |
| Reader.ReadUtf8Value | txu.cpp:205-285 | the value read is the lead's data bits above the continuations' six-bit groups, below the band's limit |
| Reader.ReadUtf8Decodes | txu.cpp:205-285 | the character `ReadUtf8` returns is the value of exactly the bytes it consumed |
| Reader.ReadChar | txu.cpp:189-315 | reads 1 byte for ANSI and 2 for UTF-16, failing exactly at the end of input; values below 256, 65536 and 2^31 respectively; `UNKNOWN` and `AUTO` never read |
| Reader.Utf8ValueBound | txu.cpp:205-285 | an n-byte sequence decodes below its band's limit (0x80, 0x800, … 0x80000000) |
| Writer.EncodeUtf8 | txu.cpp:361-456 | nothing above 0x7FFFFFFF; ASCII as itself; up to 0x3FFFFFF a lead byte announcing exactly the bytes written, chosen by the same bands as the decoder; the top band announces six bytes and writes five; every later byte is a continuation byte |
| Writer.EncodeUtf8LowFirstInverse | txu.cpp:361-456 | the encoder stores the value lowest group first: reading the lead's data bits as the lowest digits gives the value back, up to 0x3FFFFFF exactly and modulo 2^25 in the top band |
| Writer.WriteChar | txu.cpp:344-485 | fails exactly for `UNKNOWN` and `AUTO`; ANSI writes one byte, UTF-16 two, UTF-8 at most five |
| Writer.Utf16ByteOrders | txu.cpp:458-478 | the two UTF-16 writers emit the same two bytes in opposite orders |
| RoundTrip.ReadCharIgnoresSuffix | txu.cpp:189-315 | a successful read depends only on the bytes it consumes |
| RoundTrip.AnsiRoundTrip | txu.cpp:353-359 | an ANSI character read back is the written value modulo 256 |
| RoundTrip.Utf16RoundTrip | txu.cpp:458-478 | in either byte order, a character read back is the written value modulo 65536 |
| RoundTrip.FixedWidthBytesRoundTrip | txu.cpp:197-307 | for ANSI and both UTF-16 orders, writing a decoded character reproduces the bytes it was read from |
| RoundTrip.Utf8AsciiRoundTrip | txu.cpp:363-368 | UTF-8 round-trips every value up to 0x7F as one byte |
| RoundTrip.Utf8ReadsWhatWasWritten | txu.cpp:363-432 | up to 0x3FFFFFF the decoder consumes exactly the bytes the encoder wrote |
| RoundTrip.Utf8TopBandOverreads | txu.cpp:433-455 | above 0x3FFFFFF the written five bytes alone fail to decode, and otherwise the decoder takes one byte of what follows |
| RoundTrip.Utf8E9ReadsBackAs247 | txu.cpp:369-378 | U+00E9 is written as C9 87, which reads back as U+0247 |
| Bom.WriteBOM | txu.cpp:509-534 | a mark is written exactly for UTF-8, UTF-16 and UTF-16BE, is at most three bytes long and never starts with an ASCII byte |
| Bom.ScanAsciiMeans | txu.cpp:578-590 | the scan loop finds no byte above 127 exactly when every scanned byte is ASCII |
| Bom.CheckBOM | txu.cpp:544-592 | FE FF gives big-endian UTF-16, FF FE little-endian, EF BB BF UTF-8, each skipping its mark; otherwise ANSI exactly when there are at least 16 bytes and the first 32 are all ASCII; never `AUTO`; the skipped bytes are the mark of the result |
| Bom.CheckBOMFindsWrittenBOM | txu.cpp:509-592 | the mark `WriteBOM` writes for each Unicode encoding is recognised as that encoding and skipped |
| Lines.ReadLine | txu.cpp:322-337 | a line read is non-empty and ends in its only line feed, and reading it moves forward |
| Lines.ReadLineTakesFirstLine | txu.cpp:322-337 | a line is read exactly when a line feed is decoded before a read fails; it is the decoded characters up to that line feed |
| Lines.CompleteLines | txu.cpp:742-764 | the whole lines of a text: a prefix ending in a line feed, with none after it |
| Lines.WriteLine | txu.cpp:492-502 | fails exactly for a non-empty line in an encoding with no writer; ANSI writes one byte per character, UTF-16 two |
| Lines.WriteLineAppend | txu.cpp:492-502 | writing a line in two parts writes their concatenation |
| Lines.AnsiDecodesEveryByte | txu.cpp:197-203 | ANSI decodes every byte as one character |
| Lines.Utf8DecodesAscii | txu.cpp:209-212 | UTF-8 decodes ASCII bytes as themselves |
| Lines.AsciiWritesItself | txu.cpp:353-368 | ANSI and UTF-8 write ASCII text unchanged |
| Convert.Transcode | txu.cpp:686-764 | the run as a function: a failed run writes nothing; a successful one starts with the output mark |
| Convert.CopyLines | txu.cpp:741-764 | the copy loop writes the mark and every character up to the last line feed, and fails exactly when such a line cannot be written |
| Convert.Convert | txu.cpp:686-777 | sniffing, resolving `AUTO`, and the loop together produce exactly `Transcode`'s result |
| Scenarios.AsciiThroughUtf8AndBack | txu.cpp:686-764 | ASCII text declared ANSI and written as UTF-8 gets an EF BB BF mark; converting that back gives the whole lines of the original |
| Scenarios.AsciiToUtf8 | txu.cpp:686-764 | ASCII declared ANSI becomes its whole lines behind an EF BB BF mark |
| Scenarios.AsciiFromUtf8 | txu.cpp:686-764 | whole ASCII lines behind a UTF-8 mark, declared UTF-8 and written as ANSI, lose the mark and nothing else |
| Scenarios.DeclaredRunSucceeds | txu.cpp:686-764 | with a declared input encoding and a text output encoding the run succeeds |
| Scenarios.HelloToUtf16 | txu.cpp:686-764 | `Hello` and a line feed, declared ANSI, become FF FE and the characters in little-endian pairs |
| Scenarios.UnterminatedLineDropped | txu.cpp:322-337 | `A`, line feed, `B` converts to `A` and a line feed only, and the run succeeds |
| Scenarios.DecodeErrorEndsRun | txu.cpp:278-282 | an FF inside UTF-8 input ends the run successfully, losing its line and all that follows |
| Scenarios.ExplicitFormatSkipsMark | txu.cpp:686-698 | a UTF-8 mark is skipped even when the input is declared ANSI |
| Scenarios.EAcuteToUtf16BE | txu.cpp:686-764 | UTF-8 `é` with its mark, detected automatically, becomes FE FF 00 E9 00 0A |
| Corrected.EncodeUtf8Intended | txu.cpp:361-456 | corrected encoder: nothing above 0x7FFFFFFF; otherwise as many bytes as the value's band, a lead announcing them, continuation bytes 0x80-0xBF after it, decoding to the value itself |
| Corrected.IntendedUtf8RoundTrip | txu.cpp:205-285 | every value up to 0x7FFFFFFF written by the corrected encoder reads back as itself, consuming exactly the bytes written |
| Corrected.IntendedKeepsLengths | txu.cpp:363-432 | up to 0x3FFFFFF the correction changes no byte count, and ASCII is written as before |
| Corrected.WriteCharIntended | txu.cpp:344-485 | corrected `WriteChar`: fails exactly where `WriteChar` fails, and differs from it only for UTF-8 |
| Corrected.WriteLineIntended | txu.cpp:492-502 | corrected `WriteLine`: fails exactly where `WriteLine` fails, and differs from it only for UTF-8 |
| Corrected.ReadCharShiftBehind | txu.cpp:189-315 | a read that starts after a prefix gives what the same read gives without the prefix, offset by its length |
| Corrected.DecodeAllShiftBehind | txu.cpp:322-337 | the characters decoded after a prefix do not depend on the prefix |
| Corrected.IntendedTextDecodes | txu.cpp:492-502 | a line written by the corrected encoder decodes back to the same characters |
| Corrected.ReadLineIntended | txu.cpp:322-337 | corrected line reader: a line ends at its only line feed or where the next read fails |
| Corrected.ReadLineIntendedTakesLine | txu.cpp:322-337 | a corrected line exists exactly when a character can be decoded; it is a prefix of the decoded characters, ending at a line feed or at their end |
| Corrected.ReadAllIntendedIsDecodeAll | txu.cpp:742-764 | with the corrected reader the copy loop's lines add up to every decoded character |
| Corrected.TranscodeIntendedWritesAll | txu.cpp:686-764 | whenever the input encoding is declared, or is `AUTO` and sniffed, and the output encoding has a writer, the corrected run writes the mark and then every decoded character |
| Corrected.IntendedRunKeepsText | txu.cpp:686-764 | converting to UTF-8 with both corrections keeps the text, for a declared input encoding and for `AUTO` whenever it is sniffed: the output decodes to every character of the input, its last line included |
| Corrected.IntendedKeepsLastLine | txu.cpp:322-337 | `A`, line feed, `B` is copied whole by the corrected run |

## Left out

- File handling is not modelled: opening, closing and seeking files, and
  the `stdout` default. The input is a byte sequence, the output is the
  bytes written, and the run's exit status is a boolean.
- A failing `fwrite` is not modelled. `WriteChar` and `WriteLine` fail
  only where the source has no case for the encoding; `WriteBOM` never
  fails, since the source writes no mark for the other encodings.
- The argument loop of `main` (lines 618-670), `Usage` and `msg` are left
  out; so are the messages and the `ftell` offset printed on a decoding
  error. None of these affects the bytes converted.
- `OptionValue` (lines 127-164) is left out. The precedence slip at line
  152 makes its result undefined for some arguments.
- Only the run without `/VERBOSE` is modelled. The verbose block (lines
  700-728) stores the result of `fseek` (0 on success) as `OldPos` at
  line 703 and seeks back to it at lines 705 and 711, so it rewinds the
  input to offset 0: a mark that `CheckBOM` skipped is then decoded as a
  character (EF BB BF becomes U+FEFF).
  The `nLines`/`nChars` counters are left out; they are diagnostics only.
- A Dafny `string` stands for the characters of a C string before its
  terminating NUL; the model does not stop at a `'\0'` inside a string.
  Command-line arguments never contain one.
- `tolower`, `isalpha` and `isdigit` are modelled for ASCII. Locale
  behaviour is not modelled.
- Convert.Transcode requires a non-empty input. On an empty input, `main`
  closes the input file inside `CheckBOM` and then closes or reads it
  again, which is undefined. Bom.CheckBOM itself does handle the empty
  input: it reports `UNKNOWN` at offset 0.
- Convert.Transcode returns no output on failure. This is exact: an
  encoding without a writer writes no mark, and every line read holds at
  least its line feed, so the first line fails before any byte is
  written.
- The argument loop rejects an `UNKNOWN` input encoding and an
  `UNKNOWN` or `AUTO` output encoding. The model still accepts them: it
  reads nothing from an `UNKNOWN` input, and it fails on a line written
  in `UNKNOWN` or `AUTO`.
- Options.OptionNameIs has no contract of its own. Its meaning is stated
  by Options.OptionNameIsSpec.

## Findings

| source | as written | input that shows it | evidently intended | confidence | as-written member | corrected member |
|---|---|---|---|---|---|---|
| txu.cpp:361-456 | the lead byte takes the lowest bits (`Char & 0x1F`), and each continuation takes the next six after a right shift, so groups go out lowest first while `ReadChar` reads the lead as highest | U+00E9 is written C9 87 and read back as U+0247 | lead byte with the highest bits, continuations from high to low, so that `ReadChar` reads back what `WriteChar` wrote | high; not executed | RoundTrip.Utf8E9ReadsBackAs247 | Corrected.IntendedUtf8RoundTrip |
| txu.cpp:433-455 | the band up to 0x7FFFFFFF writes an FC/FD lead byte, which announces six bytes, and then only four continuations | 0x4000000 is written as five bytes, and the decoder takes one byte of the next character (or fails at the end of input) | six bytes: the lead and five continuations | high; not executed | RoundTrip.Utf8TopBandOverreads | Corrected.EncodeUtf8Intended |
| txu.cpp:322-337 | `ReadLine` returns `false` when a read fails after characters were collected, so the loop in `main` never writes them | `A`, line feed, `B` converts to `A` and a line feed | the characters collected are written as a last line | medium; not executed | Scenarios.UnterminatedLineDropped | Corrected.ReadAllIntendedIsDecodeAll |

The corrected members live in `Corrected`. The model of the program in
`Convert` keeps the code's behaviour. `Corrected.TranscodeIntended` is the
run with both corrections, and `Corrected.IntendedRunKeepsText` proves that
this corrected run converts text to UTF-8 without loss.
