# soap in Dafny

`soap` is a small command-line program that draws a pyramid of characters. It
reads three options, each matched ignoring ASCII case:

- `-s`/`--size HEIGHT`: the number of rows, at most 4096, default 10.
- `-c`/`--character CHAR`: the fill character, default `*`.
- `-h`/`--help`: prints the usage text.

It then prints rows of padding spaces and fill characters, followed by a single
`'\0'`.

This project models the two routines of `src/main.rs`:

- `parse_command_arguments`, the argument parser. `CommandLine.ParseCommandArguments`
  is a method with a cursor loop. It updates a `PyramidInfo` field by field and
  leaves early on every fatal message. It is proved equal to the recursive
  specification function `CommandLine.Parse`.
- `pyramid`, the renderer. `Render.Pyramid` is a method with the source's nested
  `for` loops, pushing onto a buffer. It is proved equal to the specification
  function `Render.PyramidText` and as long as the capacity the source reserves.

Diagnostics are not printed. The parser returns them as a list of `Message`
values next to its `Option<PyramidInfo>` result. `CommandLine.Text` gives the
words of each message. The buffer is returned, not printed.

Files:

- `rust_text.dfy` (module `RustText`) holds the parts of Rust's string library
  the parser relies on:
  - `eq_ignore_ascii_case`;
  - `String::len`, which counts UTF-8 bytes;
  - `str::parse::<usize>` on a 64-bit target.
- `options.dfy` (module `Options`) holds `PyramidInfo`, its default, `SoapOption`
  and flag recognition.
- `command_line.dfy` (module `CommandLine`) holds the parser and its properties.
- `render.dfy` (module `Render`) holds the renderer and its properties.

Behaviour of the code that the model keeps, although the usage text and the
messages suggest otherwise:

- The buffer really ends in a `'\0'`, and it is part of the output.
- `-c` checks the value's length in UTF-8 bytes, so it accepts exactly one ASCII
  character. A single non-ASCII character such as `é` is refused.
- A help flag counts only where a flag is expected. As the value of `-s` or `-c`
  it is an ordinary value: `-s -h` stops with the invalid-size message.
- A size of 0 is accepted and draws nothing but the `'\0'`, although the message
  says "between 1 and 4096".
- A size above 4096 that still fits a `usize` only prints that message. The size
  stays as it was and parsing goes on.
- The source's `SoapOption::None` is called `Unrecognized` here, so it does not
  clash with `Option.None`.

## Model

| member | source | states |
|---|---|---|
| Options.Default | src/main.rs:12-18 | the starting configuration is within the accepted size range (10 rows of `*`) |
| RustText.AsciiLowercase | src/main.rs:38-50 | folding keeps the length and lower-cases each position independently |
| RustText.AsciiLower | src/main.rs:38-50 | definition: `to_ascii_lowercase` of one character, mapping 'A'..'Z' to 'a'..'z' and leaving every other character alone |
| RustText.EqIgnoreAsciiCase | src/main.rs:38-50 | definition of `eq_ignore_ascii_case`: the same length and equal after folding each position; characterised by `EqIgnoreAsciiCaseIsLowercaseEquality` |
| RustText.EqIgnoreAsciiCaseIsLowercaseEquality | src/main.rs:38-50 | `eq_ignore_ascii_case` holds exactly when both strings have the same ASCII lower-case form |
| Options.LowercasePattern | src/main.rs:38-50 | against a lower-case pattern, case-insensitive equality is equality of the token's lower-case form with the pattern |
| Options.Classify | src/main.rs:36-50 | definition: the source's if-chain, comparing the token with `-s`, `--size`, `-c`, `--character`, `-h` and `--help` in that order; characterised by `ClassifyByLowercase` |
| Options.OptionOfLowercase | src/main.rs:21-26 | reference definition of the option each lower-case spelling names, written independently of the if-chain |
| Options.ClassifyByLowercase | src/main.rs:36-50 | a token names `Size` for `-s`/`--size`, `Character` for `-c`/`--character`, `Help` for `-h`/`--help` (after ASCII lower-casing) and no option otherwise |
| Options.ClassifyIgnoresCase | src/main.rs:38-50 | two tokens that differ only in ASCII case name the same option |
| RustText.Utf8Width | src/main.rs:79 | a character takes 1 to 4 UTF-8 bytes, and exactly 1 when it is ASCII |
| RustText.Utf8Len | src/main.rs:79 | a string's byte length is at least its character count |
| RustText.Utf8LenIsOne | src/main.rs:79 | `len() == 1` holds exactly for a single ASCII character |
| RustText.DigitChar | src/main.rs:56 | a digit value below 10 is spelled by a digit character that reads back to it |
| RustText.DecimalString | src/main.rs:56 | a decimal spelling is non-empty and all digits |
| RustText.DecimalRoundTrip | src/main.rs:56 | reading the decimal spelling of `n` gives `n` back |
| RustText.DecimalValue | src/main.rs:56 | definition: the value of a digit string read most significant digit first |
| RustText.Zeros | src/main.rs:56 | a run of `k` zero digits has length `k` and holds only '0' |
| RustText.LeadingZeroValue | src/main.rs:56 | one leading zero leaves a digit string's value unchanged |
| RustText.ZerosPrefixValue | src/main.rs:56 | any number of leading zeros leave a digit string's value unchanged |
| RustText.PositiveValue | src/main.rs:56 | a digit string that does not start with '0' has a positive value |
| RustText.CanonicalSpelling | src/main.rs:56 | a digit string with no leading zero (or "0" itself) is the decimal spelling of its own value |
| RustText.ZerosThenCanonical | src/main.rs:56 | every non-empty digit string is some zeros followed by the decimal spelling of its value |
| RustText.ParseUsize | src/main.rs:56 | a successful `parse::<usize>` yields a value within `usize::MAX`, from a string that starts with a digit or '+'; `ParseUsizeOfSpelling` and `ParseUsizeAccepted` give its exact domain |
| RustText.ParseUsizeOfDecimal | src/main.rs:56 | every `usize` in decimal, with or without '+', parses back to itself; a decimal beyond `usize::MAX` fails to parse |
| RustText.ParseUsizeDigits | src/main.rs:56 | an optional '+' and a non-empty run of digits parse to the run's value, and fail when it exceeds `usize::MAX` |
| RustText.ParseUsizeOfSpelling | src/main.rs:56 | every optional '+', any number of leading zeros and the decimal digits of `v` parse to `v` when `v` fits a `usize`, and fail otherwise |
| RustText.ParseUsizeValue | src/main.rs:56 | a successful parse read a non-empty run of digits after an optional '+' and returns its value |
| RustText.ParseUsizeAccepted | src/main.rs:56 | conversely, every accepted string is an optional '+', some zeros and the decimal digits of the returned value, so any other character, a doubled sign or an empty value fails |
| RustText.ZeroPaddedExample | src/main.rs:56 | `007` parses to 7 |
| RustText.SignedZeroPaddedExample | src/main.rs:56 | `+010` parses to 10 |
| RustText.RefusedSpellingExamples | src/main.rs:56 | `12x`, `1 ` (with a trailing space), `+-1`, the empty string and a lone `+` all fail |
| CommandLine.ParseCommandArguments | src/main.rs:28-109 | the cursor loop returns exactly the result and messages of `Parse`, and any returned size is at most 4096 |
| CommandLine.Message | src/main.rs:60-102 | the diagnostics the parser prints: the range warning, an invalid size, a missing size, a missing character, a value that is not one character, the usage text, and an unknown option carrying the token |
| CommandLine.Text | src/main.rs:60-102 | definition: the exact words of each message, with the newline `println!` adds and the usage text verbatim (no newline added, as `print!` adds none) |
| CommandLine.Fatal | src/main.rs:60-104 | definition: every message except the range warning is followed by `return None` |
| CommandLine.ParseFrom | src/main.rs:36-108 | definition: the loop from a given cursor position and configuration, one flag (and its value) per step, with `Some(info)` when the tokens run out; `ParseCommandArguments` is proved equal to it |
| CommandLine.Parse | src/main.rs:28-109 | definition: `ParseFrom` from the default configuration (src/main.rs:34) |
| CommandLine.WellFormed | src/main.rs:52-105 | definition: parsing stops exactly when the last message is fatal, and every earlier message is a range warning; proved for all inputs by `ParseFromWellFormed` |
| CommandLine.ParseFromWellFormed | src/main.rs:52-105 | parsing stops exactly when its last message is fatal, and every earlier message is the non-fatal range warning |
| CommandLine.ParseEmpty | src/main.rs:34-108 | no arguments give `Some` of size 10 and `*`, with nothing printed |
| CommandLine.ParseFromBounded | src/main.rs:55-58 | from a configuration within range, every configuration returned is within 4096 rows |
| CommandLine.ParseBounded | src/main.rs:55-58 | every configuration the parser returns has at most 4096 rows |
| CommandLine.SizeOption | src/main.rs:53-75 | `-s` with no value or an unparsable one stops with the matching message; a value up to 4096 sets only the size; a larger one warns, keeps the size and parsing continues after it |
| CommandLine.DecimalSizeArgument | src/main.rs:53-71 | a decimal size up to 4096 is taken; above that it only warns while it fits a `usize`; past `usize::MAX` parsing stops |
| CommandLine.SizeBoundaryExamples | src/main.rs:55-64 | 4096 is taken, 4097 warns and keeps the default, and 0 is taken |
| CommandLine.CharacterOption | src/main.rs:77-88 | `-c` with no value stops; a single ASCII character sets only the fill character; any other value stops with "Please only use one character." |
| CommandLine.BadValueExamples | src/main.rs:65-84 | `--size abc` and `-s -h` stop with the invalid-size message, and `--character ab` stops with the one-character message |
| CommandLine.HelpOption | src/main.rs:90-99 | a help flag stops with the usage text whatever follows it |
| CommandLine.UnknownToken | src/main.rs:101-104 | a token naming no option stops parsing and is echoed in "Unknown option" |
| CommandLine.ParseFromConcat | src/main.rs:36-106 | once a prefix of the tokens is parsed without stopping, the rest is parsed from the configuration it left, after its messages |
| CommandLine.HelpStopsParsing | src/main.rs:90-99 | after any prefix that does not stop, a help flag ends parsing; the prefix's warnings and the usage text are the only output |
| CommandLine.FlagExamples | src/main.rs:38-50 | flags are taken in any order and case (`-S 5` is `-s 5`); a later `-h` still stops; an unknown flag is echoed |
| Render.Repeat | src/main.rs:114-118 | a run of `k` copies has length `k` |
| Render.Row | src/main.rs:114-120 | definition: row `r` of `n` is n−r−1 spaces, 2r+1 fill characters and a newline |
| Render.Rows | src/main.rs:113-121 | definition: the first `k` rows, in order |
| Render.PyramidText | src/main.rs:113-122 | definition: all rows followed by `'\0'`; `Pyramid` is proved equal to it |
| Render.Capacity | src/main.rs:112 | definition: the reserved capacity (3n²+n)/2 + 1; proved equal to the final length by `PyramidLength` |
| Render.LineStart | src/main.rs:113-121 | definition: the index r(2n+r+1)/2 at which row `r` starts; used by `RowInPyramid` |
| Render.Pyramid | src/main.rs:111-122 | the nested loops build exactly the pyramid text, whose length is the reserved capacity |
| Render.RowsLength | src/main.rs:113-121 | the first `k` rows of an `n`-row pyramid hold k(2n+k+1)/2 characters |
| Render.PyramidLength | src/main.rs:112 | the buffer's final length equals the reserved capacity (3n²+n)/2 + 1 |
| Render.CapacityFitsUsize | src/main.rs:112 | for n ≤ 4096 the capacity expression 3n²+n does not overflow a `usize` |
| Render.RowsPrefix | src/main.rs:113-121 | the buffer of fewer rows is a prefix of the buffer of more rows |
| Render.RowInPyramid | src/main.rs:113-121 | row `r` starts at r(2n+r+1)/2 and is n−r−1 spaces, 2r+1 fill characters and a newline |
| Render.Sentinel | src/main.rs:122 | the buffer is the rows followed by a final `'\0'`; with no rows it is just `"\0"` |
| Render.CountAppend | src/main.rs:113-122 | occurrences in a concatenation add up |
| Render.RepeatCount | src/main.rs:114-118 | a run of `k` copies of `c` contains `k` occurrences of `c` and none of any other character |
| Render.RowCount | src/main.rs:114-120 | a row holds n−r−1 spaces, 2r+1 fill characters and one newline |
| Render.Count | src/main.rs:113-122 | definition: how many times a character occurs in a string |
| Render.Spaces | src/main.rs:114 | definition: the padding spaces summed over the first `k` rows |
| Render.Fills | src/main.rs:117 | definition: the fill characters summed over the first `k` rows |
| Render.SpacesClosedForm | src/main.rs:114 | the first `k` rows hold k(2n−k−1)/2 padding spaces |
| Render.FillsClosedForm | src/main.rs:117 | the first `k` rows hold k² fill characters |
| Render.RowsCount | src/main.rs:113-121 | the number of times each character occurs in the first `k` rows |
| Render.PyramidCensus | src/main.rs:113-122 | the buffer holds n(n−1)/2 spaces, n² fill characters, n newlines and one `'\0'`; with a fill character other than a newline there are exactly n newlines, and with one other than `'\0'` exactly one `'\0'` |

## Left out

- Reading the command line (`std::env::args`, src/main.rs:29) is left out. The parser takes the argument list as a parameter, without the program name.
- Printing (`println!`, `print!`, src/main.rs:60-102 and 123) is left out. The parser returns its messages and the renderer returns its buffer. `CommandLine.Text` holds each message's words, including the usage text.
- `main` (src/main.rs:1-5) is left out. It only passes a parsed configuration to the renderer.
- `String::from_iter` and the `Vec` allocation (src/main.rs:112, 123) are left out. The buffer is a sequence, and the reserved capacity appears only as `Render.Capacity`, proved equal to the final length.
- `usize` is taken to be 64 bits wide. `RustText.ParseUsize` accepts an optional leading '+' and then decimal digits, as `usize::from_str` does.
- Render.Pyramid: the renderer takes any size and does not model the overflow of `3 * n * n` that a size near 2^31 would cause. The parser never returns a size above 4096, and `Render.CapacityFitsUsize` shows that no size up to 4096 overflows.
- Flag matching compares characters rather than UTF-8 bytes. This gives the same answer because the flag spellings are ASCII.
