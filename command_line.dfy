/** `parse_command_arguments`: walks the argument list (program name already
    dropped) left to right, updates a PyramidInfo field by field, and either returns
    the configuration or gives up. What the source prints along the way is returned
    as a list of messages rather than written out. */
module CommandLine {
  import opened RustText
  import opened Options

  /** A diagnostic line the parser prints. Only SizeOutOfRange lets parsing go on;
      every other message is printed just before the parser gives up. */
  datatype Message =
    | SizeOutOfRange
    | InvalidSize
    | NoSize
    | NoCharacter
    | NotOneCharacter
    | Usage
    | UnknownOption(arg: string)

  predicate Fatal(m: Message) {
    m != SizeOutOfRange
  }

  /** The text printed for each message. The range message and the parse-failure
      message are the same words. */
  function Text(m: Message): string {
    match m
    case SizeOutOfRange => "Invalid size. Please use a number between 1 and 4096\n"
    case InvalidSize => "Invalid size. Please use a number between 1 and 4096\n"
    case NoSize => "No size found. Need a size after '-s'.\n"
    case NoCharacter => "No character found. Need a character after '-c'.\n"
    case NotOneCharacter => "Please only use one character.\n"
    case Usage =>
      "Usage: soap [OPTION..]\n"
      + "\n"
      + "  -s, --size HEIGHT       Set the vertical size of the pyramid\n"
      + "  -c, --character CHAR    Set the character to be used in the pyramid\n"
      + "  -h, --help              Display this help and exit\n"
    case UnknownOption(arg) => "Unknown option: " + arg + "\n"
  }

  /** The outcome of parsing: `Some(info)` to draw, `None` to stop, and the
      messages printed on the way. */
  datatype Parsed = Parsed(info: Option<PyramidInfo>, printed: seq<Message>)

  function Prepend(m: seq<Message>, p: Parsed): Parsed {
    Parsed(p.info, m + p.printed)
  }

  /** Well-formed output: parsing stops exactly when the last printed message is a
      fatal one, and every earlier message is a range warning. */
  predicate WellFormed(p: Parsed) {
    (p.info.None? <==> |p.printed| > 0 && Fatal(p.printed[|p.printed| - 1]))
    && forall k :: 0 <= k < |p.printed| - 1 ==> p.printed[k] == SizeOutOfRange
  }

  /** Parsing the tokens `args` that remain, starting from configuration `info`. */
  function ParseFrom(args: seq<string>, info: PyramidInfo): Parsed
    decreases |args|
  {
    if |args| == 0 then Parsed(Some(info), [])
    else match Classify(args[0])
      case Size =>
        if |args| == 1 then Parsed(None, [NoSize])
        else (match ParseUsize(args[1])
          case None => Parsed(None, [InvalidSize])
          case Some(n) =>
            if n <= MAX_SIZE then ParseFrom(args[2..], info.(size := n))
            else Prepend([SizeOutOfRange], ParseFrom(args[2..], info)))
      case Character =>
        if |args| == 1 then Parsed(None, [NoCharacter])
        else if Utf8Len(args[1]) == 1 then ParseFrom(args[2..], info.(character := args[1][0]))
        else Parsed(None, [NotOneCharacter])
      case Help => Parsed(None, [Usage])
      case Unrecognized => Parsed(None, [UnknownOption(args[0])])
  }

  /** The parser's result for the whole argument list. */
  function Parse(args: seq<string>): Parsed {
    ParseFrom(args, Default())
  }

  /** The parser itself: a cursor over the tokens, a configuration updated in
      place, and an early exit on every fatal message. */
  method ParseCommandArguments(args: seq<string>) returns (result: Option<PyramidInfo>, printed: seq<Message>)
    ensures Parsed(result, printed) == Parse(args)
    ensures result.Some? ==> result.value.size <= MAX_SIZE
  {
    ParseBounded(args);
    var info := Default();
    printed := [];
    var i := 0;
    while i < |args|
      invariant 0 <= i <= |args|
      invariant Parse(args) == Prepend(printed, ParseFrom(args[i..], info))
    {
      ghost var rest := args[i..];
      var arg := args[i];
      i := i + 1;
      var option := Classify(arg);
      match option {
        case Size =>
          if i < |args| {
            var sizeString := args[i];
            i := i + 1;
            assert rest[2..] == args[i..];
            var parsed := ParseUsize(sizeString);
            if parsed.Some? {
              if parsed.value <= MAX_SIZE {
                info := info.(size := parsed.value);
              } else {
                printed := printed + [SizeOutOfRange];
              }
            } else {
              printed := printed + [InvalidSize];
              return None, printed;
            }
          } else {
            printed := printed + [NoSize];
            return None, printed;
          }
        case Character =>
          if i < |args| {
            var characterString := args[i];
            i := i + 1;
            assert rest[2..] == args[i..];
            if Utf8Len(characterString) == 1 {
              info := info.(character := characterString[0]);
            } else {
              printed := printed + [NotOneCharacter];
              return None, printed;
            }
          } else {
            printed := printed + [NoCharacter];
            return None, printed;
          }
        case Help =>
          printed := printed + [Usage];
          return None, printed;
        case Unrecognized =>
          printed := printed + [UnknownOption(arg)];
          return None, printed;
      }
    }
    result := Some(info);
  }

  // ---------------------------------------------------------------------------
  // Properties of the parser

  /** Whatever the tokens, parsing stops exactly when its last message is fatal,
      and every message before the last is a range warning. */
  lemma {:induction false} ParseFromWellFormed(args: seq<string>, info: PyramidInfo)
    ensures WellFormed(ParseFrom(args, info))
    decreases |args|
  {
    if |args| >= 2 {
      match Classify(args[0]) {
        case Size =>
          match ParseUsize(args[1]) {
            case Some(n) =>
              if n <= MAX_SIZE {
                ParseFromWellFormed(args[2..], info.(size := n));
              } else {
                ParseFromWellFormed(args[2..], info);
              }
            case None =>
          }
        case Character =>
          if Utf8Len(args[1]) == 1 {
            ParseFromWellFormed(args[2..], info.(character := args[1][0]));
          }
        case Help =>
        case Unrecognized =>
      }
    }
  }

  /** With no arguments the default configuration is drawn and nothing is printed. */
  lemma ParseEmpty()
    ensures Parse([]) == Parsed(Some(PyramidInfo(10, '*')), [])
  {
  }

  lemma {:induction false} ParseFromBounded(args: seq<string>, info: PyramidInfo)
    requires info.size <= MAX_SIZE
    ensures ParseFrom(args, info).info.Some? ==> ParseFrom(args, info).info.value.size <= MAX_SIZE
    decreases |args|
  {
    if |args| >= 2 {
      match Classify(args[0]) {
        case Size =>
          ParseFromBounded(args[2..], info);
          match ParseUsize(args[1]) {
            case Some(n) => if n <= MAX_SIZE { ParseFromBounded(args[2..], info.(size := n)); }
            case None =>
          }
        case Character =>
          if Utf8Len(args[1]) == 1 {
            ParseFromBounded(args[2..], info.(character := args[1][0]));
          }
        case Help =>
        case Unrecognized =>
      }
    }
  }

  /** A configuration the parser returns never has more than MAX_SIZE rows. */
  lemma ParseBounded(args: seq<string>)
    ensures Parse(args).info.Some? ==> Parse(args).info.value.size <= MAX_SIZE
  {
    ParseFromBounded(args, Default());
  }

  /** `-s`/`--size` consumes the next token: a missing or unparsable value stops
      parsing; a value up to MAX_SIZE replaces the size and nothing else; a larger
      one prints a warning, keeps the size, and parsing goes on after it. */
  lemma SizeOption(flag: string, rest: seq<string>, info: PyramidInfo)
    requires Classify(flag) == Size
    ensures rest == [] ==> ParseFrom([flag] + rest, info) == Parsed(None, [NoSize])
    ensures rest != [] && ParseUsize(rest[0]).None? ==>
      ParseFrom([flag] + rest, info) == Parsed(None, [InvalidSize])
    ensures rest != [] && ParseUsize(rest[0]).Some? && ParseUsize(rest[0]).value <= MAX_SIZE ==>
      ParseFrom([flag] + rest, info) == ParseFrom(rest[1..], PyramidInfo(ParseUsize(rest[0]).value, info.character))
    ensures rest != [] && ParseUsize(rest[0]).Some? && ParseUsize(rest[0]).value > MAX_SIZE ==>
      ParseFrom([flag] + rest, info) == Prepend([SizeOutOfRange], ParseFrom(rest[1..], info))
  {
    if rest != [] {
      assert ([flag] + rest)[2..] == rest[1..];
    }
  }

  /** `-c`/`--character` consumes the next token: a missing value, or one that is
      not a single ASCII character, stops parsing; a single ASCII character
      replaces the fill character and nothing else. */
  lemma CharacterOption(flag: string, rest: seq<string>, info: PyramidInfo)
    requires Classify(flag) == Character
    ensures rest == [] ==> ParseFrom([flag] + rest, info) == Parsed(None, [NoCharacter])
    ensures rest != [] && |rest[0]| == 1 && rest[0][0] as int < 0x80 ==>
      ParseFrom([flag] + rest, info) == ParseFrom(rest[1..], PyramidInfo(info.size, rest[0][0]))
    ensures rest != [] && !(|rest[0]| == 1 && rest[0][0] as int < 0x80) ==>
      ParseFrom([flag] + rest, info) == Parsed(None, [NotOneCharacter])
  {
    if rest != [] {
      assert ([flag] + rest)[2..] == rest[1..];
      Utf8LenIsOne(rest[0]);
    }
  }

  /** A help flag stops parsing with the usage text, whatever follows it. */
  lemma HelpOption(flag: string, rest: seq<string>, info: PyramidInfo)
    requires Classify(flag) == Help
    ensures ParseFrom([flag] + rest, info) == Parsed(None, [Usage])
  {
  }

  /** A token in flag position that names no option stops parsing and is echoed. */
  lemma UnknownToken(arg: string, rest: seq<string>, info: PyramidInfo)
    requires Classify(arg) == Unrecognized
    ensures ParseFrom([arg] + rest, info) == Parsed(None, [UnknownOption(arg)])
  {
  }

  /** Parsing is sequential: once a prefix of the tokens has been parsed without
      stopping, the rest is parsed from the configuration the prefix left. */
  lemma {:induction false} ParseFromConcat(a: seq<string>, b: seq<string>, info: PyramidInfo)
    requires ParseFrom(a, info).info.Some?
    ensures ParseFrom(a + b, info) == Prepend(ParseFrom(a, info).printed, ParseFrom(b, ParseFrom(a, info).info.value))
    decreases |a|, 2
  {
    if a == [] {
      assert a + b == b;
    } else {
      match Classify(a[0]) {
        case Size => ConcatAfterSize(a, b, info);
        case Character => ConcatAfterCharacter(a, b, info);
      }
    }
  }

  lemma {:induction false} ConcatAfterSize(a: seq<string>, b: seq<string>, info: PyramidInfo)
    requires a != [] && Classify(a[0]) == Size
    requires ParseFrom(a, info).info.Some?
    ensures ParseFrom(a + b, info) == Prepend(ParseFrom(a, info).printed, ParseFrom(b, ParseFrom(a, info).info.value))
    decreases |a|, 1
  {
    var ab := a + b;
    assert |a| >= 2;
    assert ab[0] == a[0] && ab[1] == a[1] && ab[2..] == a[2..] + b;
    var n := ParseUsize(a[1]).value;
    if n <= MAX_SIZE {
      var next := info.(size := n);
      assert ParseFrom(a, info) == ParseFrom(a[2..], next);
      assert ParseFrom(ab, info) == ParseFrom(a[2..] + b, next);
      ParseFromConcat(a[2..], b, next);
    } else {
      ConcatAfterLargeSize(a, b, info);
    }
  }

  lemma {:induction false} ConcatAfterLargeSize(a: seq<string>, b: seq<string>, info: PyramidInfo)
    requires |a| >= 2 && Classify(a[0]) == Size
    requires ParseUsize(a[1]).Some? && ParseUsize(a[1]).value > MAX_SIZE
    requires ParseFrom(a, info).info.Some?
    ensures ParseFrom(a + b, info) == Prepend(ParseFrom(a, info).printed, ParseFrom(b, ParseFrom(a, info).info.value))
    decreases |a|, 0
  {
    var ab := a + b;
    assert ab[0] == a[0] && ab[1] == a[1] && ab[2..] == a[2..] + b;
    var rest := ParseFrom(a[2..], info);
    assert ParseFrom(a, info) == Prepend([SizeOutOfRange], rest);
    assert ParseFrom(ab, info) == Prepend([SizeOutOfRange], ParseFrom(a[2..] + b, info));
    ParseFromConcat(a[2..], b, info);
    PrependPrepend([SizeOutOfRange], rest.printed, ParseFrom(b, rest.info.value));
  }

  lemma PrependPrepend(m: seq<Message>, n: seq<Message>, p: Parsed)
    ensures Prepend(m, Prepend(n, p)) == Prepend(m + n, p)
  {
    assert m + (n + p.printed) == (m + n) + p.printed;
  }

  lemma {:induction false} ConcatAfterCharacter(a: seq<string>, b: seq<string>, info: PyramidInfo)
    requires a != [] && Classify(a[0]) == Character
    requires ParseFrom(a, info).info.Some?
    ensures ParseFrom(a + b, info) == Prepend(ParseFrom(a, info).printed, ParseFrom(b, ParseFrom(a, info).info.value))
    decreases |a|, 1
  {
    var ab := a + b;
    assert |a| >= 2;
    assert ab[0] == a[0] && ab[1] == a[1] && ab[2..] == a[2..] + b;
    var next := info.(character := a[1][0]);
    assert ParseFrom(a, info) == ParseFrom(a[2..], next);
    assert ParseFrom(ab, info) == ParseFrom(a[2..] + b, next);
    ParseFromConcat(a[2..], b, next);
  }

  /** A help flag reached in flag position stops everything: the tokens before it
      only contribute their warnings, and nothing after it is examined. */
  lemma HelpStopsParsing(before: seq<string>, flag: string, after: seq<string>)
    requires Parse(before).info.Some?
    requires Classify(flag) == Help
    ensures Parse(before + [flag] + after) == Parsed(None, Parse(before).printed + [Usage])
  {
    assert before + [flag] + after == before + ([flag] + after);
    ParseFromConcat(before, [flag] + after, Default());
  }

  /** A size written in decimal: up to MAX_SIZE it is taken, above that (while it
      still fits a `usize`) it only draws a warning, and past `usize::MAX` the
      parse fails and parsing stops. */
  lemma {:induction false} DecimalSizeArgument(flag: string, n: nat, rest: seq<string>, info: PyramidInfo)
    requires Classify(flag) == Size
    ensures n <= MAX_SIZE ==>
      ParseFrom([flag, DecimalString(n)] + rest, info) == ParseFrom(rest, info.(size := n))
    ensures MAX_SIZE < n <= USIZE_MAX ==>
      ParseFrom([flag, DecimalString(n)] + rest, info) == Prepend([SizeOutOfRange], ParseFrom(rest, info))
    ensures USIZE_MAX < n ==>
      ParseFrom([flag, DecimalString(n)] + rest, info) == Parsed(None, [InvalidSize])
  {
    assert [flag, DecimalString(n)] + rest == [flag] + ([DecimalString(n)] + rest);
    assert ([DecimalString(n)] + rest)[1..] == rest;
    ParseUsizeOfDecimal(n);
    SizeOption(flag, [DecimalString(n)] + rest, info);
  }

  /** The boundary of the size range: 4096 is taken, 4097 only draws the warning
      and leaves the default in place, and 0 is taken although the message speaks
      of 1 to 4096. */
  lemma SizeBoundaryExamples()
    ensures Parse(["--size", DecimalString(4096)]) == Parsed(Some(PyramidInfo(4096, '*')), [])
    ensures Parse(["--size", DecimalString(4097)]) == Parsed(Some(PyramidInfo(10, '*')), [SizeOutOfRange])
    ensures Parse(["-s", DecimalString(0)]) == Parsed(Some(PyramidInfo(0, '*')), [])
  {
    assert Classify("--size") == Size;
    DecimalSizeArgument("--size", 4096, [], Default());
    DecimalSizeArgument("--size", 4097, [], Default());
    DecimalSizeArgument("-s", 0, [], Default());
    assert ["--size", DecimalString(4096)] + [] == ["--size", DecimalString(4096)];
    assert ["--size", DecimalString(4097)] + [] == ["--size", DecimalString(4097)];
    assert ["-s", DecimalString(0)] + [] == ["-s", DecimalString(0)];
  }

  /** Values that stop parsing: a size that is not a number (a help flag given as
      the value of `-s` is just such a value) and a character value that is two
      characters long. */
  lemma BadValueExamples()
    ensures Parse(["--size", "abc"]) == Parsed(None, [InvalidSize])
    ensures Parse(["-s", "-h"]) == Parsed(None, [InvalidSize])
    ensures Parse(["--character", "ab"]) == Parsed(None, [NotOneCharacter])
  {
    assert Classify("--size") == Size;
    assert Classify("-s") == Size;
    assert Classify("--character") == Character;
    assert !AllDigits("abc") by { assert !IsDigit("abc"[0]); }
    assert !AllDigits("-h") by { assert !IsDigit("-h"[0]); }
    assert Utf8Len("ab") == 2;
  }

  /** Flags in any order and any ASCII case; a help flag after a complete flag
      still stops everything; an unknown flag is echoed. */
  lemma FlagExamples()
    ensures Parse(["--character", "*", "--size", "3"]) == Parsed(Some(PyramidInfo(3, '*')), [])
    ensures Parse(["-S", "5"]) == Parse(["-s", "5"]) == Parsed(Some(PyramidInfo(5, '*')), [])
    ensures Parse(["-s", "5", "-h"]) == Parsed(None, [Usage])
    ensures Parse(["--bogus"]) == Parsed(None, [UnknownOption("--bogus")])
  {
    assert Classify("-s") == Size && Classify("-S") == Size && Classify("--size") == Size;
    assert Classify("--character") == Character;
    assert !EqIgnoreAsciiCase("-h", "-s") by { assert AsciiLower("-h"[1]) != AsciiLower("-s"[1]); }
    assert !EqIgnoreAsciiCase("-h", "-c") by { assert AsciiLower("-h"[1]) != AsciiLower("-c"[1]); }
    assert Classify("-h") == Help;
    assert Classify("--bogus") == Unrecognized;
    assert "5" == DecimalString(5);
    assert "3" == DecimalString(3);
    ParseUsizeOfDecimal(5);
    ParseUsizeOfDecimal(3);
    assert Utf8Len("*") == 1;
  }
}
