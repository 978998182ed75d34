/** The pyramid configuration and the recognised command-line options. */
module Options {
  import opened RustText

  /** Largest accepted number of rows. */
  const MAX_SIZE: nat := 4096

  /** What to draw: `size` rows of `character`. The source stores `size` as a
      `usize`; every value the parser produces is at most MAX_SIZE. */
  datatype PyramidInfo = PyramidInfo(size: nat, character: char)

  /** The configuration before any flag is read. */
  function Default(): (info: PyramidInfo)
    ensures info.size <= MAX_SIZE
  {
    PyramidInfo(10, '*')
  }

  /** The option a token names. `Unrecognized` is the source's `SoapOption::None`. */
  datatype SoapOption = Size | Character | Help | Unrecognized

  /** Flag recognition: the tokens are compared with each spelling in turn,
      ignoring ASCII case. */
  function Classify(arg: string): (option: SoapOption)
  {
    if EqIgnoreAsciiCase(arg, "-s") then Size
    else if EqIgnoreAsciiCase(arg, "--size") then Size
    else if EqIgnoreAsciiCase(arg, "-c") then Character
    else if EqIgnoreAsciiCase(arg, "--character") then Character
    else if EqIgnoreAsciiCase(arg, "-h") then Help
    else if EqIgnoreAsciiCase(arg, "--help") then Help
    else Unrecognized
  }

  /** The option named by an already lower-cased token. */
  function OptionOfLowercase(lower: string): SoapOption {
    if lower in {"-s", "--size"} then Size
    else if lower in {"-c", "--character"} then Character
    else if lower in {"-h", "--help"} then Help
    else Unrecognized
  }

  predicate NoAsciiUpper(p: string) {
    forall i :: 0 <= i < |p| ==> !IsAsciiUpper(p[i])
  }

  /** Against a pattern with no upper-case letter, case-insensitive equality is
      equality of the token's lower-case form with the pattern. */
  lemma LowercasePattern(arg: string, p: string)
    requires NoAsciiUpper(p)
    ensures EqIgnoreAsciiCase(arg, p) <==> AsciiLowercase(arg) == p
  {
    EqIgnoreAsciiCaseIsLowercaseEquality(arg, p);
    assert AsciiLowercase(p) == p;
  }

  /** Recognition is case-insensitive: a token names the option that its ASCII
      lower-case form names. */
  lemma ClassifyByLowercase(arg: string)
    ensures Classify(arg) == OptionOfLowercase(AsciiLowercase(arg))
  {
    LowercasePattern(arg, "-s");
    LowercasePattern(arg, "--size");
    LowercasePattern(arg, "-c");
    LowercasePattern(arg, "--character");
    LowercasePattern(arg, "-h");
    LowercasePattern(arg, "--help");
  }

  /** Two tokens that differ only in ASCII case name the same option. */
  lemma ClassifyIgnoresCase(a: string, b: string)
    requires AsciiLowercase(a) == AsciiLowercase(b)
    ensures Classify(a) == Classify(b)
  {
    ClassifyByLowercase(a);
    ClassifyByLowercase(b);
  }
}
