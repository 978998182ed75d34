/** `pyramid`: builds the text of the pyramid in a character buffer. Row `r` of
    `n` is `n - r - 1` spaces, `2r + 1` fill characters and a newline; after the
    last row the buffer gets one '\0'. The buffer is returned instead of printed. */
module Render {
  import opened RustText
  import opened Options

  /** `k` copies of `c`. */
  function Repeat(c: char, k: nat): (s: string)
    ensures |s| == k
  {
    if k == 0 then [] else Repeat(c, k - 1) + [c]
  }

  /** Row `r` (counting from 0) of an `n`-row pyramid filled with `c`. */
  function Row(n: nat, r: nat, c: char): string
    requires r < n
  {
    Repeat(' ', n - r - 1) + Repeat(c, 2 * r + 1) + "\n"
  }

  /** The first `k` rows of an `n`-row pyramid. */
  function Rows(n: nat, k: nat, c: char): string
    requires k <= n
  {
    if k == 0 then [] else Rows(n, k - 1, c) + Row(n, k - 1, c)
  }

  /** The whole buffer: every row, then the '\0' sentinel. */
  function PyramidText(info: PyramidInfo): string {
    Rows(info.size, info.size, info.character) + ['\0']
  }

  /** The capacity the source reserves for the buffer: (3n² + n)/2 + 1. */
  function Capacity(n: nat): nat {
    (3 * n * n + n) / 2 + 1
  }

  /** The buffer index at which row `r` starts. */
  function LineStart(n: nat, r: nat): nat {
    r * (2 * n + r + 1) / 2
  }

  /** The renderer: nested loops that push spaces, fill characters, a newline per
      row and finally the sentinel. The buffer it builds is exactly as long as the
      capacity reserved for it. */
  method Pyramid(info: PyramidInfo) returns (buffer: seq<char>)
    ensures buffer == PyramidText(info)
    ensures |buffer| == Capacity(info.size)
  {
    var n, c := info.size, info.character;
    buffer := [];
    for row := 0 to n
      invariant buffer == Rows(n, row, c)
    {
      for column := 0 to n - row - 1
        invariant buffer == Rows(n, row, c) + Repeat(' ', column)
      {
        AppendOne(Rows(n, row, c), Repeat(' ', column), ' ');
        buffer := buffer + [' '];
      }
      var padded := buffer;
      for column := 0 to row * 2 + 1
        invariant buffer == padded + Repeat(c, column)
      {
        AppendOne(padded, Repeat(c, column), c);
        buffer := buffer + [c];
      }
      buffer := buffer + ['\n'];
    }
    buffer := buffer + ['\0'];
    PyramidLength(info);
  }

  lemma AppendOne(prefix: string, run: string, c: char)
    ensures prefix + run + [c] == prefix + (run + [c])
  {
  }

  // ---------------------------------------------------------------------------
  // Length

  lemma MulDistributes(a: int, x: int, y: int)
    ensures a * (x + y) == a * x + a * y
    ensures (x + y) * a == x * a + y * a
  {
  }

  lemma {:induction false} RowsLength(n: nat, k: nat, c: char)
    requires k <= n
    ensures 2 * |Rows(n, k, c)| == k * (2 * n + k + 1)
  {
    if k > 0 {
      RowsLength(n, k - 1, c);
      assert |Row(n, k - 1, c)| == n + k;
      var x: int := 2 * n + k;
      var m: int := k - 1;
      assert 2 * |Rows(n, k - 1, c)| == m * x;
      MulDistributes(x, m, 1);
      MulDistributes(k, x, 1);
      assert m * x + 2 * (n + k) == k * (x + 1);
    }
  }

  /** The buffer ends up exactly as long as the capacity reserved for it. */
  lemma PyramidLength(info: PyramidInfo)
    ensures |PyramidText(info)| == Capacity(info.size)
  {
    var n := info.size;
    RowsLength(n, n, info.character);
    MulDistributes(n, 3 * n, 1);
  }

  /** For every accepted size the capacity arithmetic `3 * n * n + n` stays within
      `usize`, so the reservation cannot overflow. */
  lemma CapacityFitsUsize(n: nat)
    requires n <= MAX_SIZE
    ensures 3 * n * n + n <= USIZE_MAX
  {
    var gap: int := MAX_SIZE - n;
    assert gap * n >= 0 && gap * 4096 >= 0;
    MulDistributes(n, n, gap);
    MulDistributes(4096, n, gap);
  }

  // ---------------------------------------------------------------------------
  // Layout

  lemma {:induction false} RowsPrefix(n: nat, j: nat, k: nat, c: char)
    requires j <= k <= n
    ensures Rows(n, j, c) <= Rows(n, k, c)
    decreases k
  {
    if j < k {
      RowsPrefix(n, j, k - 1, c);
    }
  }

  /** Row `r` of the buffer, starting at LineStart(n, r), is `n - r - 1` spaces,
      `2r + 1` fill characters and a newline. */
  lemma RowInPyramid(info: PyramidInfo, r: nat)
    requires r < info.size
    ensures LineStart(info.size, r) + info.size + r + 1 < |PyramidText(info)|
    ensures PyramidText(info)[LineStart(info.size, r)..LineStart(info.size, r) + info.size + r + 1]
         == Repeat(' ', info.size - r - 1) + Repeat(info.character, 2 * r + 1) + "\n"
  {
    var n, c := info.size, info.character;
    var t := PyramidText(info);
    RowsLength(n, r, c);
    RowsPrefix(n, r + 1, n, c);
    var start := |Rows(n, r, c)|;
    assert start == LineStart(n, r);
    var upto := Rows(n, r + 1, c);
    assert upto == Rows(n, r, c) + Row(n, r, c);
    assert |upto| == start + n + r + 1;
    assert t[start..start + n + r + 1] == upto[start..];
  }

  /** The buffer is the rows followed by one '\0'; with no rows it is just "\0". */
  lemma Sentinel(info: PyramidInfo)
    ensures |PyramidText(info)| >= 1
    ensures PyramidText(info)[|PyramidText(info)| - 1] == '\0'
    ensures PyramidText(info)[..|PyramidText(info)| - 1] == Rows(info.size, info.size, info.character)
    ensures info.size == 0 ==> PyramidText(info) == ['\0']
  {
  }

  // ---------------------------------------------------------------------------
  // Character census

  /** How many times `d` occurs in `s`. */
  function Count(s: string, d: char): nat {
    if s == [] then 0 else (if s[0] == d then 1 else 0) + Count(s[1..], d)
  }

  lemma {:induction false} CountAppend(a: string, b: string, d: char)
    ensures Count(a + b, d) == Count(a, d) + Count(b, d)
  {
    if a == [] {
      assert a + b == b;
    } else {
      assert (a + b)[1..] == a[1..] + b;
      CountAppend(a[1..], b, d);
    }
  }

  lemma {:induction false} RepeatCount(c: char, k: nat, d: char)
    ensures Count(Repeat(c, k), d) == if d == c then k else 0
  {
    if k > 0 {
      RepeatCount(c, k - 1, d);
      CountAppend(Repeat(c, k - 1), [c], d);
    }
  }

  lemma RowCount(n: nat, r: nat, c: char, d: char)
    requires r < n
    ensures Count(Row(n, r, c), d)
         == (if d == ' ' then n - r - 1 else 0) + (if d == c then 2 * r + 1 else 0) + (if d == '\n' then 1 else 0)
  {
    var spaces, fills := Repeat(' ', n - r - 1), Repeat(c, 2 * r + 1);
    RepeatCount(' ', n - r - 1, d);
    RepeatCount(c, 2 * r + 1, d);
    CountAppend(spaces, fills, d);
    CountAppend(spaces + fills, "\n", d);
  }

  /** The number of padding spaces in the first `k` rows of `n`. */
  function Spaces(n: nat, k: nat): nat
    requires k <= n
  {
    if k == 0 then 0 else Spaces(n, k - 1) + (n - k)
  }

  /** The number of fill characters in the first `k` rows. */
  function Fills(k: nat): nat {
    if k == 0 then 0 else Fills(k - 1) + (2 * k - 1)
  }

  lemma {:induction false} SpacesClosedForm(n: nat, k: nat)
    requires k <= n
    ensures 2 * Spaces(n, k) == k * (2 * n - k - 1)
  {
    if k > 0 {
      SpacesClosedForm(n, k - 1);
      MulDistributes(2 * n - k, k, -1);
      MulDistributes(k, 2 * n - k, -1);
    }
  }

  lemma {:induction false} FillsClosedForm(k: nat)
    ensures Fills(k) == k * k
  {
    if k > 0 {
      FillsClosedForm(k - 1);
      MulDistributes(k - 1, k, -1);
      MulDistributes(k, k, -1);
    }
  }

  lemma {:induction false} RowsCount(n: nat, k: nat, c: char, d: char)
    requires k <= n
    ensures Count(Rows(n, k, c), d)
         == (if d == ' ' then Spaces(n, k) else 0) + (if d == c then Fills(k) else 0) + (if d == '\n' then k else 0)
  {
    if k > 0 {
      RowsCount(n, k - 1, c, d);
      RowCount(n, k - 1, c, d);
      CountAppend(Rows(n, k - 1, c), Row(n, k - 1, c), d);
    }
  }

  /** How often each character occurs in the buffer: n(n - 1)/2 padding spaces,
      n² fill characters, n newlines and one '\0' (added together when the fill
      character is one of the others). So with an ordinary fill character the
      buffer holds exactly `n` lines and exactly one '\0'. */
  lemma PyramidCensus(info: PyramidInfo, d: char)
    ensures 2 * Count(PyramidText(info), d)
         == (if d == ' ' then info.size * (info.size - 1) else 0)
          + (if d == info.character then 2 * (info.size * info.size) else 0)
          + (if d == '\n' then 2 * info.size else 0)
          + (if d == '\0' then 2 else 0)
    ensures info.character != '\n' ==> Count(PyramidText(info), '\n') == info.size
    ensures info.character != '\0' ==> Count(PyramidText(info), '\0') == 1
  {
    var n, c := info.size, info.character;
    var rows := Rows(n, n, c);
    CountAppend(rows, ['\0'], d);
    CountAppend(rows, ['\0'], '\n');
    CountAppend(rows, ['\0'], '\0');
    RowsCount(n, n, c, d);
    RowsCount(n, n, c, '\n');
    RowsCount(n, n, c, '\0');
    SpacesClosedForm(n, n);
    FillsClosedForm(n);
    var m: int := n;
    assert 2 * m - m - 1 == m - 1;
  }
}
