/**
  The few operations of Rust's `str` and integer `Display` that the modelled code relies on:
  `str::trim`, `str::split` on a character, and the decimal rendering of integers
  (`i64::to_string` and friends). Strings are sequences of characters.
*/
module RustText {
  import opened Wrappers

  /** Rust's `char::is_whitespace`: the Unicode White_Space property. */
  predicate IsWhitespace(c: char) {
    || ('\t' <= c <= '\r')
    || c == ' '
    || c == '\U{0085}'
    || c == '\U{00A0}'
    || c == '\U{1680}'
    || ('\U{2000}' <= c <= '\U{200A}')
    || c == '\U{2028}'
    || c == '\U{2029}'
    || c == '\U{202F}'
    || c == '\U{205F}'
    || c == '\U{3000}'
  }

  /** `str::trim_start`: drops the leading whitespace and keeps the rest as it is. */
  function TrimStart(s: string): (r: string)
    ensures |r| <= |s| && r == s[|s| - |r|..]
    ensures forall i :: 0 <= i < |s| - |r| ==> IsWhitespace(s[i])
    ensures r != [] ==> !IsWhitespace(r[0])
  {
    if s != [] && IsWhitespace(s[0]) then TrimStart(s[1..]) else s
  }

  /** `str::trim_end`: drops the trailing whitespace and keeps the rest as it is. */
  function TrimEnd(s: string): (r: string)
    ensures |r| <= |s| && r == s[..|r|]
    ensures forall i :: |r| <= i < |s| ==> IsWhitespace(s[i])
    ensures r != [] ==> !IsWhitespace(r[|r| - 1])
  {
    if s != [] && IsWhitespace(s[|s| - 1]) then TrimEnd(s[..|s| - 1]) else s
  }

  /**
    `r` is the slice of `s` starting at `a`, and everything of `s` before and after that
    slice is whitespace.
  */
  predicate IsTrimmedSlice(s: string, r: string, a: int) {
    && 0 <= a <= |s| - |r| && r == s[a..a + |r|]
    && (forall i :: 0 <= i < a ==> IsWhitespace(s[i]))
    && (forall i :: a + |r| <= i < |s| ==> IsWhitespace(s[i]))
  }

  /** `str::trim`: the text between the leading and the trailing whitespace. */
  function Trim(s: string): (r: string)
    ensures |r| <= |s|
    ensures r != [] ==> !IsWhitespace(r[0]) && !IsWhitespace(r[|r| - 1])
    ensures r == [] <==> forall i :: 0 <= i < |s| ==> IsWhitespace(s[i])
    ensures exists a :: IsTrimmedSlice(s, r, a)
  {
    var t := TrimStart(s);
    var r := TrimEnd(t);
    assert r != [] ==> r[0] == t[0];
    TrimStartThenEndIsSlice(s);
    r
  }

  /** Trimming the end of what `TrimStart` left is a slice with only whitespace around it. */
  lemma TrimStartThenEndIsSlice(s: string)
    ensures IsTrimmedSlice(s, TrimEnd(TrimStart(s)), |s| - |TrimStart(s)|)
  {
    SuffixPrefixIsSlice(s, TrimStart(s), TrimEnd(TrimStart(s)));
  }

  /** A prefix `r` of a suffix `t` of `s`, with whitespace cut on both sides, is a trimmed slice of `s`. */
  lemma SuffixPrefixIsSlice(s: string, t: string, r: string)
    requires |t| <= |s| && t == s[|s| - |t|..]
    requires forall i :: 0 <= i < |s| - |t| ==> IsWhitespace(s[i])
    requires |r| <= |t| && r == t[..|r|]
    requires forall i :: |r| <= i < |t| ==> IsWhitespace(t[i])
    ensures IsTrimmedSlice(s, r, |s| - |t|)
  {
    var a := |s| - |t|;
    assert r == s[a..a + |r|];
    forall i | a + |r| <= i < |s|
      ensures IsWhitespace(s[i])
    {
      assert s[i] == t[i - a];
    }
  }

  /** Trimming twice is trimming once. */
  lemma TrimIdempotent(s: string)
    ensures Trim(Trim(s)) == Trim(s)
  {
    var r := Trim(s);
    TrimUnchangedWithoutSurroundingSpace(r);
  }

  /** A text that neither starts nor ends with whitespace is its own trim. */
  lemma TrimUnchangedWithoutSurroundingSpace(s: string)
    requires s != [] ==> !IsWhitespace(s[0]) && !IsWhitespace(s[|s| - 1])
    ensures Trim(s) == s
  {
  }

  /** The inverse of `Split`: the parts with `sep` between each two of them. */
  function Join(parts: seq<string>, sep: char): string
    requires |parts| >= 1
  {
    if |parts| == 1 then parts[0] else parts[0] + [sep] + Join(parts[1..], sep)
  }

  /**
    `s.split(sep).collect::<Vec<&str>>()`: the maximal pieces of `s` that do not contain
    `sep`, in order. There is always at least one piece, and joining the pieces gives `s` back.
  */
  function Split(s: string, sep: char): (r: seq<string>)
    ensures |r| >= 1
    ensures forall i :: 0 <= i < |r| ==> sep !in r[i]
    ensures Join(r, sep) == s
    ensures |r| == 1 <==> sep !in s
  {
    if s == [] then [[]]
    else
      var rest := Split(s[1..], sep);
      assert s == [s[0]] + s[1..];
      if s[0] == sep then
        assert ([[]] + rest)[1..] == rest;
        [[]] + rest
      else
        var r := [[s[0]] + rest[0]] + rest[1..];
        assert |rest| > 1 ==> r[1..] == rest[1..] && Join(rest, sep) == rest[0] + [sep] + Join(rest[1..], sep);
        r
  }

  /** A text without `sep` is one piece. */
  lemma SplitWithoutSeparator(s: string, sep: char)
    requires sep !in s
    ensures Split(s, sep) == [s]
  {
  }

  /** The first piece is the text before the first `sep`; the rest is the split of what follows it. */
  lemma {:induction false} SplitDropFirst(s: string, sep: char, n: nat)
    requires n < |s| && s[n] == sep && sep !in s[..n]
    ensures Split(s, sep) == [s[..n]] + Split(s[n + 1..], sep)
  {
    if n == 0 {
      assert s[1..] == s[n + 1..];
    } else {
      assert s[0] != sep by { assert s[0] == s[..n][0]; }
      assert s[1..][n - 1] == sep;
      assert s[1..][..n - 1] == s[1..n];
      assert sep !in s[1..n] by {
        forall i | 0 <= i < n - 1 ensures s[1..n][i] != sep {
          assert s[1..n][i] == s[..n][i + 1];
        }
      }
      SplitDropFirst(s[1..], sep, n - 1);
      assert s[1..][n..] == s[n + 1..];
      assert [s[0]] + s[1..n] == s[..n];
    }
  }

  /** The first piece of a split is the text before the first `sep` (or all of it). */
  lemma SplitFirstPiece(s: string, sep: char, k: nat)
    requires k <= |s| && sep !in s[..k] && (k == |s| || s[k] == sep)
    ensures Split(s, sep)[0] == s[..k]
  {
    if k == |s| {
      assert s[..k] == s;
      SplitWithoutSeparator(s, sep);
    } else {
      SplitDropFirst(s, sep, k);
    }
  }

  /** The second piece of a split is the text between the first and the second `sep`. */
  lemma SplitSecondPiece(a: string, sep: char, b: string, k: nat)
    requires sep !in a
    requires k <= |b| && sep !in b[..k] && (k == |b| || b[k] == sep)
    ensures |Split(a + [sep] + b, sep)| >= 2
    ensures Split(a + [sep] + b, sep)[1] == b[..k]
  {
    var s := a + [sep] + b;
    assert s[..|a|] == a && s[|a|] == sep && s[|a| + 1..] == b;
    SplitDropFirst(s, sep, |a|);
    SplitFirstPiece(b, sep, k);
  }

  predicate IsDigit(c: char) {
    '0' <= c <= '9'
  }

  function DigitChar(d: nat): (c: char)
    requires d < 10
    ensures IsDigit(c) && DigitValue(c) == d
  {
    ('0' as int + d) as char
  }

  function DigitValue(c: char): nat
    requires IsDigit(c)
  {
    c as int - '0' as int
  }

  predicate AllDigits(s: string) {
    forall i :: 0 <= i < |s| ==> IsDigit(s[i])
  }

  /** The decimal digits of a natural number, most significant first, without leading zeros. */
  function Digits(n: nat): (r: string)
    ensures r != [] && AllDigits(r)
    ensures r[0] == '0' ==> n == 0
    ensures n < 10 ==> |r| == 1
    decreases n
  {
    if n < 10 then [DigitChar(n)] else Digits(n / 10) + [DigitChar(n % 10)]
  }

  /** Rust's `Display` for every integer type: optional `-` and the digits of the magnitude. */
  function DecimalString(n: int): string {
    if n < 0 then "-" + Digits(-n) else Digits(n)
  }

  /** The number a string of decimal digits denotes. */
  function NatValue(s: string): nat
    requires AllDigits(s)
  {
    if s == [] then 0 else NatValue(s[..|s| - 1]) * 10 + DigitValue(s[|s| - 1])
  }

  /** Reads back an integer written by `DecimalString`; `None` for anything else. */
  function ParseDecimal(s: string): Option<int> {
    if |s| >= 2 && s[0] == '-' && AllDigits(s[1..]) then Some(-(NatValue(s[1..]) as int))
    else if s != [] && AllDigits(s) then Some(NatValue(s))
    else None
  }

  lemma {:induction false} DigitsRoundTrip(n: nat)
    ensures NatValue(Digits(n)) == n
    decreases n
  {
    if n >= 10 {
      var p := Digits(n / 10);
      var d := DigitChar(n % 10);
      assert (p + [d])[..|p + [d]| - 1] == p;
      DigitsRoundTrip(n / 10);
    }
  }

  /** Every integer reads back from its decimal rendering. */
  lemma DecimalRoundTrip(n: int)
    ensures ParseDecimal(DecimalString(n)) == Some(n)
  {
    if n < 0 {
      var d := Digits(-n);
      var s := "-" + d;
      assert s[1..] == d;
      assert |s| >= 2 && s[0] == '-' && AllDigits(s[1..]);
      DigitsRoundTrip(-n);
    } else {
      var d := Digits(n);
      assert d[0] != '-' by { assert IsDigit(d[0]); }
      DigitsRoundTrip(n);
    }
  }

  /** The rendering is canonical: a `-` only for negative numbers and no leading zero. */
  lemma DecimalCanonical(n: int)
    ensures var r := DecimalString(n);
      && (r[0] == '-' <==> n < 0)
      && (n != 0 ==> r[if n < 0 then 1 else 0] != '0')
  {
  }
}
