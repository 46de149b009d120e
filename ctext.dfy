/** The pieces of C text handling both programs rely on: isspace in the
    C locale, the scanf conversions %d and %Ns, printf's %d, and the cut
    that snprintf (or strncpy followed by a terminator) makes when text
    does not fit a fixed-size buffer. Strings are sequences of chars that
    hold no NUL. */
module CText {
  import opened Common

  predicate IsSpace(c: char) {
    c == ' ' || c == '\t' || c == '\n' || c == '\r' || c as int == 11 || c as int == 12
  }

  predicate IsDigit(c: char) {
    '0' <= c <= '9'
  }

  predicate AllDigits(s: string) {
    forall i :: 0 <= i < |s| ==> IsDigit(s[i])
  }

  /** A token %s can read whole: not empty, no white space. */
  predicate IsWord(s: string) {
    |s| > 0 && forall i :: 0 <= i < |s| ==> !IsSpace(s[i])
  }

  /** What a buffer of cap bytes holds after snprintf(buf, cap, "%s", s):
      at most cap - 1 characters, a prefix of s. */
  function Bounded(s: string, cap: nat): (r: string)
    requires cap > 0
    ensures |r| < cap && r <= s
    ensures |s| < cap ==> r == s
    ensures |s| >= cap ==> |r| == cap - 1
  {
    if |s| < cap then s else s[..cap - 1]
  }

  /** The white space every scanf conversion except %c skips first. */
  function SkipSpace(s: string): (r: string)
    ensures |r| <= |s|
    ensures r != [] ==> !IsSpace(r[0])
  {
    if s != [] && IsSpace(s[0]) then SkipSpace(s[1..]) else s
  }

  /** Length of the run of decimal digits that starts s. */
  function DigitRun(s: string): (n: nat)
    ensures n <= |s| && AllDigits(s[..n])
    ensures n < |s| ==> !IsDigit(s[n])
  {
    if s != [] && IsDigit(s[0]) then
      var n := 1 + DigitRun(s[1..]);
      assert s[..n] == [s[0]] + s[1..][..n - 1];
      n
    else 0
  }

  function DigitValue(c: char): nat {
    if IsDigit(c) then c as int - '0' as int else 0
  }

  /** The decimal value of a run of digits. */
  function DigitsValue(d: string): nat {
    if d == [] then 0 else 10 * DigitsValue(d[..|d| - 1]) + DigitValue(d[|d| - 1])
  }

  /** The digits part of %d: the value of the leading run of digits and
      the text after it, or None when u does not start with a digit. */
  function ScanDigitRun(u: string): (r: Option<(int, string)>)
    ensures r.Some? ==> r.value.0 >= 0 && |r.value.1| < |u|
  {
    var n := DigitRun(u);
    if n == 0 then None else Some((DigitsValue(u[..n]) as int, u[n..]))
  }

  /** The %d conversion: white space, an optional sign, then at least one
      digit. Gives the value and the text after the last digit read, or
      None where scanf reports that nothing was converted. */
  function ScanInt(s: string): (r: Option<(int, string)>)
    ensures r.Some? ==> |r.value.1| < |s|
  {
    var t := SkipSpace(s);
    if t != [] && t[0] == '-' then
      var r := ScanDigitRun(t[1..]);
      if r.None? then None else Some((-r.value.0, r.value.1))
    else if t != [] && t[0] == '+' then ScanDigitRun(t[1..])
    else ScanDigitRun(t)
  }

  function Digit(d: nat): (c: char)
    requires d < 10
    ensures IsDigit(c) && c as int - '0' as int == d
  {
    ('0' as int + d) as char
  }

  /** printf's %d of a non-negative value: no sign, no leading zeros. */
  function FormatNat(n: nat): (s: string)
    ensures |s| > 0 && AllDigits(s)
  {
    if n < 10 then [Digit(n)] else FormatNat(n / 10) + [Digit(n % 10)]
  }

  /** printf's %d. */
  function FormatInt(i: int): (s: string)
    ensures |s| > 0 && !IsSpace(s[0])
  {
    if i < 0 then "-" + FormatNat(-i) else FormatNat(i)
  }

  lemma {:induction false} FormatNatValue(n: nat)
    ensures DigitsValue(FormatNat(n)) == n
  {
    if n >= 10 {
      var p := FormatNat(n / 10);
      var s := p + [Digit(n % 10)];
      assert s[..|s| - 1] == p;
      FormatNatValue(n / 10);
    }
  }

  lemma {:induction false} DigitRunOfDigits(d: string, rest: string)
    requires AllDigits(d)
    requires rest == [] || !IsDigit(rest[0])
    ensures DigitRun(d + rest) == |d|
  {
    if d != [] {
      assert (d + rest)[1..] == d[1..] + rest;
      DigitRunOfDigits(d[1..], rest);
    }
  }

  lemma SkipNoSpace(s: string)
    requires s != [] && !IsSpace(s[0])
    ensures SkipSpace(s) == s
  {}

  lemma ScanDigitRunOf(f: string, rest: string)
    requires |f| > 0 && AllDigits(f)
    requires rest == [] || !IsDigit(rest[0])
    ensures ScanDigitRun(f + rest) == Some((DigitsValue(f) as int, rest))
  {
    DigitRunOfDigits(f, rest);
    assert (f + rest)[..|f|] == f && (f + rest)[|f|..] == rest;
  }

  /** %d reads a run of digits whole. */
  lemma ScanDigits(f: string, rest: string)
    requires |f| > 0 && AllDigits(f)
    requires rest == [] || !IsDigit(rest[0])
    ensures ScanInt(f + rest) == Some((DigitsValue(f) as int, rest))
  {
    assert (f + rest)[0] == f[0];
    SkipNoSpace(f + rest);
    ScanDigitRunOf(f, rest);
  }

  lemma ScanMinus(u: string, m: int, rest: string)
    requires ScanDigitRun(u) == Some((m, rest))
    ensures ScanInt("-" + u) == Some((-m, rest))
  {
    var s := "-" + u;
    assert s[1..] == u;
    SkipNoSpace(s);
  }

  /** A minus sign and the digits of m are read back as -m. */
  lemma ScanNegative(m: int, rest: string)
    requires m > 0
    requires rest == [] || !IsDigit(rest[0])
    ensures ScanInt(FormatInt(-m) + rest) == Some((-m, rest))
  {
    var f := FormatNat(m);
    FormatNatValue(m);
    ScanDigitRunOf(f, rest);
    assert FormatInt(-m) + rest == "-" + (f + rest);
    ScanMinus(f + rest, m, rest);
  }

  /** Reading back with %d what printf's %d wrote gives the same number,
      and scanning stops where the number ends. */
  lemma ScanFormattedInt(i: int, rest: string)
    requires rest == [] || !IsDigit(rest[0])
    ensures ScanInt(FormatInt(i) + rest) == Some((i, rest))
  {
    if i < 0 {
      ScanNegative(-i, rest);
    } else {
      FormatNatValue(i);
      ScanDigits(FormatNat(i), rest);
    }
  }

  /** Length of the token %Ns reads from s: up to width characters that
      are not white space. */
  function WordRun(s: string, width: nat): (n: nat)
    ensures n <= |s| && n <= width
    ensures n < |s| && n < width ==> IsSpace(s[n])
  {
    if s != [] && width > 0 && !IsSpace(s[0]) then 1 + WordRun(s[1..], width - 1) else 0
  }

  /** The token WordRun measures holds no white space. */
  lemma {:induction false} WordRunNoSpace(s: string, width: nat)
    ensures forall i :: 0 <= i < WordRun(s, width) ==> !IsSpace(s[i])
  {
    if s != [] && width > 0 && !IsSpace(s[0]) {
      WordRunNoSpace(s[1..], width - 1);
      assert forall i :: 1 <= i < WordRun(s, width) ==> s[i] == s[1..][i - 1];
    }
  }

  /** The %Ns conversion: skip white space, then read a token of at most
      width characters. None at end of input. */
  function ScanWord(s: string, width: nat): (r: Option<(string, string)>)
    requires width > 0
    ensures r.Some? ==> IsWord(r.value.0) && |r.value.0| <= width
    ensures r.Some? ==> |r.value.1| < |s|
  {
    var t := SkipSpace(s);
    if t == [] then None
    else
      var n := WordRun(t, width);
      WordRunNoSpace(t, width);
      assert forall i :: 0 <= i < n ==> t[..n][i] == t[i];
      Some((t[..n], t[n..]))
  }

  /** fscanf(f, "%<w1>s %<w2>s", a, b): the tokens converted, in order;
      the count fscanf returns is the length (0 stands for EOF). */
  function ScanTwoWords(s: string, w1: nat, w2: nat): (r: seq<string>)
    requires w1 > 0 && w2 > 0
    ensures |r| <= 2
    ensures |r| > 0 ==> IsWord(r[0]) && |r[0]| <= w1
    ensures |r| > 1 ==> IsWord(r[1]) && |r[1]| <= w2
  {
    match ScanWord(s, w1)
    case None => []
    case Some((a, rest)) =>
      match ScanWord(rest, w2)
      case None => [a]
      case Some((b, _)) => [a, b]
  }

  lemma {:induction false} WordRunOfWord(w: string, rest: string, width: nat)
    requires forall i :: 0 <= i < |w| ==> !IsSpace(w[i])
    requires |w| <= width
    requires rest == [] || IsSpace(rest[0])
    ensures WordRun(w + rest, width) == |w|
  {
    if w != [] {
      assert (w + rest)[1..] == w[1..] + rest;
      WordRunOfWord(w[1..], rest, width - 1);
    }
  }

  /** "%s %s\n" written with two tokens that fit the widths is read back
      by "%<w1>s %<w2>s" as the same two tokens. */
  lemma ScanTwoFormattedWords(a: string, b: string, w1: nat, w2: nat)
    requires w1 > 0 && w2 > 0
    requires IsWord(a) && |a| <= w1 && IsWord(b) && |b| <= w2
    ensures ScanTwoWords(a + " " + b + "\n", w1, w2) == [a, b]
  {
    var s := a + " " + b + "\n";
    var rest := " " + b + "\n";
    assert s == a + rest;
    WordRunOfWord(a, rest, w1);
    assert s[..|a|] == a && s[|a|..] == rest;
    assert SkipSpace(rest) == b + "\n" by {
      assert rest[1..] == b + "\n";
    }
    WordRunOfWord(b, "\n", w2);
    assert (b + "\n")[..|b|] == b;
  }
}
