/**
 * The pieces of Python's string handling that the loaders rely on:
 * `str.strip()`, `str.split(sep)` with a one-character separator, and
 * `int(text)` in base 10.
 */
module Text {
  import opened Outcomes
  import opened Sequences

  // ---------------------------------------------------------------------------
  // Whitespace and strip()
  // ---------------------------------------------------------------------------

  /** The characters `str.isspace()` holds for, which `strip()` and `int()` remove. */
  predicate IsSpace(ch: char) {
    ('\U{0009}' <= ch <= '\U{000D}') || ('\U{001C}' <= ch <= '\U{0020}') ||
    ch == '\U{0085}' || ch == '\U{00A0}' || ch == '\U{1680}' ||
    ('\U{2000}' <= ch <= '\U{200A}') || ch == '\U{2028}' || ch == '\U{2029}' ||
    ch == '\U{202F}' || ch == '\U{205F}' || ch == '\U{3000}'
  }

  predicate AllSpace(s: string) {
    forall k :: 0 <= k < |s| ==> IsSpace(s[k])
  }

  /** The text neither starts nor ends with whitespace. */
  predicate Trimmed(s: string) {
    s == [] || (!IsSpace(s[0]) && !IsSpace(s[|s| - 1]))
  }

  /** The number of whitespace characters `s` starts with. */
  function LeadingSpaces(s: string): (n: nat)
    ensures n <= |s|
    ensures AllSpace(s[..n])
    ensures n < |s| ==> !IsSpace(s[n])
  {
    if s != [] && IsSpace(s[0]) then
      var n' := LeadingSpaces(s[1..]);
      assert forall k :: 1 <= k < 1 + n' ==> s[k] == s[1..][k - 1];
      1 + n'
    else 0
  }

  /** The number of whitespace characters `s` ends with. */
  function TrailingSpaces(s: string): (n: nat)
    ensures n <= |s|
    ensures AllSpace(s[|s| - n..])
    ensures n < |s| ==> !IsSpace(s[|s| - n - 1])
  {
    if s != [] && IsSpace(s[|s| - 1]) then
      var n' := TrailingSpaces(s[..|s| - 1]);
      assert forall k :: |s| - 1 - n' <= k < |s| - 1 ==> s[k] == s[..|s| - 1][k];
      1 + n'
    else 0
  }

  /** `s.strip()`: the text without its leading and trailing whitespace. */
  function Strip(s: string): string {
    var t := s[LeadingSpaces(s)..];
    t[..|t| - TrailingSpaces(t)]
  }

  /**
   * `strip()` cuts `s` into whitespace, the stripped text and whitespace, and
   * the stripped text neither starts nor ends with whitespace.
   */
  lemma StripShape(s: string)
    ensures Trimmed(Strip(s))
    ensures exists a, b :: AllSpace(a) && AllSpace(b) && s == a + Strip(s) + b
  {
    StripTrims(s);
    StripParts(s);
  }

  lemma StripTrims(s: string)
    ensures Trimmed(Strip(s))
  {
    var i := LeadingSpaces(s);
    var t := s[i..];
    var j := TrailingSpaces(t);
    var r := t[..|t| - j];
    if r != [] {
      assert r[0] == s[i];
      assert r[|r| - 1] == t[|t| - j - 1];
    }
  }

  lemma StripParts(s: string)
    ensures exists a, b :: AllSpace(a) && AllSpace(b) && s == a + Strip(s) + b
  {
    var i := LeadingSpaces(s);
    var t := s[i..];
    var j := TrailingSpaces(t);
    StripDef(s);
    CutThree(s, i, j);
    assert AllSpace(s[..i]) && AllSpace(t[|t| - j..]);
  }

  lemma StripDef(s: string)
    ensures var t := s[LeadingSpaces(s)..]; Strip(s) == t[..|t| - TrailingSpaces(t)]
  {
  }

  /** Conversely, stripping whitespace off a trimmed text gives that text back. */
  lemma {:induction false} StripUnique(a: string, t: string, b: string)
    requires AllSpace(a) && AllSpace(b) && Trimmed(t)
    ensures Strip(a + t + b) == t
  {
    var s := a + t + b;
    if t == [] {
      assert s == (a + b) + [];
      LeadingSpacesOf(a + b, []);
    } else {
      assert s == a + (t + b);
      assert (t + b)[0] == t[0];
      LeadingSpacesOf(a, t + b);
      assert s[|a|..] == t + b;
      TrailingSpacesOf(t, b);
    }
  }

  lemma {:induction false} LeadingSpacesOf(a: string, u: string)
    requires AllSpace(a) && (u == [] || !IsSpace(u[0]))
    ensures LeadingSpaces(a + u) == |a|
  {
    if a != [] {
      assert (a + u)[1..] == a[1..] + u;
      LeadingSpacesOf(a[1..], u);
    } else {
      assert a + u == u;
    }
  }

  lemma {:induction false} TrailingSpacesOf(t: string, b: string)
    requires AllSpace(b) && (t == [] || !IsSpace(t[|t| - 1]))
    ensures TrailingSpaces(t + b) == |b|
  {
    if b != [] {
      assert (t + b)[..|t + b| - 1] == t + b[..|b| - 1];
      TrailingSpacesOf(t, b[..|b| - 1]);
    } else {
      assert t + b == t;
    }
  }

  /** Stripping twice is stripping once. */
  lemma StripIdempotent(s: string)
    ensures Strip(Strip(s)) == Strip(s)
  {
    StripShape(s);
    StripUnique([], Strip(s), []);
    assert [] + Strip(s) + [] == Strip(s);
  }

  // ---------------------------------------------------------------------------
  // split(sep)
  // ---------------------------------------------------------------------------

  /** `s.split(sep)`: the pieces between occurrences of `sep`, empty ones included. */
  function Split(s: string, sep: char): (parts: seq<string>)
    ensures |parts| >= 1
  {
    if s == [] then [[]]
    else
      var p := Split(s[..|s| - 1], sep);
      if s[|s| - 1] == sep then p + [[]]
      else p[..|p| - 1] + [p[|p| - 1] + [s[|s| - 1]]]
  }

  /** `sep.join(parts)`. */
  function Join(parts: seq<string>, sep: char): string
    requires |parts| >= 1
  {
    if |parts| == 1 then parts[0]
    else Join(parts[..|parts| - 1], sep) + [sep] + parts[|parts| - 1]
  }

  /**
   * Splitting yields one more piece than there are separators, no piece holds
   * the separator, and joining the pieces gives the text back.
   */
  lemma SplitSpec(s: string, sep: char)
    ensures |Split(s, sep)| == multiset(s)[sep] + 1
    ensures forall k :: 0 <= k < |Split(s, sep)| ==> sep !in Split(s, sep)[k]
    ensures Join(Split(s, sep), sep) == s
  {
    SplitCount(s, sep);
    SplitPieces(s, sep);
    SplitJoin(s, sep);
  }

  lemma {:induction false} SplitCount(s: string, sep: char)
    ensures |Split(s, sep)| == multiset(s)[sep] + 1
  {
    if s != [] {
      var s', x := s[..|s| - 1], s[|s| - 1];
      assert s == s' + [x];
      SplitCount(s', sep);
    }
  }

  lemma {:induction false} SplitPieces(s: string, sep: char)
    ensures forall k :: 0 <= k < |Split(s, sep)| ==> sep !in Split(s, sep)[k]
  {
    if s != [] {
      var s', x := s[..|s| - 1], s[|s| - 1];
      SplitPieces(s', sep);
    }
  }

  lemma {:induction false} SplitJoin(s: string, sep: char)
    ensures Join(Split(s, sep), sep) == s
  {
    if s != [] {
      var s', x := s[..|s| - 1], s[|s| - 1];
      assert s == s' + [x];
      var p := Split(s', sep);
      SplitJoin(s', sep);
      if x == sep {
        assert (p + [[]])[..|p|] == p;
      } else {
        var q := p[..|p| - 1];
        var last := p[|p| - 1] + [x];
        assert p == q + [p[|p| - 1]];
        if |p| == 1 {
          assert Join(q + [last], sep) == last;
        } else {
          assert (q + [last])[..|q|] == q;
          assert Join(p, sep) == Join(q, sep) + [sep] + p[|p| - 1];
        }
      }
    }
  }

  /** Joining pieces free of the separator and splitting again gives the pieces back. */
  lemma {:induction false} JoinSplit(parts: seq<string>, sep: char)
    requires |parts| >= 1
    requires forall k :: 0 <= k < |parts| ==> sep !in parts[k]
    ensures Split(Join(parts, sep), sep) == parts
  {
    if |parts| == 1 {
      SplitNoSep(parts[0], sep);
    } else {
      var q, w := parts[..|parts| - 1], parts[|parts| - 1];
      JoinSplit(q, sep);
      SplitAfterSep(Join(q, sep), sep, w);
      assert parts == q + [w];
    }
  }

  /** A text with exactly one separator splits into what precedes and what follows it. */
  lemma SplitOnce(a: string, b: string, sep: char)
    requires sep !in a && sep !in b
    ensures Split(a + [sep] + b, sep) == [a, b]
  {
    SplitNoSep(a, sep);
    SplitAfterSep(a, sep, b);
  }

  lemma {:induction false} SplitNoSep(w: string, sep: char)
    requires sep !in w
    ensures Split(w, sep) == [w]
  {
    if w != [] {
      SplitNoSep(w[..|w| - 1], sep);
      assert w[..|w| - 1] + [w[|w| - 1]] == w;
    }
  }

  /** Appending a separator and a separator-free piece appends that piece. */
  lemma {:induction false} SplitAfterSep(s: string, sep: char, w: string)
    requires sep !in w
    ensures Split(s + [sep] + w, sep) == Split(s, sep) + [w]
  {
    if w == [] {
      assert (s + [sep] + w)[..|s + [sep] + w| - 1] == s;
    } else {
      var w' := w[..|w| - 1];
      SplitAfterSep(s, sep, w');
      assert (s + [sep] + w)[..|s + [sep] + w| - 1] == s + [sep] + w';
      assert w' + [w[|w| - 1]] == w;
    }
  }

  // ---------------------------------------------------------------------------
  // int(text)
  // ---------------------------------------------------------------------------

  predicate IsDigit(ch: char) {
    '0' <= ch <= '9'
  }

  /** A run of ASCII digits, single underscores allowed between two digits. */
  predicate DigitRun(s: string) {
    && |s| > 0 && IsDigit(s[0]) && IsDigit(s[|s| - 1])
    && (forall k :: 0 <= k < |s| ==> IsDigit(s[k]) || s[k] == '_')
    && (forall k :: 0 <= k < |s| - 1 ==> s[k] == '_' ==> s[k + 1] != '_')
  }

  function DigitValue(ch: char): nat
    requires IsDigit(ch)
  {
    (ch as int) - ('0' as int)
  }

  /** The value of a string of digits read in base 10. */
  function DigitsValue(ds: string): nat
    requires forall k :: 0 <= k < |ds| ==> IsDigit(ds[k])
  {
    if ds == [] then 0 else 10 * DigitsValue(ds[..|ds| - 1]) + DigitValue(ds[|ds| - 1])
  }

  function IsDigitFn(): char -> bool {
    (ch: char) => IsDigit(ch)
  }

  /** The value of a digit run, its underscores skipped. */
  function RunValue(s: string): nat
    requires DigitRun(s)
  {
    FilterSpec(s, IsDigitFn());
    var ds := Filter(s, IsDigitFn());
    assert forall k :: 0 <= k < |ds| ==> ds[k] in ds;
    DigitsValue(ds)
  }

  /** Base-10 `int(text)` of a text with no surrounding whitespace: an optional sign, then a digit run. */
  function ParseDecimal(s: string): Option<int> {
    if |s| > 0 && (s[0] == '-' || s[0] == '+') then
      if DigitRun(s[1..]) then
        Some(if s[0] == '-' then -(RunValue(s[1..]) as int) else RunValue(s[1..]))
      else None
    else if DigitRun(s) then Some(RunValue(s))
    else None
  }

  /** `int(text)`: surrounding whitespace is ignored; None where Python raises ValueError. */
  function PyInt(s: string): Option<int> {
    ParseDecimal(Strip(s))
  }

  /** The decimal digits of `n`, most significant first. */
  function Digits(n: nat): (ds: string)
    ensures |ds| > 0
    ensures forall k :: 0 <= k < |ds| ==> IsDigit(ds[k])
  {
    if n < 10 then ['0' + n as char]
    else Digits(n / 10) + ['0' + (n % 10) as char]
  }

  /** `str(n)`. */
  function ShowInt(n: int): string {
    if n < 0 then ['-'] + Digits(-n) else Digits(n)
  }

  lemma {:induction false} DigitsValueOf(n: nat)
    ensures DigitsValue(Digits(n)) == n
  {
    if n >= 10 {
      DigitsValueOf(n / 10);
      var ds := Digits(n);
      assert ds[..|ds| - 1] == Digits(n / 10);
    }
  }

  lemma RunValueOfDigits(n: nat)
    ensures DigitRun(Digits(n))
    ensures RunValue(Digits(n)) == n
  {
    var ds := Digits(n);
    FilterAll(ds, IsDigitFn());
    DigitsValueOf(n);
  }

  lemma ParseDecimalDigits(n: nat)
    ensures ParseDecimal(Digits(n)) == Some(n)
    ensures ParseDecimal(['-'] + Digits(n)) == Some(-(n as int))
  {
    var ds := Digits(n);
    RunValueOfDigits(n);
    assert (['-'] + ds)[1..] == ds;
  }

  /** Reading back the decimal rendering of an integer gives the integer. */
  lemma PyIntShowInt(n: int)
    ensures PyInt(ShowInt(n)) == Some(n)
  {
    var s := ShowInt(n);
    assert Trimmed(s);
    StripUnique([], s, []);
    assert [] + s + [] == s;
    ParseDecimalDigits(if n < 0 then -n else n);
  }

  /** A text with no surrounding whitespace is its own strip. */
  lemma StripTrimmed(t: string)
    requires Trimmed(t)
    ensures Strip(t) == t
  {
    StripUnique([], t, []);
    assert [] + t + [] == t;
  }

  /** The rendering of an integer: a sign or digits, no whitespace around it. */
  lemma ShowIntShape(n: int)
    ensures var s := ShowInt(n);
      s != [] && Trimmed(s) && forall k :: 0 <= k < |s| ==> s[k] == '-' || IsDigit(s[k])
  {
  }

  /** A blank text is not an integer. */
  lemma PyIntBlank(s: string)
    requires AllSpace(s)
    ensures PyInt(s) == None
  {
    assert s + [] == s;
    LeadingSpacesOf(s, []);
  }
}
