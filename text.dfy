/**
 * The parts of Python's `str` that the game scripts rely on: `isspace`,
 * `strip`, `split()`, `int(s)`, the regular expression `\d+`, and `<` on
 * strings. Characters are Unicode code points, as in Python 3.
 */
module Text {
  import opened Base
  import opened Collections

  /** `c.isspace()`: the characters `strip()` and `split()` skip. */
  predicate IsSpace(c: char) {
    || ('\t' <= c <= '\r') || ('\U{1c}' <= c <= ' ')
    || c == '\U{85}' || c == '\U{a0}' || c == '\U{1680}'
    || ('\U{2000}' <= c <= '\U{200a}') || c == '\U{2028}' || c == '\U{2029}'
    || c == '\U{202f}' || c == '\U{205f}' || c == '\U{3000}'
  }

  /**
   * The whitespace `int()` skips around its literal: `isspace` except the
   * ASCII separators U+001C to U+001F, which CPython's `int()` keeps and
   * then rejects.
   */
  predicate IntSpace(c: char) {
    IsSpace(c) && !('\U{1c}' <= c <= '\U{1f}')
  }

  /** An ASCII decimal digit. */
  predicate IsDigit(c: char) {
    '0' <= c <= '9'
  }

  predicate NotSpace(c: char) {
    !IsSpace(c)
  }

  predicate NotDigit(c: char) {
    !IsDigit(c)
  }

  /** The length of the longest prefix of `s` whose characters all satisfy `p`. */
  function Span(s: string, p: char -> bool): (n: nat)
    ensures n <= |s|
    ensures forall i | 0 <= i < n :: p(s[i])
    ensures n < |s| ==> !p(s[n])
  {
    if s == [] || !p(s[0]) then 0 else 1 + Span(s[1..], p)
  }

  predicate AllSpace(s: string) {
    forall i | 0 <= i < |s| :: IsSpace(s[i])
  }

  /** Every character of `t` satisfies `ws`. */
  predicate All(t: string, ws: char -> bool) {
    forall i | 0 <= i < |t| :: ws(t[i])
  }

  /** `s.lstrip(chars)`, the characters given by `ws`: `s` without its leading run of them. */
  function LStripBy(s: string, ws: char -> bool): string {
    if s != [] && ws(s[0]) then LStripBy(s[1..], ws) else s
  }

  /** `s.rstrip(chars)`: `s` without its trailing run of characters satisfying `ws`. */
  function RStripBy(s: string, ws: char -> bool): string {
    if s != [] && ws(s[|s| - 1]) then RStripBy(s[..|s| - 1], ws) else s
  }

  /** `s.strip(chars)`: both ends. */
  function StripBy(s: string, ws: char -> bool): string {
    RStripBy(LStripBy(s, ws), ws)
  }

  /** `s.strip()` */
  function Strip(s: string): string {
    StripBy(s, IsSpace)
  }

  /** Left stripping removes a prefix of `ws` characters, and what is left does not start with one. */
  lemma {:induction false} LStripSpec(s: string, ws: char -> bool)
    ensures |LStripBy(s, ws)| <= |s| && LStripBy(s, ws) == s[|s| - |LStripBy(s, ws)|..]
    ensures All(s[..|s| - |LStripBy(s, ws)|], ws)
    ensures LStripBy(s, ws) != [] ==> !ws(LStripBy(s, ws)[0])
  {
    if s != [] && ws(s[0]) {
      LStripSpec(s[1..], ws);
      assert s[..|s| - |LStripBy(s, ws)|] == [s[0]] + s[1..][..|s| - 1 - |LStripBy(s, ws)|];
    }
  }

  /** Right stripping removes a suffix of `ws` characters, and what is left does not end with one. */
  lemma {:induction false} RStripSpec(s: string, ws: char -> bool)
    ensures |RStripBy(s, ws)| <= |s| && RStripBy(s, ws) == s[..|RStripBy(s, ws)|]
    ensures All(s[|RStripBy(s, ws)|..], ws)
    ensures RStripBy(s, ws) != [] ==> !ws(RStripBy(s, ws)[|RStripBy(s, ws)| - 1])
  {
    if s != [] && ws(s[|s| - 1]) {
      RStripSpec(s[..|s| - 1], ws);
      assert s[|RStripBy(s, ws)|..] == s[..|s| - 1][|RStripBy(s, ws)|..] + [s[|s| - 1]];
    }
  }

  /**
   * Stripping removes `ws` characters from the two ends only: what is left
   * is a contiguous part of `s` between two runs of them, it neither starts
   * nor ends with one, and it is empty exactly when `s` is made of them.
   */
  lemma StripBySpec(s: string, ws: char -> bool)
    ensures exists i | 0 <= i <= |s| - |StripBy(s, ws)| ::
      s[i..i + |StripBy(s, ws)|] == StripBy(s, ws) && All(s[..i], ws) && All(s[i + |StripBy(s, ws)|..], ws)
    ensures StripBy(s, ws) != [] ==> !ws(StripBy(s, ws)[0]) && !ws(StripBy(s, ws)[|StripBy(s, ws)| - 1])
    ensures StripBy(s, ws) == [] <==> All(s, ws)
  {
    var l := LStripBy(s, ws);
    LStripSpec(s, ws);
    RStripSpec(l, ws);
    var i := |s| - |l|;
    var r := StripBy(s, ws);
    assert s[i..i + |r|] == r;
    assert s[i + |r|..] == l[|r|..];
    if r == [] {
      assert s == s[..i] + s[i..];
      assert s[i..] == l;
    } else {
      assert r[0] == l[0] == s[i];
    }
  }

  /**
   * `strip()` removes whitespace from the two ends only: what is left is a
   * contiguous part of `s` between two runs of whitespace, it neither
   * starts nor ends with whitespace, and it is empty exactly when `s` is
   * all whitespace.
   */
  lemma StripSpec(s: string)
    ensures exists i | 0 <= i <= |s| - |Strip(s)| ::
      s[i..i + |Strip(s)|] == Strip(s) && AllSpace(s[..i]) && AllSpace(s[i + |Strip(s)|..])
    ensures Strip(s) != [] ==> !IsSpace(Strip(s)[0]) && !IsSpace(Strip(s)[|Strip(s)| - 1])
    ensures Strip(s) == [] <==> AllSpace(s)
  {
    StripBySpec(s, IsSpace);
    var r := Strip(s);
    var i :| 0 <= i <= |s| - |r| && s[i..i + |r|] == r && All(s[..i], IsSpace) && All(s[i + |r|..], IsSpace);
    AllIsSpace(s[..i]);
    AllIsSpace(s[i + |r|..]);
    AllIsSpace(s);
  }

  lemma AllIsSpace(t: string)
    ensures All(t, IsSpace) <==> AllSpace(t)
  {
  }

  /** A string that neither starts nor ends with a `ws` character is left as it is. */
  lemma StripByTrimmed(s: string, ws: char -> bool)
    requires s != [] ==> !ws(s[0]) && !ws(s[|s| - 1])
    ensures StripBy(s, ws) == s
  {
  }

  /** A string that neither starts nor ends with whitespace is its own `strip()`. */
  lemma StripTrimmed(s: string)
    requires s != [] ==> !IsSpace(s[0]) && !IsSpace(s[|s| - 1])
    ensures Strip(s) == s
  {
    StripByTrimmed(s, IsSpace);
  }

  /** A string whose first character is kept keeps it first after stripping. */
  lemma StripByFirst(s: string, ws: char -> bool)
    requires s != [] && !ws(s[0])
    ensures StripBy(s, ws) != [] && StripBy(s, ws)[0] == s[0]
  {
    assert LStripBy(s, ws) == s;
    RStripSpec(s, ws);
    var m := |RStripBy(s, ws)|;
    assert forall j | m <= j < |s| :: s[m..][j - m] == s[j];
    assert RStripBy(s, ws)[0] == s[0];
  }

  /** A leading `ws` character is stripped away. */
  lemma StripByLeading(c: char, s: string, ws: char -> bool)
    requires ws(c)
    ensures StripBy([c] + s, ws) == StripBy(s, ws)
  {
    assert ([c] + s)[1..] == s;
  }

  /** `strip()` is idempotent. */
  lemma StripStrip(s: string)
    ensures Strip(Strip(s)) == Strip(s)
  {
    StripSpec(s);
    StripTrimmed(Strip(s));
  }

  /** A non-empty run of non-whitespace characters: what `split()` yields. */
  predicate IsWord(w: string) {
    w != [] && forall i | 0 <= i < |w| :: !IsSpace(w[i])
  }

  /** `s.split()`: the maximal runs of non-whitespace, in order. */
  function Split(s: string): (ws: seq<string>)
    ensures forall k | 0 <= k < |ws| :: IsWord(ws[k])
    decreases |s|
  {
    var t := s[Span(s, IsSpace)..];
    if t == [] then []
    else
      var n := Span(t, NotSpace);
      [t[..n]] + Split(t[n..])
  }

  /** `split()` finds no word exactly in a blank text. */
  lemma SplitBlank(s: string)
    ensures Split(s) == [] <==> AllSpace(s)
  {
    var a := Span(s, IsSpace);
    if AllSpace(s) {
      assert a == |s|;
    }
    if a == |s| {
      assert forall i | 0 <= i < |s| :: IsSpace(s[i]);
    }
  }

  /** Leading whitespace does not change the words. */
  lemma SplitSkip(c: char, s: string)
    requires IsSpace(c)
    ensures Split([c] + s) == Split(s)
  {
    var cs := [c] + s;
    assert cs[1..] == s;
    assert Span(cs, IsSpace) == 1 + Span(s, IsSpace);
    assert cs[Span(cs, IsSpace)..] == s[Span(s, IsSpace)..];
  }

  /** A word followed by nothing or by whitespace is the first word. */
  lemma SplitWord(w: string, s: string)
    requires IsWord(w) && (s == [] || IsSpace(s[0]))
    ensures Split(w + s) == [w] + Split(s)
  {
    var t := w + s;
    assert Span(t, IsSpace) == 0 by {
      assert t[0] == w[0];
    }
    assert t[0..] == t;
    var n := Span(t, NotSpace);
    assert n == |w| by {
      assert forall i | 0 <= i < |w| :: t[i] == w[i];
      assert s != [] ==> t[|w|] == s[0];
    }
    assert t[..n] == w && t[n..] == s;
  }

  lemma {:induction false} JoinCons(w: string, ws: seq<string>)
    requires ws != []
    ensures Join([w] + ws) == w + " " + Join(ws)
    decreases |ws|
  {
    var all := [w] + ws;
    var m := |ws|;
    assert all[|all| - 1] == ws[m - 1];
    if m == 1 {
      assert all[..|all| - 1] == [w];
    } else {
      assert all[..|all| - 1] == [w] + ws[..m - 1];
      JoinCons(w, ws[..m - 1]);
    }
  }

  /** Splitting a word joined before other words gives that word first. */
  lemma SplitJoinCons(w: string, ws: seq<string>)
    requires IsWord(w) && ws != []
    ensures Split(Join([w] + ws)) == [w] + Split(Join(ws))
  {
    var rest := Join(ws);
    JoinCons(w, ws);
    assert w + " " + rest == w + ([' '] + rest);
    SplitWord(w, [' '] + rest);
    SplitSkip(' ', rest);
  }

  /** `" ".join(ws).split() == ws` for words `ws`: splitting undoes joining. */
  lemma {:induction false} SplitJoin(ws: seq<string>)
    requires forall k | 0 <= k < |ws| :: IsWord(ws[k])
    ensures Split(Join(ws)) == ws
    decreases |ws|
  {
    if ws == [] {
      assert Split("") == [];
    } else if |ws| == 1 {
      SplitWord(ws[0], "");
      assert ws[0] + "" == ws[0];
      assert Split("") == [];
    } else {
      assert ws == [ws[0]] + ws[1..];
      SplitJoinCons(ws[0], ws[1..]);
      SplitJoin(ws[1..]);
    }
  }

  /** `" ".join(ws)` */
  function Join(ws: seq<string>): string {
    if ws == [] then ""
    else if |ws| == 1 then ws[0]
    else Join(ws[..|ws| - 1]) + " " + ws[|ws| - 1]
  }

  // ---------------------------------------------------------------------------
  // int(s)

  function DigitValue(c: char): nat
    requires IsDigit(c)
  {
    c as int - '0' as int
  }

  function DigitChar(d: nat): (c: char)
    requires d < 10
    ensures IsDigit(c) && DigitValue(c) == d
  {
    ('0' as int + d) as char
  }

  /** Characters of a decimal literal: digits, and `_` as a separator. */
  predicate DigitsOrUnderscores(b: string) {
    forall i | 0 <= i < |b| :: IsDigit(b[i]) || b[i] == '_'
  }

  /**
   * The body of a decimal literal that `int()` accepts: non-empty, starting
   * and ending with a digit, with single underscores between digits.
   */
  predicate IsDigitBody(b: string) {
    && |b| > 0 && IsDigit(b[0]) && IsDigit(b[|b| - 1])
    && DigitsOrUnderscores(b)
    && (forall i | 0 <= i < |b| - 1 :: b[i] == '_' ==> b[i + 1] != '_')
  }

  /** The value of the digits of `b`, underscores skipped. */
  function DigitsValue(b: string): nat
    requires DigitsOrUnderscores(b)
  {
    if b == [] then 0
    else if b[|b| - 1] == '_' then DigitsValue(b[..|b| - 1])
    else 10 * DigitsValue(b[..|b| - 1]) + DigitValue(b[|b| - 1])
  }

  /**
   * Python's `int(s)` on a string: surrounding `IntSpace` whitespace is
   * ignored, an optional sign, then a decimal literal. None where Python
   * raises ValueError.
   */
  function ParseInt(s: string): Option<int> {
    ParseLiteral(StripBy(s, IntSpace))
  }

  /** `int()` on an already stripped string. */
  function ParseLiteral(t: string): Option<int> {
    if |t| > 0 && (t[0] == '+' || t[0] == '-') then
      if IsDigitBody(t[1..]) then
        var v: int := DigitsValue(t[1..]);
        Some(if t[0] == '-' then -v else v)
      else None
    else if IsDigitBody(t) then Some(DigitsValue(t))
    else None
  }

  /** `str(n)` for a natural number. */
  function ShowNat(n: nat): (s: string)
    ensures IsDigitBody(s) && (forall i | 0 <= i < |s| :: IsDigit(s[i]))
  {
    if n < 10 then [DigitChar(n)] else ShowNat(n / 10) + [DigitChar(n % 10)]
  }

  /** `str(n)` */
  function ShowInt(n: int): string {
    if n < 0 then "-" + ShowNat(-n) else ShowNat(n)
  }

  lemma {:induction false} DigitsValueShowNat(n: nat)
    ensures DigitsValue(ShowNat(n)) == n
  {
    if n >= 10 {
      DigitsValueShowNat(n / 10);
      var s := ShowNat(n);
      assert s[..|s| - 1] == ShowNat(n / 10);
    }
  }

  /** `int(str(n)) == n` */
  lemma ParseIntShowInt(n: int)
    ensures ParseInt(ShowInt(n)) == Some(n)
  {
    var s := ShowInt(n);
    StripByTrimmed(s, IntSpace);
    if n < 0 {
      var b := ShowNat(-n);
      assert s[0] == '-' && s[1..] == b;
      DigitsValueShowNat(-n);
    } else {
      assert s[0] != '+' && s[0] != '-';
      DigitsValueShowNat(n);
    }
  }

  /** `int()` ignores leading whitespace other than the ASCII separators. */
  lemma ParseIntLeadingSpace(c: char, s: string)
    requires IntSpace(c)
    ensures ParseInt([c] + s) == ParseInt(s)
  {
    StripByLeading(c, s, IntSpace);
  }

  /** `int()` rejects text that starts with an ASCII separator U+001C to U+001F, whatever follows. */
  lemma ParseIntSeparator(c: char, s: string)
    requires '\U{1c}' <= c <= '\U{1f}'
    ensures IsSpace(c) && ParseInt([c] + s) == None
  {
    StripByFirst([c] + s, IntSpace);
  }

  /** `int()` of an empty or all-whitespace string fails. */
  lemma ParseIntBlank(s: string)
    requires AllSpace(s)
    ensures ParseInt(s) == None
  {
    var t := StripBy(s, IntSpace);
    if t != [] {
      LStripSpec(s, IntSpace);
      var l := LStripBy(s, IntSpace);
      RStripSpec(l, IntSpace);
      assert t[0] == l[0] == s[|s| - |l|];
      assert IsSpace(t[0]);
      assert !IsDigit(t[0]) && t[0] != '+' && t[0] != '-';
    }
  }

  // ---------------------------------------------------------------------------
  // re.search(r"\d+", s)

  /**
   * Where `re.search(r"\d+", s)` matches, as [start, end): the first maximal
   * run of digits, or None when `s` has no digit.
   */
  function FindDigitRun(s: string): (r: Option<(nat, nat)>)
    ensures r.None? <==> forall i | 0 <= i < |s| :: !IsDigit(s[i])
    ensures r.Some? ==> r.value.0 < r.value.1 <= |s|
    ensures r.Some? ==> forall i | 0 <= i < r.value.0 :: !IsDigit(s[i])
    ensures r.Some? ==> forall i | r.value.0 <= i < r.value.1 :: IsDigit(s[i])
    ensures r.Some? && r.value.1 < |s| ==> !IsDigit(s[r.value.1])
  {
    var a := Span(s, NotDigit);
    if a == |s| then None
    else
      var n := Span(s[a..], IsDigit);
      Some((a, a + n))
  }

  /** `run` starts at `a` in `s`, is preceded by no digit and is not followed by one. */
  predicate FirstRunAt(s: string, a: int, run: string)
  {
    && 0 <= a <= |s| - |run|
    && s[a..a + |run|] == run
    && (forall i | 0 <= i < a :: !IsDigit(s[i]))
    && (a + |run| < |s| ==> !IsDigit(s[a + |run|]))
  }

  /** The matched text of `re.search(r"\d+", s)`. */
  function FirstDigitRun(s: string): (r: Option<string>)
    ensures r.None? <==> forall i | 0 <= i < |s| :: !IsDigit(s[i])
    ensures r.Some? ==> |r.value| > 0 && forall i | 0 <= i < |r.value| :: IsDigit(r.value[i])
    ensures r.Some? ==> exists a :: FirstRunAt(s, a, r.value)
  {
    match FindDigitRun(s)
    case None => None
    case Some((a, b)) =>
      assert FirstRunAt(s, a, s[a..b]);
      Some(s[a..b])
  }

  // ---------------------------------------------------------------------------
  // Ordering

  /** Python's `a < b` on strings: code point by code point, a proper prefix first. */
  predicate StrLt(a: string, b: string)
    decreases |a|
  {
    if a == [] then b != []
    else if b == [] then false
    else a[0] < b[0] || (a[0] == b[0] && StrLt(a[1..], b[1..]))
  }

  lemma {:induction false} StrLtIrreflexive(a: string)
    ensures !StrLt(a, a)
  {
    if a != [] {
      StrLtIrreflexive(a[1..]);
    }
  }

  lemma {:induction false} StrLtTransitive(a: string, b: string, c: string)
    requires StrLt(a, b) && StrLt(b, c)
    ensures StrLt(a, c)
  {
    if a != [] && a[0] == b[0] && b[0] == c[0] {
      StrLtTransitive(a[1..], b[1..], c[1..]);
    }
  }

  lemma {:induction false} StrLtTotal(a: string, b: string)
    requires a != b
    ensures StrLt(a, b) || StrLt(b, a)
  {
    if a != [] && b != [] && a[0] == b[0] {
      assert a == [a[0]] + a[1..] && b == [b[0]] + b[1..];
      StrLtTotal(a[1..], b[1..]);
    }
  }

  lemma StrLtOrder()
    ensures StrictTotalOrder(StrLt)
  {
    forall a ensures !StrLt(a, a) {
      StrLtIrreflexive(a);
    }
    forall a, b, c | StrLt(a, b) && StrLt(b, c) ensures StrLt(a, c) {
      StrLtTransitive(a, b, c);
    }
    forall a, b | a != b ensures StrLt(a, b) || StrLt(b, a) {
      StrLtTotal(a, b);
    }
  }

  predicate IntLt(a: int, b: int) {
    a < b
  }

  lemma IntLtOrder()
    ensures StrictTotalOrder(IntLt)
  {
  }

  /** Python's `<` on `(str, int)` tuples: by the string, then by the int. */
  predicate PairLt(a: (string, int), b: (string, int)) {
    StrLt(a.0, b.0) || (a.0 == b.0 && a.1 < b.1)
  }

  lemma PairLtOrder()
    ensures StrictTotalOrder(PairLt)
  {
    StrLtOrder();
  }
}
