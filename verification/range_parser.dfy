/** `parse_slide_ranges`: turns a cell such as `"1-3,5,7"` into the sorted,
    duplicate-free list of slide numbers it names. */
module RangeParser {
  import opened Results
  import opened Text

  // ---------------------------------------------------------------------
  // Python's int() on one side of a range
  // ---------------------------------------------------------------------

  /** The base-10 literal bodies `int()` accepts: digits, with single
      underscores allowed between two digits. */
  predicate IsUnderscoredDigits(b: string) {
    && |b| > 0 && IsDigit(b[0]) && IsDigit(b[|b| - 1])
    && (forall i :: 0 <= i < |b| ==> IsDigit(b[i]) || b[i] == '_')
    && NoDoubleUnderscore(b)
  }

  /** No two underscores in a row. */
  predicate NoDoubleUnderscore(b: string) {
    |b| < 2 || (!(b[0] == '_' && b[1] == '_') && NoDoubleUnderscore(b[1..]))
  }

  lemma {:induction false} DigitsNoUnderscore(b: string)
    requires forall i :: 0 <= i < |b| ==> IsDigit(b[i])
    ensures NoDoubleUnderscore(b)
  {
    if |b| >= 2 {
      DigitsNoUnderscore(b[1..]);
    }
  }

  function DropUnderscores(b: string): (r: string)
    requires forall i :: 0 <= i < |b| ==> IsDigit(b[i]) || b[i] == '_'
    ensures forall i :: 0 <= i < |r| ==> IsDigit(r[i])
    ensures IsDigits(b) ==> r == b
  {
    if b == [] then []
    else (if b[0] == '_' then [] else [b[0]]) + DropUnderscores(b[1..])
  }

  /** An unsigned base-10 literal, underscores dropped. */
  function UnsignedLiteral(b: string): Option<nat> {
    if IsUnderscoredDigits(b) then Some(DigitsValue(DropUnderscores(b))) else None
  }

  /** A literal with an optional leading sign. */
  function SignedLiteral(t: string): Option<int> {
    if |t| > 0 && (t[0] == '+' || t[0] == '-') then
      match UnsignedLiteral(t[1..])
      case Some(v) =>
        var w: int := v;
        Some(if t[0] == '-' then -w else w)
      case None => None
    else
      match UnsignedLiteral(t)
      case Some(v) => Some(v)
      case None => None
  }

  /** The whitespace `int()` skips around a literal. CPython first turns every
      non-ASCII whitespace character into a space and then skips only the C
      library's whitespace (TAB..CR and the space), so the ASCII separators
      FS..US, which `str.isspace` counts as whitespace, are not skipped. */
  predicate IsIntSpace(c: char) {
    IsSpace(c) && !('\U{1C}' <= c <= '\U{1F}')
  }

  /** `s` without the leading whitespace `int()` skips. */
  function IntTrimLeft(s: string): (r: string)
    ensures r == [] || !IsIntSpace(r[0])
    ensures forall c :: c in r ==> c in s
  {
    if s != [] && IsIntSpace(s[0]) then
      var r := IntTrimLeft(s[1..]);
      assert forall c :: c in s[1..] ==> c in s;
      r
    else s
  }

  /** `s` without the trailing whitespace `int()` skips. */
  function IntTrimRight(s: string): (r: string)
    ensures r == [] || !IsIntSpace(r[|r| - 1])
    ensures |r| <= |s| && forall i :: 0 <= i < |r| ==> r[i] == s[i]
    ensures forall c :: c in r ==> c in s
  {
    if s != [] && IsIntSpace(s[|s| - 1]) then
      var r := IntTrimRight(s[..|s| - 1]);
      assert forall i :: 0 <= i < |s| - 1 ==> s[..|s| - 1][i] == s[i];
      assert forall c :: c in s[..|s| - 1] ==> c in s;
      r
    else s
  }

  /** The literal `int()` reads: `s` with the whitespace it skips cut off both
      ends. */
  function IntStrip(s: string): (r: string)
    ensures r == [] || (!IsIntSpace(r[0]) && !IsIntSpace(r[|r| - 1]))
    ensures forall c :: c in r ==> c in s
  {
    IntTrimRight(IntTrimLeft(s))
  }

  /** Python's `int(s)`: the whitespace of `IsIntSpace` around the literal is
      ignored, then one optional sign and an underscored digit literal;
      anything else raises (here: None). */
  function PyInt(s: string): Option<int> {
    SignedLiteral(IntStrip(s))
  }

  /** Without a minus sign in the text, `int()` never yields a negative number. */
  lemma PyIntNonNegative(s: string)
    requires '-' !in s
    ensures PyInt(s).Some? ==> PyInt(s).value >= 0
  {
  }

  /** On a plain digit string `int()` is the decimal value. */
  lemma PyIntDigits(s: string)
    requires IsDigits(s)
    ensures PyInt(s) == Some(DigitsValue(s))
  {
    SignedLiteralDigits(s);
    DigitIsPlain(s[0]);
    DigitIsPlain(s[|s| - 1]);
    assert IntStrip(s) == s;
  }

  /** `int()` does not skip a trailing ASCII separator (FS, GS, RS or US) as
      `strip()` does: digits followed by one raise, while the same string
      stripped reads as the number. */
  lemma PyIntSeparator(d: string, c: char)
    requires IsDigits(d) && '\U{1C}' <= c <= '\U{1F}'
    ensures PyInt(d + [c]) == None
    ensures Strip(d + [c]) == d && PyInt(Strip(d + [c])) == Some(DigitsValue(d))
  {
    var s := d + [c];
    DigitIsPlain(d[0]);
    assert s[0] == d[0] && s[|s| - 1] == c;
    assert IntStrip(s) == s;
    assert !IsUnderscoredDigits(s);
    assert s[..|s| - 1] == d;
    DigitIsPlain(d[|d| - 1]);
    assert TrimRight(s) == TrimRight(d);
    StripNoEnds(d);
    PyIntDigits(d);
  }

  lemma SignedLiteralDigits(s: string)
    requires IsDigits(s)
    ensures SignedLiteral(s) == Some(DigitsValue(s))
  {
    DigitIsPlain(s[0]);
    DigitsNoUnderscore(s);
    assert UnsignedLiteral(s) == Some(DigitsValue(s));
  }

  // ---------------------------------------------------------------------
  // One comma-separated token
  // ---------------------------------------------------------------------

  /** What one stripped token contributes. */
  datatype Token =
    | Span(first: int, last: int)   // `start-end`: every integer from start to end
    | Single(n: nat)                // an all-digit token
    | Ignored                       // anything else without a '-'
    | Malformed(text: string)       // a '-' token that `map(int, r.split('-'))` cannot unpack

  /** The branch taken for one stripped token: a token holding `-` must split
      into exactly two integer literals or the parse raises; otherwise an
      all-digit token is a single slide and every other token is skipped. */
  function Classify(tok: string): (t: Token)
    ensures t.Span? || t.Malformed? <==> '-' in tok
    ensures t.Span? ==> t.first >= 0 && t.last >= 0
  {
    if '-' in tok then
      var parts := Split(tok, '-');
      if |parts| == 2 && PyInt(parts[0]).Some? && PyInt(parts[1]).Some? then
        PyIntNonNegative(parts[0]);
        PyIntNonNegative(parts[1]);
        Span(PyInt(parts[0]).value, PyInt(parts[1]).value)
      else Malformed(tok)
    else if IsDigits(tok) then Single(DigitsValue(tok))
    else Ignored
  }

  /** Slide number `n` is among those the token contributes. */
  predicate Names(t: Token, n: int) {
    (t.Span? && t.first <= n <= t.last) || (t.Single? && n == t.n)
  }

  /** What one raw (unstripped) comma-separated piece contributes. */
  function TokenOf(raw: string): Token {
    Classify(Strip(raw))
  }

  /** The pieces of a cell, each stripped and classified, in order. */
  function Tokens(raws: seq<string>): (ts: seq<Token>)
    ensures |ts| == |raws|
    ensures forall k :: 0 <= k < |raws| ==> ts[k] == TokenOf(raws[k])
  {
    seq(|raws|, k requires 0 <= k < |raws| => TokenOf(raws[k]))
  }

  predicate NoneMalformed(ts: seq<Token>) {
    forall k :: 0 <= k < |ts| ==> !ts[k].Malformed?
  }

  predicate AnyNames(ts: seq<Token>, n: int) {
    exists k :: 0 <= k < |ts| && Names(ts[k], n)
  }

  /** The position of the first malformed token, `|ts|` when there is none. */
  function FirstMalformed(ts: seq<Token>): (k: nat)
    ensures k <= |ts|
    ensures k < |ts| ==> ts[k].Malformed?
    ensures forall j :: 0 <= j < k ==> !ts[j].Malformed?
  {
    if ts == [] then 0
    else if ts[0].Malformed? then 0
    else
      var k := FirstMalformed(ts[1..]);
      assert forall j :: 1 <= j < |ts| ==> ts[j] == ts[1..][j - 1];
      1 + k
  }

  lemma TokensTail(ts: seq<Token>)
    requires ts != []
    ensures NoneMalformed(ts) <==> !ts[0].Malformed? && NoneMalformed(ts[1..])
    ensures forall n :: AnyNames(ts, n) <==> Names(ts[0], n) || AnyNames(ts[1..], n)
  {
    assert forall j :: 1 <= j < |ts| ==> ts[j] == ts[1..][j - 1];
    forall n
      ensures AnyNames(ts, n) <==> Names(ts[0], n) || AnyNames(ts[1..], n)
    {
      if AnyNames(ts[1..], n) {
        var k :| 0 <= k < |ts[1..]| && Names(ts[1..][k], n);
        assert Names(ts[k + 1], n);
      }
    }
  }

  // ---------------------------------------------------------------------
  // The set of slide numbers, kept as a strictly ascending sequence
  // ---------------------------------------------------------------------

  predicate StrictlyAscending(xs: seq<int>) {
    forall i, j :: 0 <= i < j < |xs| ==> xs[i] < xs[j]
  }

  /** Two strictly ascending sequences with the same elements are equal: a
      sorted, duplicate-free list is determined by its set of elements. */
  lemma {:induction false} AscendingUnique(xs: seq<int>, ys: seq<int>)
    requires StrictlyAscending(xs) && StrictlyAscending(ys)
    requires forall n :: n in xs <==> n in ys
    ensures xs == ys
  {
    assert xs != [] ==> xs[0] in xs;
    assert ys != [] ==> ys[0] in ys;
    if xs != [] && ys != [] {
      assert xs[0] == ys[0] by {
        assert xs[0] in ys && ys[0] in xs;
      }
      forall n
        ensures n in xs[1..] <==> n in ys[1..]
      {
        if n in xs[1..] {
          assert n in ys && n != ys[0];
        }
        if n in ys[1..] {
          assert n in xs && n != xs[0];
        }
      }
      AscendingUnique(xs[1..], ys[1..]);
      assert xs == [xs[0]] + xs[1..] && ys == [ys[0]] + ys[1..];
    }
  }

  /** Putting a number below all the elements in front keeps a sequence
      strictly ascending. */
  lemma ConsAscending(x: int, xs: seq<int>)
    requires StrictlyAscending(xs)
    requires forall n :: n in xs ==> n > x
    ensures StrictlyAscending([x] + xs)
  {
    var r := [x] + xs;
    forall i, j | 0 <= i < j < |r|
      ensures r[i] < r[j]
    {
      assert r[j] == xs[j - 1] && xs[j - 1] in xs;
      if i > 0 {
        assert r[i] == xs[i - 1];
      }
    }
  }

  /** The head of a strictly ascending sequence is below everything in its
      tail. */
  lemma AscendingHead(xs: seq<int>)
    requires xs != [] && StrictlyAscending(xs)
    ensures forall n :: n in xs[1..] ==> n > xs[0]
    ensures forall n :: n in xs ==> n >= xs[0]
  {
    forall n | n in xs[1..]
      ensures n > xs[0]
    {
      var j :| 0 <= j < |xs[1..]| && xs[1..][j] == n;
      assert xs[j + 1] == n;
    }
    assert xs == [xs[0]] + xs[1..];
  }

  /** `slides.add(k)` on the sorted representation of the set. */
  function Insert(xs: seq<int>, k: int): (r: seq<int>)
    requires StrictlyAscending(xs)
    ensures StrictlyAscending(r)
    ensures forall n :: n in r <==> n in xs || n == k
  {
    if xs == [] then [k]
    else if k < xs[0] then
      AscendingHead(xs);
      ConsAscending(k, xs);
      [k] + xs
    else if k == xs[0] then xs
    else
      var rest := Insert(xs[1..], k);
      assert xs == [xs[0]] + xs[1..];
      assert forall n :: n in rest ==> n > xs[0] by {
        AscendingHead(xs);
      }
      ConsAscending(xs[0], rest);
      [xs[0]] + rest
  }

  /** `slides.update(range(first, last + 1))`. */
  function AddSpan(xs: seq<int>, first: int, last: int): (r: seq<int>)
    requires StrictlyAscending(xs)
    ensures StrictlyAscending(r)
    ensures forall n :: n in r <==> n in xs || first <= n <= last
    decreases last - first
  {
    if first > last then xs
    else AddSpan(Insert(xs, first), first + 1, last)
  }

  /** Adds the slide numbers one token contributes. */
  function Gather(acc: seq<int>, t: Token): (r: seq<int>)
    requires StrictlyAscending(acc)
    ensures StrictlyAscending(r)
    ensures forall n :: n in r <==> n in acc || Names(t, n)
  {
    match t
    case Span(a, b) => AddSpan(acc, a, b)
    case Single(n) => Insert(acc, n)
    case _ => acc
  }

  /** The loop over tokens, left to right, with the slide numbers gathered so
      far in `acc`; the first malformed token raises. */
  function ParseTokens(ts: seq<Token>, acc: seq<int>): Result<seq<int>>
    requires StrictlyAscending(acc)
  {
    if ts == [] then Success(acc)
    else if ts[0].Malformed? then Failure(MalformedRange(ts[0].text))
    else ParseTokens(ts[1..], Gather(acc, ts[0]))
  }

  /** The token loop fails exactly at the first malformed token; otherwise
      it adds exactly the numbers the tokens name, keeping the set sorted. */
  lemma {:induction false} ParseTokensMeaning(ts: seq<Token>, acc: seq<int>)
    requires StrictlyAscending(acc)
    ensures ParseTokens(ts, acc).Success? <==> NoneMalformed(ts)
    ensures ParseTokens(ts, acc).Success? ==> StrictlyAscending(ParseTokens(ts, acc).value)
    ensures ParseTokens(ts, acc).Success? ==>
      forall n :: n in ParseTokens(ts, acc).value <==> n in acc || AnyNames(ts, n)
    ensures ParseTokens(ts, acc).Failure? ==>
      (FirstMalformed(ts) < |ts| && ParseTokens(ts, acc).error == MalformedRange(ts[FirstMalformed(ts)].text))
  {
    if ts != [] {
      TokensTail(ts);
      if !ts[0].Malformed? {
        ParseTokensMeaning(ts[1..], Gather(acc, ts[0]));
        assert FirstMalformed(ts) == 1 + FirstMalformed(ts[1..]);
        assert FirstMalformed(ts) < |ts| ==> ts[FirstMalformed(ts)] == ts[1..][FirstMalformed(ts[1..])];
      }
    }
  }

  /** `parse_slide_ranges(s)`: the tokens are the comma-separated pieces of
      `s`, each stripped, read left to right. */
  function ParseSlideRanges(s: string): Result<seq<int>> {
    ParseTokens(Tokens(Split(s, ',')), [])
  }

  /** The result of `parse_slide_ranges` is strictly ascending (so
      duplicate-free) and holds exactly the numbers some token names, none of
      them negative; it is an error exactly when some token holds a `-` but is
      not `int-int`, and the error carries the first such token. */
  lemma ParseSlideRangesMeaning(s: string)
    ensures ParseSlideRanges(s).Success? <==> NoneMalformed(Tokens(Split(s, ',')))
    ensures ParseSlideRanges(s).Success? ==> StrictlyAscending(ParseSlideRanges(s).value)
    ensures ParseSlideRanges(s).Success? ==>
      forall n :: n in ParseSlideRanges(s).value <==> AnyNames(Tokens(Split(s, ',')), n)
    ensures ParseSlideRanges(s).Success? ==>
      forall i :: 0 <= i < |ParseSlideRanges(s).value| ==> ParseSlideRanges(s).value[i] >= 0
    ensures ParseSlideRanges(s).Failure? ==> var ts := Tokens(Split(s, ','));
      (FirstMalformed(ts) < |ts| && ParseSlideRanges(s).error == MalformedRange(ts[FirstMalformed(ts)].text))
  {
    var ts := Tokens(Split(s, ','));
    ParseTokensMeaning(ts, []);
    var r := ParseTokens(ts, []);
    if r.Success? {
      TokensNonNegative(Split(s, ','));
      NamedNonNegative(ts, r.value);
    }
  }

  /** No token starts a span below zero: a '-' inside a token is a separator,
      never a sign. */
  predicate NonNegativeSpans(ts: seq<Token>) {
    forall k :: 0 <= k < |ts| && ts[k].Span? ==> ts[k].first >= 0
  }

  lemma TokensNonNegative(raws: seq<string>)
    ensures NonNegativeSpans(Tokens(raws))
  {
  }

  lemma NamedNonNegative(ts: seq<Token>, xs: seq<int>)
    requires NonNegativeSpans(ts)
    requires forall n :: n in xs <==> AnyNames(ts, n)
    ensures forall i :: 0 <= i < |xs| ==> xs[i] >= 0
  {
    forall i | 0 <= i < |xs|
      ensures xs[i] >= 0
    {
      assert xs[i] in xs;
      var k :| 0 <= k < |ts| && Names(ts[k], xs[i]);
    }
  }

  /** The integers from `a` to `b` inclusive, in order: `range(a, b + 1)`. */
  function Interval(a: int, b: int): (r: seq<int>)
    ensures StrictlyAscending(r)
    ensures forall n :: n in r <==> a <= n <= b
    decreases b - a
  {
    if a > b then []
    else
      var rest := Interval(a + 1, b);
      ConsAscending(a, rest);
      [a] + rest
  }

  // ---------------------------------------------------------------------
  // Round trips with the decimal rendering of numbers
  // ---------------------------------------------------------------------

  /** A cell without commas is a single token, parsed on its own. */
  lemma ParseOneToken(s: string)
    requires ',' !in s && !TokenOf(s).Malformed?
    ensures ParseSlideRanges(s) == Success(Gather([], TokenOf(s)))
  {
    SplitNoSeparator(s, ',');
    var ts := Tokens(Split(s, ','));
    assert ts == [TokenOf(s)];
    assert ParseTokens(ts, []) == ParseTokens([], Gather([], TokenOf(s)));
  }

  /** A cell without commas whose token is malformed raises, naming the
      stripped token. */
  lemma ParseMalformedToken(s: string)
    requires ',' !in s && TokenOf(s).Malformed?
    ensures ParseSlideRanges(s) == Failure(MalformedRange(Strip(s)))
  {
    SplitNoSeparator(s, ',');
    assert Tokens(Split(s, ',')) == [TokenOf(s)];
  }

  /** A cell holding one number parses to exactly that slide number. */
  lemma ParseShownNumber(n: nat)
    ensures ParseSlideRanges(Show(n)) == Success([n])
  {
    ShowReadsBack(n);
    DigitsToken(Show(n));
    ParseOneToken(Show(n));
  }

  /** A token of digits (surrounded by nothing else) is that one slide number. */
  lemma DigitsToken(s: string)
    requires IsDigits(s)
    ensures ',' !in s
    ensures TokenOf(s) == Single(DigitsValue(s))
  {
    DigitsHaveNoSeparator(s);
    DigitsStrip(s);
  }

  /** A cell `"a-b"` written with decimal numbers parses to every slide number
      from `a` to `b`, in order; to nothing when `a > b`. */
  lemma ParseShownRange(a: nat, b: nat)
    ensures ParseSlideRanges(Show(a) + "-" + Show(b)) == Success(Interval(a, b))
  {
    ShownRangeToken(a, b);
    RangeToken(Show(a), Show(b));
    ParseOneToken(Show(a) + "-" + Show(b));
    AscendingUnique(Gather([], Span(a, b)), Interval(a, b));
  }

  lemma ShownRangeToken(a: nat, b: nat)
    ensures TokenOf(Show(a) + "-" + Show(b)) == Span(a, b)
  {
    PyIntShow(a);
    PyIntShow(b);
    RangeToken(Show(a), Show(b));
  }

  /** `int(str(n)) == n`. */
  lemma PyIntShow(n: nat)
    ensures PyInt(Show(n)) == Some(n)
  {
    ShowReadsBack(n);
    PyIntDigits(Show(n));
  }

  /** A token `digits-digits` is the span between the two values. */
  lemma RangeToken(sa: string, sb: string)
    requires IsDigits(sa) && IsDigits(sb)
    ensures ',' !in sa + "-" + sb
    ensures PyInt(sa).Some? && PyInt(sb).Some?
    ensures TokenOf(sa + "-" + sb) == Span(PyInt(sa).value, PyInt(sb).value)
  {
    var s := sa + "-" + sb;
    assert PyInt(sa).Some? by {
      PyIntDigits(sa);
    }
    assert PyInt(sb).Some? by {
      PyIntDigits(sb);
    }
    RangeClassify(sa, sb);
    RangeTokenShape(sa, sb);
    TokenOfStripped(s);
  }

  lemma RangeClassify(sa: string, sb: string)
    requires IsDigits(sa) && IsDigits(sb)
    requires PyInt(sa).Some? && PyInt(sb).Some?
    ensures Classify(sa + "-" + sb) == Span(PyInt(sa).value, PyInt(sb).value)
  {
    RangeTokenShape(sa, sb);
    ClassifySpan(sa + "-" + sb, sa, sb);
  }

  lemma TokenOfStripped(s: string)
    requires Strip(s) == s
    ensures TokenOf(s) == Classify(s)
  {
  }

  lemma ClassifySpan(tok: string, x: string, y: string)
    requires '-' in tok && Split(tok, '-') == [x, y]
    requires PyInt(x).Some? && PyInt(y).Some?
    ensures Classify(tok) == Span(PyInt(x).value, PyInt(y).value)
  {
  }

  lemma RangeTokenShape(sa: string, sb: string)
    requires IsDigits(sa) && IsDigits(sb)
    ensures ',' !in sa + "-" + sb && '-' in sa + "-" + sb
    ensures Strip(sa + "-" + sb) == sa + "-" + sb
    ensures Split(sa + "-" + sb, '-') == [sa, sb]
  {
    var s := sa + "-" + sb;
    DigitsHaveNoSeparator(sa);
    DigitsHaveNoSeparator(sb);
    assert s[|sa|] == '-';
    assert s[0] == sa[0] && s[|s| - 1] == sb[|sb| - 1];
    DigitIsPlain(sa[0]);
    DigitIsPlain(sb[|sb| - 1]);
    StripNoEnds(s);
    SplitPrefix(sa, sb, '-');
    SplitNoSeparator(sb, '-');
  }
  /** A cell `-digits` (a negative number) raises: the split on '-' leaves an
      empty first part, and `int('')` fails. */
  lemma NegativeCell(d: string)
    requires IsDigits(d)
    ensures ParseSlideRanges("-" + d) == Failure(MalformedRange("-" + d))
  {
    NegativeMalformed(d);
    NegativeShape(d);
    MalformedCell("-" + d);
  }

  lemma NegativeMalformed(d: string)
    requires IsDigits(d)
    ensures TokenOf("-" + d) == Malformed("-" + d)
  {
    NegativeShape(d);
    NegativeToken("-" + d, d);
  }

  /** A cell of one stripped malformed token fails with that token. */
  lemma MalformedCell(s: string)
    requires ',' !in s && Strip(s) == s && TokenOf(s) == Malformed(s)
    ensures ParseSlideRanges(s) == Failure(MalformedRange(s))
  {
    ParseMalformedToken(s);
  }

  lemma NegativeShape(d: string)
    requires IsDigits(d)
    ensures Strip("-" + d) == "-" + d && ',' !in "-" + d && '-' in "-" + d
    ensures Split("-" + d, '-') == ["", d]
  {
    var s := "-" + d;
    DigitsHaveNoSeparator(d);
    assert s[0] == '-' && s[|s| - 1] == d[|d| - 1];
    DigitIsPlain(d[|d| - 1]);
    StripNoEnds(s);
    assert s == [] + ['-'] + d;
    SplitPrefix([], d, '-');
    SplitNoSeparator(d, '-');
  }

  lemma NegativeToken(s: string, d: string)
    requires Strip(s) == s && '-' in s && Split(s, '-') == ["", d]
    ensures TokenOf(s) == Malformed(s)
  {
    PyIntEmpty();
  }

  /** `int('')` raises. */
  lemma PyIntEmpty()
    ensures PyInt([]) == None
  {
  }

  /** A range whose first number is followed by an ASCII separator (FS, GS,
      RS or US) raises: `strip()` keeps the separator inside the token, and
      `int()` does not skip it. */
  lemma SeparatorCell(d: string, c: char, e: string)
    requires IsDigits(d) && IsDigits(e) && '\U{1C}' <= c <= '\U{1F}'
    ensures ParseSlideRanges(d + [c] + "-" + e) == Failure(MalformedRange(d + [c] + "-" + e))
  {
    var s := d + [c] + "-" + e;
    SeparatorShape(d, c, e);
    PyIntSeparator(d, c);
    assert TokenOf(s) == Malformed(s);
    MalformedCell(s);
  }

  lemma SeparatorShape(d: string, c: char, e: string)
    requires IsDigits(d) && IsDigits(e) && '\U{1C}' <= c <= '\U{1F}'
    ensures Strip(d + [c] + "-" + e) == d + [c] + "-" + e
    ensures ',' !in d + [c] + "-" + e && '-' in d + [c] + "-" + e
    ensures Split(d + [c] + "-" + e, '-') == [d + [c], e]
  {
    var w := d + [c];
    var s := w + "-" + e;
    DigitsHaveNoSeparator(d);
    DigitsHaveNoSeparator(e);
    assert '-' !in w && ',' !in w;
    assert s[|w|] == '-';
    assert s[0] == d[0] && s[|s| - 1] == e[|e| - 1];
    DigitIsPlain(d[0]);
    DigitIsPlain(e[|e| - 1]);
    StripNoEnds(s);
    SplitPrefix(w, e, '-');
    SplitNoSeparator(e, '-');
  }

  /** A cell without ',' or '-' that is not all digits once stripped (a word,
      say) names no slide: the token is skipped without an error. */
  lemma WordCell(s: string)
    requires ',' !in s && '-' !in s && !IsDigits(Strip(s))
    ensures ParseSlideRanges(s) == Success([])
  {
    StripSubset(s);
    assert TokenOf(s) == Ignored;
    ParseOneToken(s);
  }
}
