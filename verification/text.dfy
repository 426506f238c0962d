/** The Python string primitives the script leans on: `str.isspace`,
    `str.isprintable`, `str.isdigit`, `strip()`, `split(sep)`, `split()`,
    `sep.join(...)`, `replace(old, "")`, and decimal rendering of integers. */
module Text {

  /** Python's whitespace class (`str.isspace`), which `strip()` and `split()`
      use: the ASCII controls TAB..CR and FS..US, the space, NEL, NO-BREAK
      SPACE and the Unicode space separators. (`int()` skips a narrower set,
      see `RangeParser.IsIntSpace`.) */
  predicate IsSpace(c: char) {
    || c == ' '
    || ('\t' <= c <= '\r')
    || ('\U{1C}' <= c <= '\U{1F}')
    || c == '\U{85}' || c == '\U{A0}' || c == '\U{1680}'
    || ('\U{2000}' <= c <= '\U{200A}')
    || c == '\U{2028}' || c == '\U{2029}' || c == '\U{202F}' || c == '\U{205F}' || c == '\U{3000}'
  }

  /** The invisible formatting characters (general category Cf) that
      `str.isprintable` rejects, as far as this model distinguishes them. */
  predicate IsFormat(c: char) {
    || c == '\U{AD}'
    || ('\U{200B}' <= c <= '\U{200F}')
    || ('\U{202A}' <= c <= '\U{202E}')
    || ('\U{2060}' <= c <= '\U{2064}')
    || ('\U{2066}' <= c <= '\U{206F}')
    || c == '\U{FEFF}'
  }

  /** `str.isprintable` for one character: the space is printable, every other
      separator, every control, format and private-use character is not. */
  predicate IsPrintable(c: char) {
    if c < '\U{A0}' then ' ' <= c < '\U{7F}'
    else !IsSpace(c) && !IsFormat(c) && !('\U{E000}' <= c <= '\U{F8FF}')
  }

  predicate IsDigit(c: char) {
    '0' <= c <= '9'
  }

  predicate NoSpace(s: string) {
    forall i :: 0 <= i < |s| ==> !IsSpace(s[i])
  }

  predicate AllSpace(s: string) {
    forall i :: 0 <= i < |s| ==> IsSpace(s[i])
  }

  predicate AllPrintable(s: string) {
    forall i :: 0 <= i < |s| ==> IsPrintable(s[i])
  }

  /** `str.isdigit` over ASCII digits: false for the empty string. */
  predicate IsDigits(s: string) {
    |s| > 0 && forall i :: 0 <= i < |s| ==> IsDigit(s[i])
  }

  predicate StartsWith(s: string, prefix: string) {
    |prefix| <= |s| && s[..|prefix|] == prefix
  }

  /** `pat` occurs somewhere inside `s`. */
  predicate Occurs(pat: string, s: string) {
    exists i :: 0 <= i <= |s| - |pat| && StartsWith(s[i..], pat)
  }

  // ---------------------------------------------------------------------
  // sanitize_text
  // ---------------------------------------------------------------------

  /** `''.join(c for c in text if c.isprintable())`: keeps exactly the
      printable characters, in their original order. */
  function Sanitize(s: string): (r: string)
    ensures |r| <= |s|
    ensures AllPrintable(r)
  {
    if s == [] then []
    else (if IsPrintable(s[0]) then [s[0]] else []) + Sanitize(s[1..])
  }

  /** A character survives sanitising exactly when it occurs and is
      printable. */
  lemma {:induction false} SanitizeKeeps(s: string)
    ensures forall c :: c in Sanitize(s) <==> c in s && IsPrintable(c)
  {
    if s != [] {
      SanitizeKeeps(s[1..]);
      assert s == [s[0]] + s[1..];
    }
  }

  /** Sanitizing distributes over concatenation. */
  lemma {:induction false} SanitizeConcat(a: string, b: string)
    ensures Sanitize(a + b) == Sanitize(a) + Sanitize(b)
  {
    if a == [] {
      assert a + b == b;
    } else {
      assert (a + b)[0] == a[0];
      assert (a + b)[1..] == a[1..] + b;
      SanitizeConcat(a[1..], b);
    }
  }

  /** A string of printable characters is left unchanged. */
  lemma {:induction false} SanitizePrintable(s: string)
    requires AllPrintable(s)
    ensures Sanitize(s) == s
  {
    if s != [] {
      SanitizePrintable(s[1..]);
    }
  }

  /** `sanitize_text` is idempotent. */
  lemma SanitizeIdempotent(s: string)
    ensures Sanitize(Sanitize(s)) == Sanitize(s)
  {
    SanitizePrintable(Sanitize(s));
  }

  // ---------------------------------------------------------------------
  // strip()
  // ---------------------------------------------------------------------

  /** `s` without its leading whitespace: everything cut away is whitespace,
      and what is left (see `TrimLeftAt`) is the last `|r|` characters of `s`. */
  function TrimLeft(s: string): (r: string)
    ensures r == [] || !IsSpace(r[0])
    ensures |r| <= |s|
    ensures forall i :: 0 <= i < |s| - |r| ==> IsSpace(s[i])
  {
    if s != [] && IsSpace(s[0]) then
      var r := TrimLeft(s[1..]);
      assert forall i :: 1 <= i < |s| - |r| ==> s[i] == s[1..][i - 1];
      r
    else s
  }

  /** Character `i` of the left-trimmed string sits `|s| - |TrimLeft(s)|`
      places further on in `s`. */
  lemma {:induction false} TrimLeftAt(s: string, i: int)
    requires 0 <= i < |TrimLeft(s)|
    ensures TrimLeft(s)[i] == s[|s| - |TrimLeft(s)| + i]
    decreases |s|
  {
    if s != [] && IsSpace(s[0]) {
      TrimLeftAt(s[1..], i);
    }
  }

  /** `s` without its trailing whitespace: the result is a prefix of `s`, and
      all after it is whitespace. */
  function TrimRight(s: string): (r: string)
    ensures r == [] || !IsSpace(r[|r| - 1])
    ensures |r| <= |s|
    ensures forall i :: 0 <= i < |r| ==> r[i] == s[i]
    ensures forall i :: |r| <= i < |s| ==> IsSpace(s[i])
  {
    if s != [] && IsSpace(s[|s| - 1]) then
      var r := TrimRight(s[..|s| - 1]);
      assert forall i :: 0 <= i < |s| - 1 ==> s[..|s| - 1][i] == s[i];
      r
    else s
  }

  /** `str.strip()`: the part of `s` that remains once the whitespace at both
      ends is cut away (see `StripInfix` for where it sits in `s`). */
  function Strip(s: string): (r: string)
    ensures r == [] || (!IsSpace(r[0]) && !IsSpace(r[|r| - 1]))
    ensures |r| <= |s|
  {
    TrimRight(TrimLeft(s))
  }

  /** The stripped string is an infix of `s` with only whitespace around it. */
  lemma StripInfix(s: string)
    ensures exists i :: (0 <= i <= |s| - |Strip(s)| && Strip(s) == s[i..i + |Strip(s)|] &&
                         AllSpace(s[..i]) && AllSpace(s[i + |Strip(s)|..]))
  {
    var t := TrimLeft(s);
    var r := TrimRight(t);
    var i := |s| - |t|;
    forall k | 0 <= k < |r|
      ensures r[k] == s[i..i + |r|][k]
    {
      TrimLeftAt(s, k);
    }
    assert r == s[i..i + |r|];
    forall k | i + |r| <= k < |s|
      ensures IsSpace(s[k])
    {
      TrimLeftAt(s, k - i);
    }
    assert AllSpace(s[..i]);
    assert AllSpace(s[i + |r|..]);
    assert Strip(s) == r;
  }

  /** Every character of the stripped string comes from the original. */
  lemma StripSubset(s: string)
    ensures forall c :: c in Strip(s) ==> c in s
  {
    var t := TrimLeft(s);
    var r := TrimRight(t);
    assert Strip(s) == r;
    forall k | 0 <= k < |r|
      ensures r[k] in s
    {
      TrimLeftAt(s, k);
    }
  }

  /** A digit is neither whitespace nor one of the separators of a slide range. */
  lemma DigitIsPlain(c: char)
    requires IsDigit(c)
    ensures !IsSpace(c) && c != ',' && c != '-' && c != '+' && c != '_'
  {
  }

  /** A string of digits holds neither separator of a slide-range cell. */
  lemma DigitsHaveNoSeparator(s: string)
    requires IsDigits(s)
    ensures ',' !in s && '-' !in s
  {
    forall i | 0 <= i < |s|
      ensures s[i] != ',' && s[i] != '-'
    {
      DigitIsPlain(s[i]);
    }
  }

  /** `strip()` leaves a string of digits alone. */
  lemma DigitsStrip(s: string)
    requires IsDigits(s)
    ensures Strip(s) == s
  {
    DigitIsPlain(s[0]);
    DigitIsPlain(s[|s| - 1]);
    StripNoEnds(s);
  }

  /** Cutting whitespace off a string that has none at either end changes nothing. */
  lemma StripNoEnds(s: string)
    requires s == [] || (!IsSpace(s[0]) && !IsSpace(s[|s| - 1]))
    ensures Strip(s) == s
  {
  }

  /** `strip()` is idempotent. */
  lemma StripIdempotent(s: string)
    ensures Strip(Strip(s)) == Strip(s)
  {
    StripNoEnds(Strip(s));
  }

  // ---------------------------------------------------------------------
  // sep.join(xs) and s.split(sep)
  // ---------------------------------------------------------------------

  /** `sep.join(xs)`. */
  function Join(xs: seq<string>, sep: string): string
  {
    if |xs| == 0 then ""
    else if |xs| == 1 then xs[0]
    else xs[0] + sep + Join(xs[1..], sep)
  }

  /** Total length of the pieces that come before piece `k`, separators included. */
  function Offset(xs: seq<string>, sep: string, k: nat): nat
    requires k <= |xs|
  {
    if k == 0 then 0 else |xs[0]| + |sep| + Offset(xs[1..], sep, k - 1)
  }

  /** The joined string is the pieces in their order: piece `k` sits at
      `Offset(xs, sep, k)`, and the length accounts for every piece and
      `|xs| - 1` separators. */
  lemma JoinPieces(xs: seq<string>, sep: string)
    requires |xs| > 0
    ensures |Join(xs, sep)| == Offset(xs, sep, |xs|) - |sep|
    ensures forall k :: 0 <= k < |xs| ==>
      Offset(xs, sep, k) + |xs[k]| <= |Join(xs, sep)| &&
      Join(xs, sep)[Offset(xs, sep, k)..Offset(xs, sep, k) + |xs[k]|] == xs[k]
  {
    JoinLength(xs, sep);
    forall k | 0 <= k < |xs|
      ensures Offset(xs, sep, k) + |xs[k]| <= |Join(xs, sep)|
      ensures Join(xs, sep)[Offset(xs, sep, k)..Offset(xs, sep, k) + |xs[k]|] == xs[k]
    {
      JoinPiece(xs, sep, k);
    }
  }

  /** Piece `k` of the joined string sits at `Offset(xs, sep, k)`. */
  lemma {:induction false} JoinPiece(xs: seq<string>, sep: string, k: nat)
    requires k < |xs|
    ensures Offset(xs, sep, k) + |xs[k]| <= |Join(xs, sep)|
    ensures Join(xs, sep)[Offset(xs, sep, k)..Offset(xs, sep, k) + |xs[k]|] == xs[k]
  {
    if |xs| > 1 {
      if k > 0 {
        JoinPiece(xs[1..], sep, k - 1);
      }
      JoinPieceAt(xs, sep, k);
    }
  }

  /** The length of a join: every piece and `|xs| - 1` separators. */
  lemma {:induction false} JoinLength(xs: seq<string>, sep: string)
    requires |xs| > 0
    ensures |Join(xs, sep)| == Offset(xs, sep, |xs|) - |sep|
  {
    if |xs| > 1 {
      JoinLength(xs[1..], sep);
    }
  }

  /** Piece `k` of a join of at least two pieces, from where piece `k - 1`
      sits in the join of the tail. */
  lemma JoinPieceAt(xs: seq<string>, sep: string, k: nat)
    requires 0 <= k < |xs| && |xs| > 1
    requires k > 0 ==> Offset(xs[1..], sep, k - 1) + |xs[k]| <= |Join(xs[1..], sep)|
    requires k > 0 ==> Join(xs[1..], sep)[Offset(xs[1..], sep, k - 1)..Offset(xs[1..], sep, k - 1) + |xs[k]|] == xs[k]
    ensures Offset(xs, sep, k) + |xs[k]| <= |Join(xs, sep)|
    ensures Join(xs, sep)[Offset(xs, sep, k)..Offset(xs, sep, k) + |xs[k]|] == xs[k]
  {
    var rest := Join(xs[1..], sep);
    var p := xs[0] + sep;
    assert Join(xs, sep) == p + rest;
    if k > 0 {
      var o := Offset(xs[1..], sep, k - 1);
      assert xs[1..][k - 1] == xs[k];
      assert Offset(xs, sep, k) == |p| + o;
      assert (p + rest)[|p| + o..|p| + o + |xs[k]|] == rest[o..o + |xs[k]|];
    } else {
      assert (p + rest)[..|xs[0]|] == xs[0];
    }
  }

  /** `s.split(c)`: the maximal pieces of `s` between occurrences of `c`;
      always at least one piece, so `"".split(",") == [""]`. */
  function Split(s: string, c: char): (parts: seq<string>)
    ensures |parts| >= 1
    ensures forall k :: 0 <= k < |parts| ==> c !in parts[k]
  {
    if s == [] then [""]
    else
      var rest := Split(s[1..], c);
      if s[0] == c then [""] + rest
      else [[s[0]] + rest[0]] + rest[1..]
  }

  /** Joining the pieces of a split with the separator gives the string back. */
  lemma {:induction false} SplitJoin(s: string, c: char)
    ensures Join(Split(s, c), [c]) == s
  {
    if s != [] {
      var rest := Split(s[1..], c);
      SplitJoin(s[1..], c);
      if s[0] == c {
        assert Split(s, c) == [""] + rest;
        assert ([""] + rest)[1..] == rest;
      } else {
        var parts := [[s[0]] + rest[0]] + rest[1..];
        assert Split(s, c) == parts;
        if |rest| == 1 {
          assert Join(rest, [c]) == rest[0];
        } else {
          assert parts[1..] == rest[1..];
          assert Join(rest, [c]) == rest[0] + [c] + Join(rest[1..], [c]);
        }
      }
    }
  }

  /** A string without the separator splits into itself alone. */
  lemma {:induction false} SplitNoSeparator(s: string, c: char)
    requires c !in s
    ensures Split(s, c) == [s]
  {
    if s != [] {
      assert c !in s[1..] by {
        assert forall x :: x in s[1..] ==> x in s;
      }
      SplitNoSeparator(s[1..], c);
      assert [s[0]] + s[1..] == s;
    }
  }

  /** Splitting a join of separator-free pieces gives the pieces back. */
  lemma {:induction false} JoinSplit(xs: seq<string>, c: char)
    requires |xs| > 0
    requires forall k :: 0 <= k < |xs| ==> c !in xs[k]
    ensures Split(Join(xs, [c]), c) == xs
  {
    if |xs| == 1 {
      SplitNoSeparator(xs[0], c);
    } else {
      JoinSplit(xs[1..], c);
      SplitPrefix(xs[0], Join(xs[1..], [c]), c);
      assert Join(xs, [c]) == xs[0] + [c] + Join(xs[1..], [c]);
      assert [xs[0]] + xs[1..] == xs;
    }
  }

  /** A separator-free prefix followed by the separator becomes the first piece. */
  lemma {:induction false} SplitPrefix(w: string, t: string, c: char)
    requires c !in w
    ensures Split(w + [c] + t, c) == [w] + Split(t, c)
  {
    if w == [] {
      assert w + [c] + t == [c] + t;
      assert ([c] + t)[1..] == t;
    } else {
      assert (w + [c] + t)[1..] == w[1..] + [c] + t;
      SplitPrefix(w[1..], t, c);
      assert [w[0]] + w[1..] == w;
    }
  }

  // ---------------------------------------------------------------------
  // s.split() and " ".join(s.split())
  // ---------------------------------------------------------------------

  /** The longest prefix of `s` that holds no whitespace. */
  function LeadingWord(s: string): (w: string)
    ensures |w| <= |s| && w == s[..|w|] && NoSpace(w)
    ensures |w| < |s| ==> IsSpace(s[|w|])
  {
    if s == [] || IsSpace(s[0]) then ""
    else [s[0]] + LeadingWord(s[1..])
  }

  /** `s.split()` with no argument: the maximal runs of non-whitespace
      characters, in order; leading, trailing and repeated whitespace yield no
      empty words. */
  function Words(s: string): (ws: seq<string>)
    ensures forall k :: 0 <= k < |ws| ==> ws[k] != [] && NoSpace(ws[k])
    decreases |s|
  {
    var t := TrimLeft(s);
    if t == [] then []
    else
      var w := LeadingWord(t);
      assert |w| > 0 by {
        assert !IsSpace(t[0]);
      }
      [w] + Words(t[|w|..])
  }

  /** `" ".join(s.split())`: every run of whitespace becomes one space and
      the ends are trimmed. */
  function Collapse(s: string): (r: string)
    ensures WellSpaced(r)
  {
    var ws := Words(s);
    JoinWordsWellSpaced(ws);
    Join(ws, " ")
  }

  /** No whitespace at either end, and every whitespace character inside is a
      single plain space between two non-whitespace characters. */
  ghost predicate WellSpaced(r: string) {
    && (r == [] || (!IsSpace(r[0]) && !IsSpace(r[|r| - 1])))
    && (forall i :: 0 <= i < |r| && IsSpace(r[i]) ==> r[i] == ' ')
    && (forall i, j :: 0 <= i < j < |r| && j == i + 1 ==> !IsSpace(r[i]) || !IsSpace(r[j]))
  }

  lemma {:induction false} JoinWordsWellSpaced(ws: seq<string>)
    requires forall k :: 0 <= k < |ws| ==> ws[k] != [] && NoSpace(ws[k])
    ensures WellSpaced(Join(ws, " "))
  {
    if |ws| >= 2 {
      var w := ws[0];
      var rest := Join(ws[1..], " ");
      JoinWordsWellSpaced(ws[1..]);
      JoinNonEmpty(ws[1..], " ");
      var r := Join(ws, " ");
      assert r == w + " " + rest;
      forall i | 0 <= i < |r|
        ensures IsSpace(r[i]) ==> r[i] == ' '
        ensures i + 1 < |r| ==> !IsSpace(r[i]) || !IsSpace(r[i + 1])
      {
        if i < |w| - 1 {
          assert r[i] == w[i] && r[i + 1] == w[i + 1];
        } else if i == |w| - 1 {
          assert r[i] == w[i];
        } else if i == |w| {
          assert r[i] == ' ' && r[i + 1] == rest[0];
        } else {
          var j := i - |w| - 1;
          assert r[i] == rest[j];
          if i + 1 < |r| {
            assert r[i + 1] == rest[j + 1];
          }
        }
      }
      assert r[|r| - 1] == rest[|rest| - 1];
    }
  }

  /** Joining non-empty words gives a non-empty string. */
  lemma JoinNonEmpty(ws: seq<string>, sep: string)
    requires |ws| > 0 && ws[0] != []
    ensures Join(ws, sep) != [] && Join(ws, sep)[0] == ws[0][0]
  {
  }

  /** Splitting a space-joined list of words gives the words back. */
  lemma {:induction false} WordsOfJoin(ws: seq<string>)
    requires forall k :: 0 <= k < |ws| ==> ws[k] != [] && NoSpace(ws[k])
    ensures Words(Join(ws, " ")) == ws
  {
    if |ws| == 1 {
      WordsOfWord(ws[0]);
    } else if |ws| > 1 {
      WordsOfJoin(ws[1..]);
      WordsOfJoinStep(ws);
    }
  }

  lemma WordsOfJoinStep(ws: seq<string>)
    requires |ws| > 1
    requires Words(Join(ws[1..], " ")) == ws[1..]
    requires ws[0] != [] && NoSpace(ws[0])
    ensures Words(Join(ws, " ")) == ws
  {
    JoinCons(ws, " ");
    WordsOfWordThen(ws[0], Join(ws[1..], " "));
    assert [ws[0]] + ws[1..] == ws;
  }

  lemma JoinCons(ws: seq<string>, sep: string)
    requires |ws| > 1
    ensures Join(ws, sep) == ws[0] + (sep + Join(ws[1..], sep))
  {
  }

  /** A single word is its own only word. */
  lemma WordsOfWord(w: string)
    requires w != [] && NoSpace(w)
    ensures Words(w) == [w]
  {
    LeadingWordPrefix(w, "");
    assert w + "" == w;
    WordsUnfold(w);
    assert w[|w|..] == "";
  }

  /** A word followed by a space and more text: that word, then the words of
      the text. */
  lemma WordsOfWordThen(w: string, rest: string)
    requires w != [] && NoSpace(w)
    ensures Words(w + (" " + rest)) == [w] + Words(rest)
  {
    var s := w + (" " + rest);
    assert s[0] == w[0];
    LeadingWordPrefix(w, " " + rest);
    WordsUnfold(s);
    assert s[|w|..] == " " + rest;
    WordsSkipsSpace(rest);
  }

  /** The words of a string that starts with a non-whitespace character: its
      leading word, then the words of what follows it. */
  lemma WordsUnfold(s: string)
    requires s != [] && !IsSpace(s[0])
    ensures Words(s) == [LeadingWord(s)] + Words(s[|LeadingWord(s)|..])
  {
    TrimLeftNoLead(s);
  }

  /** A leading space does not change the words. */
  lemma WordsSkipsSpace(t: string)
    ensures Words(" " + t) == Words(t)
  {
    TrimLeftSpace(t);
  }

  /** Nothing is trimmed from a string that does not start with whitespace. */
  lemma TrimLeftNoLead(s: string)
    requires s == [] || !IsSpace(s[0])
    ensures TrimLeft(s) == s
  {
  }

  /** Trimming skips a leading space. */
  lemma TrimLeftSpace(t: string)
    ensures TrimLeft(" " + t) == TrimLeft(t)
  {
    assert (" " + t)[1..] == t;
  }

  lemma {:induction false} LeadingWordPrefix(w: string, tail: string)
    requires NoSpace(w)
    requires tail == [] || IsSpace(tail[0])
    ensures LeadingWord(w + tail) == w
  {
    if w != [] {
      assert (w + tail)[1..] == w[1..] + tail;
      LeadingWordPrefix(w[1..], tail);
    }
  }

  /** Collapsing whitespace twice is the same as collapsing it once. */
  lemma CollapseIdempotent(s: string)
    ensures Collapse(Collapse(s)) == Collapse(s)
  {
    WordsOfJoin(Words(s));
  }

  /** `" ".join(s.split())` read one character at a time, independently of
      `Words`: whitespace is dropped, and a single space goes before a
      non-whitespace character that whitespace separates from an earlier one.
      `started`: a non-whitespace character has been seen; `gap`: whitespace
      has been seen since the last one. */
  function Squeeze(s: string, started: bool, gap: bool): string
    decreases |s|
  {
    if s == [] then []
    else if IsSpace(s[0]) then Squeeze(s[1..], started, started)
    else (if gap then " " else "") + [s[0]] + Squeeze(s[1..], true, false)
  }

  /** The characters of `s` that are not whitespace, in order. */
  function Visible(s: string): (r: string)
    ensures NoSpace(r)
  {
    if s == [] then []
    else if IsSpace(s[0]) then Visible(s[1..])
    else [s[0]] + Visible(s[1..])
  }

  /** Collapsing whitespace is the one-pass reading: the words of `s` are its
      maximal runs of non-whitespace characters, and the result puts exactly
      one space wherever whitespace separated two of them. */
  lemma CollapseMeaning(s: string)
    ensures Collapse(s) == Squeeze(s, false, false)
  {
    SqueezeFresh(s);
  }

  /** Collapsing whitespace keeps every non-whitespace character, in order,
      and adds none. */
  lemma CollapseKeepsVisible(s: string)
    ensures Visible(Collapse(s)) == Visible(s)
  {
    CollapseMeaning(s);
    SqueezeVisible(s, false, false);
  }

  lemma {:induction false} SqueezeVisible(s: string, started: bool, gap: bool)
    ensures Visible(Squeeze(s, started, gap)) == Visible(s)
    decreases |s|
  {
    if s != [] {
      SqueezeVisible(s[1..], true, false);
      SqueezeVisible(s[1..], started, started);
      if !IsSpace(s[0]) {
        var rest := Squeeze(s[1..], true, false);
        VisibleConcat((if gap then " " else "") + [s[0]], rest);
        assert Visible([s[0]]) == [s[0]] by {
          assert [s[0]][1..] == [];
        }
        if gap {
          assert (" " + [s[0]])[1..] == [s[0]];
        }
      }
    }
  }

  lemma {:induction false} VisibleConcat(a: string, b: string)
    ensures Visible(a + b) == Visible(a) + Visible(b)
    decreases |a|
  {
    if a == [] {
      assert a + b == b;
    } else {
      assert (a + b)[0] == a[0];
      assert (a + b)[1..] == a[1..] + b;
      VisibleConcat(a[1..], b);
    }
  }

  /** Before the first word, `Squeeze` gives the space-joined words. */
  lemma {:induction false} SqueezeFresh(s: string)
    ensures Squeeze(s, false, false) == Join(Words(s), " ")
    decreases |s|
  {
    if s != [] {
      if IsSpace(s[0]) {
        SqueezeFresh(s[1..]);
        WordsSpaceCons(s);
      } else {
        SqueezeAfterWord(s[1..], false);
        JoinWordsCons(s[0], s[1..]);
        assert [s[0]] + s[1..] == s;
      }
    }
  }

  /** After a word, `Squeeze` gives the space-joined words, preceded by one
      space when whitespace comes first. */
  lemma {:induction false} SqueezeAfterWord(s: string, gap: bool)
    ensures Squeeze(s, true, gap) ==
      if Words(s) == [] then [] else (if gap || IsSpace(s[0]) then " " else "") + Join(Words(s), " ")
    decreases |s|
  {
    if s != [] {
      if IsSpace(s[0]) {
        SqueezeAfterWord(s[1..], true);
        WordsSpaceCons(s);
      } else {
        SqueezeAfterWord(s[1..], false);
        JoinWordsCons(s[0], s[1..]);
        assert [s[0]] + s[1..] == s;
      }
    }
  }

  /** Leading whitespace does not change the words. */
  lemma WordsSpaceCons(s: string)
    requires s != [] && IsSpace(s[0])
    ensures Words(s) == Words(s[1..])
  {
  }

  /** The space-joined words of a string that starts with a non-whitespace
      character `c`: `c`, then those of the rest, after one space if the rest
      starts with whitespace. */
  lemma JoinWordsCons(c: char, t: string)
    requires !IsSpace(c)
    ensures Join(Words([c] + t), " ") ==
      [c] + if Words(t) == [] then [] else (if IsSpace(t[0]) then " " else "") + Join(Words(t), " ")
  {
    var s := [c] + t;
    assert s[1..] == t;
    WordsUnfold(s);
    var lw := LeadingWord(t);
    assert LeadingWord(s) == [c] + lw;
    assert s[|LeadingWord(s)|..] == t[|lw|..];
    if t == [] || IsSpace(t[0]) {
      assert Words(s) == [[c]] + Words(t);
      if Words(t) != [] {
        JoinCons(Words(s), " ");
        assert Words(s)[1..] == Words(t);
      }
    } else {
      WordsUnfold(t);
      JoinHead([c], Words(t));
      assert Words(s) == [[c] + Words(t)[0]] + Words(t)[1..];
    }
  }

  /** Gluing `x` to the front of the first piece glues it to the front of the
      join. */
  lemma JoinHead(x: string, ws: seq<string>)
    requires |ws| > 0
    ensures Join([x + ws[0]] + ws[1..], " ") == x + Join(ws, " ")
  {
    var vs := [x + ws[0]] + ws[1..];
    assert vs[1..] == ws[1..];
    if |ws| > 1 {
      JoinCons(vs, " ");
      JoinCons(ws, " ");
    }
  }

  // ---------------------------------------------------------------------
  // s.replace(pat, "")
  // ---------------------------------------------------------------------

  /** `s.replace(pat, "")`: scanning left to right, every non-overlapping
      occurrence of `pat` is deleted. */
  function RemoveAll(s: string, pat: string): string
    requires pat != []
  {
    if s == [] then []
    else if StartsWith(s, pat) then RemoveAll(s[|pat|..], pat)
    else [s[0]] + RemoveAll(s[1..], pat)
  }

  /** Without an occurrence of `pat`, deleting all occurrences changes nothing. */
  lemma {:induction false} RemoveAllAbsent(s: string, pat: string)
    requires pat != [] && !Occurs(pat, s)
    ensures RemoveAll(s, pat) == s
  {
    if s != [] {
      assert s[0..] == s;
      assert !StartsWith(s, pat);
      forall i | 0 <= i <= |s[1..]| - |pat|
        ensures !StartsWith(s[1..][i..], pat)
      {
        assert s[1..][i..] == s[i + 1..];
      }
      RemoveAllAbsent(s[1..], pat);
    }
  }

  /** An occurrence of `pat` at the front is deleted. */
  lemma RemoveAllLeading(pat: string, t: string)
    requires pat != []
    ensures RemoveAll(pat + t, pat) == RemoveAll(t, pat)
  {
    assert (pat + t)[..|pat|] == pat;
    assert (pat + t)[|pat|..] == t;
  }

  /** A first character that cannot start `pat` is kept. */
  lemma RemoveAllKeeps(c: char, t: string, pat: string)
    requires pat != [] && c != pat[0]
    ensures RemoveAll([c] + t, pat) == [c] + RemoveAll(t, pat)
  {
    assert ([c] + t)[1..] == t;
  }

  // ---------------------------------------------------------------------
  // Decimal integers
  // ---------------------------------------------------------------------

  function DigitValue(c: char): nat
    requires IsDigit(c)
  {
    (c as int) - ('0' as int)
  }

  function DigitChar(d: nat): (c: char)
    requires d < 10
    ensures IsDigit(c) && DigitValue(c) == d
  {
    (('0' as int) + d) as char
  }

  /** The value of a string of ASCII digits, leading zeros allowed. */
  function DigitsValue(s: string): nat
    requires forall i :: 0 <= i < |s| ==> IsDigit(s[i])
  {
    if s == [] then 0 else 10 * DigitsValue(s[..|s| - 1]) + DigitValue(s[|s| - 1])
  }

  /** `str(n)`: the decimal rendering of `n`, without leading zeros. */
  function Show(n: nat): (s: string)
    ensures IsDigits(s)
    ensures |s| > 1 ==> s[0] != '0'
  {
    if n < 10 then [DigitChar(n)] else Show(n / 10) + [DigitChar(n % 10)]
  }

  /** Reading back the decimal rendering gives the number. */
  lemma {:induction false} ShowReadsBack(n: nat)
    ensures DigitsValue(Show(n)) == n
  {
    if n >= 10 {
      var s := Show(n);
      assert s[..|s| - 1] == Show(n / 10);
      ShowReadsBack(n / 10);
    }
  }
}
