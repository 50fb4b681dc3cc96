/**
 * The two string sanitisers of the products handler: `cleanString`, which
 * collapses whitespace runs and trims, and `cleanUrl`, which also peels off
 * stray brackets and quotes and keeps only http(s) URLs.
 */
module Clean {
  import opened JsValue

  // ---------------------------------------------------------------------
  // Characters

  /**
   * The characters the regular expression `\s` matches, which are also the
   * ones `String.prototype.trim` removes: the ECMAScript white space and line
   * terminator characters.
   */
  predicate IsWs(c: char) {
    c == '\t' || c == '\n' || c == '\U{000B}' || c == '\U{000C}' || c == '\r' || c == ' '
    || c == '\U{00A0}' || c == '\U{1680}' || ('\U{2000}' <= c <= '\U{200A}')
    || c == '\U{2028}' || c == '\U{2029}' || c == '\U{202F}' || c == '\U{205F}'
    || c == '\U{3000}' || c == '\U{FEFF}'
  }

  /** The character classes the sanitisers strip: whitespace, brackets, quotes. */
  datatype CharClass = Whitespace | OpenBracket | CloseBracket | DoubleQuote | SingleQuote

  predicate Matches(k: CharClass, c: char) {
    match k
    case Whitespace => IsWs(c)
    case OpenBracket => c == '['
    case CloseBracket => c == ']'
    case DoubleQuote => c == '"'
    case SingleQuote => c == '\''
  }

  // ---------------------------------------------------------------------
  // Anchored removals: `s.replace(/^x+/, "")` and `s.replace(/x+$/, "")`

  /** The length of the longest prefix of `s` whose characters are all in class `k`. */
  function LeadingRun(s: string, k: CharClass): (n: nat)
    ensures n <= |s|
    ensures forall i | 0 <= i < n :: Matches(k, s[i])
    ensures n == |s| || !Matches(k, s[n])
  {
    if s != [] && Matches(k, s[0]) then 1 + LeadingRun(s[1..], k) else 0
  }

  /** The length of the longest suffix of `s` whose characters are all in class `k`. */
  function TrailingRun(s: string, k: CharClass): (n: nat)
    ensures n <= |s|
    ensures forall i | |s| - n <= i < |s| :: Matches(k, s[i])
    ensures n == |s| || !Matches(k, s[|s| - n - 1])
  {
    if s != [] && Matches(k, s[|s| - 1]) then 1 + TrailingRun(s[..|s| - 1], k) else 0
  }

  /** `s.replace(/^k+/, "")`: removes the longest prefix of `s` in class `k`. */
  function DropWhile(s: string, k: CharClass): string {
    s[LeadingRun(s, k)..]
  }

  /** `s.replace(/k+$/, "")`: removes the longest suffix of `s` in class `k`. */
  function DropWhileEnd(s: string, k: CharClass): string {
    s[..|s| - TrailingRun(s, k)]
  }

  /** What is left after a drop neither starts (for DropWhile) nor ends (for DropWhileEnd) in the class. */
  lemma DropEnds(s: string, k: CharClass)
    ensures var r := DropWhile(s, k); r == [] || !Matches(k, r[0])
    ensures var r := DropWhileEnd(s, k); r == [] || !Matches(k, r[|r| - 1])
  {
  }

  lemma {:induction false} DropWhileAfterRun(x: string, y: string, k: CharClass)
    requires forall i | 0 <= i < |x| :: Matches(k, x[i])
    requires y == [] || !Matches(k, y[0])
    ensures DropWhile(x + y, k) == y
  {
    LeadingRunAfterRun(x, y, k);
  }

  lemma {:induction false} LeadingRunAfterRun(x: string, y: string, k: CharClass)
    requires forall i | 0 <= i < |x| :: Matches(k, x[i])
    requires y == [] || !Matches(k, y[0])
    ensures LeadingRun(x + y, k) == |x|
  {
    if x == [] {
      assert x + y == y;
    } else {
      assert (x + y)[0] == x[0];
      assert (x + y)[1..] == x[1..] + y;
      LeadingRunAfterRun(x[1..], y, k);
    }
  }

  lemma {:induction false} DropWhileEndBeforeRun(x: string, y: string, k: CharClass)
    requires forall i | 0 <= i < |y| :: Matches(k, y[i])
    requires x == [] || !Matches(k, x[|x| - 1])
    ensures DropWhileEnd(x + y, k) == x
  {
    TrailingRunBeforeRun(x, y, k);
    assert (x + y)[..|x|] == x;
  }

  lemma {:induction false} TrailingRunBeforeRun(x: string, y: string, k: CharClass)
    requires forall i | 0 <= i < |y| :: Matches(k, y[i])
    requires x == [] || !Matches(k, x[|x| - 1])
    ensures TrailingRun(x + y, k) == |y|
  {
    if y == [] {
      assert x + y == x;
    } else {
      assert (x + y)[|x + y| - 1] == y[|y| - 1];
      assert (x + y)[..|x + y| - 1] == x + y[..|y| - 1];
      TrailingRunBeforeRun(x, y[..|y| - 1], k);
    }
  }

  // ---------------------------------------------------------------------
  // Shapes of sanitised text

  /** Every whitespace character is a plain space and is followed by no other whitespace. */
  predicate IsCollapsed(s: string) {
    forall i | 0 <= i < |s| && IsWs(s[i]) :: s[i] == ' ' && (i + 1 < |s| ==> !IsWs(s[i + 1]))
  }

  /** No whitespace at either end. */
  predicate IsTrimmed(s: string) {
    s == [] || (!IsWs(s[0]) && !IsWs(s[|s| - 1]))
  }

  /** The shape of every `cleanString` result. */
  predicate IsClean(s: string) {
    IsCollapsed(s) && IsTrimmed(s)
  }

  /** The non-whitespace characters of `s`, in order: the text that sanitising keeps. */
  function NonWs(s: string): string {
    if s == [] then [] else (if IsWs(s[0]) then [] else [s[0]]) + NonWs(s[1..])
  }

  lemma {:induction false} NonWsAppend(a: string, b: string)
    ensures NonWs(a + b) == NonWs(a) + NonWs(b)
  {
    if a == [] {
      assert a + b == b;
    } else {
      var h := if IsWs(a[0]) then [] else [a[0]];
      assert (a + b)[0] == a[0];
      assert (a + b)[1..] == a[1..] + b;
      NonWsAppend(a[1..], b);
      calc {
        NonWs(a + b);
        h + NonWs(a[1..] + b);
        h + (NonWs(a[1..]) + NonWs(b));
        (h + NonWs(a[1..])) + NonWs(b);
        NonWs(a) + NonWs(b);
      }
    }
  }

  lemma {:induction false} NonWsOfWhitespace(a: string)
    requires forall i | 0 <= i < |a| :: IsWs(a[i])
    ensures NonWs(a) == []
  {
    if a != [] {
      NonWsOfWhitespace(a[1..]);
    }
  }

  lemma CollapsedSlice(s: string, lo: nat, hi: nat)
    requires IsCollapsed(s) && lo <= hi <= |s|
    ensures IsCollapsed(s[lo..hi])
  {
    var t := s[lo..hi];
    forall i | 0 <= i < |t| && IsWs(t[i])
      ensures t[i] == ' ' && (i + 1 < |t| ==> !IsWs(t[i + 1]))
    {
      assert t[i] == s[lo + i];
      if i + 1 < |t| {
        assert t[i + 1] == s[lo + i + 1];
      }
    }
  }

  lemma CollapsedConcat(x: string, y: string)
    requires IsCollapsed(x) && IsCollapsed(y)
    requires x == [] || y == [] || !IsWs(x[|x| - 1]) || !IsWs(y[0])
    ensures IsCollapsed(x + y)
  {
    var t := x + y;
    forall i | 0 <= i < |t| && IsWs(t[i])
      ensures t[i] == ' ' && (i + 1 < |t| ==> !IsWs(t[i + 1]))
    {
      if i < |x| {
        assert t[i] == x[i];
        if i + 1 < |x| {
          assert t[i + 1] == x[i + 1];
        } else if i + 1 < |t| {
          assert t[i + 1] == y[0];
        }
      } else {
        assert t[i] == y[i - |x|];
        if i + 1 < |t| {
          assert t[i + 1] == y[i - |x| + 1];
        }
      }
    }
  }

  // ---------------------------------------------------------------------
  // Trimming: `String.prototype.trim`

  function TrimStart(s: string): string {
    DropWhile(s, Whitespace)
  }

  function TrimEnd(s: string): string {
    DropWhileEnd(s, Whitespace)
  }

  /** `s.trim()`. */
  function Trim(s: string): string {
    TrimEnd(TrimStart(s))
  }

  /** Trimming leaves no whitespace at either end, keeps all the text and keeps collapsed text collapsed. */
  lemma TrimShape(s: string)
    ensures IsTrimmed(Trim(s))
    ensures NonWs(Trim(s)) == NonWs(s)
    ensures IsCollapsed(s) ==> IsCollapsed(Trim(s))
  {
    TrimStartKeeps(s);
    TrimEndKeeps(TrimStart(s));
  }

  lemma TrimStartKeeps(s: string)
    ensures NonWs(TrimStart(s)) == NonWs(s)
    ensures IsCollapsed(s) ==> IsCollapsed(TrimStart(s))
  {
    var a := TrimStart(s);
    var k := |s| - |a|;
    assert s == s[..k] + a;
    NonWsAppend(s[..k], a);
    NonWsOfWhitespace(s[..k]);
    if IsCollapsed(s) {
      CollapsedSlice(s, k, |s|);
    }
  }

  lemma TrimEndKeeps(s: string)
    ensures NonWs(TrimEnd(s)) == NonWs(s)
    ensures IsCollapsed(s) ==> IsCollapsed(TrimEnd(s))
  {
    var a := TrimEnd(s);
    assert s == a + s[|a|..];
    NonWsAppend(a, s[|a|..]);
    NonWsOfWhitespace(s[|a|..]);
    if IsCollapsed(s) {
      CollapsedSlice(s, 0, |a|);
    }
  }

  lemma TrimOfTrimmed(s: string)
    requires IsTrimmed(s)
    ensures Trim(s) == s
  {
  }

  /**
   * `trim()` removes exactly the whitespace around the text and nothing
   * inside it: whitespace, then trimmed text, then whitespace, trims to that
   * text. Every string splits this way.
   */
  lemma TrimOfPadded(a: string, m: string, b: string)
    requires forall i | 0 <= i < |a| :: IsWs(a[i])
    requires forall i | 0 <= i < |b| :: IsWs(b[i])
    requires IsTrimmed(m)
    ensures Trim(a + m + b) == m
  {
    if m == [] {
      var ab := a + m + b;
      assert forall i | 0 <= i < |ab| :: IsWs(ab[i]) by {
        forall i | 0 <= i < |ab|
          ensures IsWs(ab[i])
        {
          if i < |a| {
            assert ab[i] == a[i];
          } else {
            assert ab[i] == b[i - |a|];
          }
        }
      }
      assert ab == ab + [];
      DropWhileAfterRun(ab, [], Whitespace);
    } else {
      assert a + m + b == a + (m + b);
      assert (m + b)[0] == m[0];
      DropWhileAfterRun(a, m + b, Whitespace);
      DropWhileEndBeforeRun(m, b, Whitespace);
    }
  }

  // ---------------------------------------------------------------------
  // Collapsing: `s.replace(/\s+/g, " ")`

  /** Replaces every maximal run of whitespace in `s` by a single space. */
  function Collapse(s: string): string
    decreases |s|
  {
    if s == [] then []
    else if IsWs(s[0]) then
      var rest := TrimStart(s);
      assert |rest| < |s|;
      " " + Collapse(rest)
    else
      [s[0]] + Collapse(s[1..])
  }

  /** Collapsed output: no whitespace but single spaces, and a first character that is whitespace exactly when the input's is. */
  lemma {:induction false} CollapseShape(s: string)
    ensures IsCollapsed(Collapse(s))
    ensures Collapse(s) == [] <==> s == []
    ensures s != [] ==> (IsWs(Collapse(s)[0]) <==> IsWs(s[0]))
    decreases |s|
  {
    if s != [] {
      if IsWs(s[0]) {
        var rest := TrimStart(s);
        CollapseShape(rest);
        CollapsedConcat(" ", Collapse(rest));
      } else {
        CollapseShape(s[1..]);
        CollapsedConcat([s[0]], Collapse(s[1..]));
      }
    }
  }

  /**
   * The same replacement, written as the left-to-right scan a regular
   * expression engine performs: `inRun` records that a space has already
   * been emitted for the current run of whitespace.
   */
  function CollapseScan(s: string, inRun: bool): string {
    if s == [] then []
    else if IsWs(s[0]) then (if inRun then [] else " ") + CollapseScan(s[1..], true)
    else [s[0]] + CollapseScan(s[1..], false)
  }

  lemma {:induction false} ScanInRun(s: string)
    ensures CollapseScan(s, true) == CollapseScan(TrimStart(s), false)
  {
    if s != [] && IsWs(s[0]) {
      ScanInRun(s[1..]);
    }
  }

  /** Collapse agrees with the scanning definition of the global replacement on every string. */
  lemma {:induction false} CollapseMatchesScan(s: string)
    ensures Collapse(s) == CollapseScan(s, false)
    decreases |s|
  {
    if s != [] {
      if IsWs(s[0]) {
        assert TrimStart(s) == TrimStart(s[1..]);
        ScanInRun(s[1..]);
        CollapseMatchesScan(TrimStart(s));
      } else {
        CollapseMatchesScan(s[1..]);
      }
    }
  }

  /** Collapsing keeps the text: only whitespace is replaced. */
  lemma {:induction false} CollapseKeepsText(s: string)
    ensures NonWs(Collapse(s)) == NonWs(s)
    decreases |s|
  {
    if s != [] {
      if IsWs(s[0]) {
        var rest := TrimStart(s);
        CollapseKeepsText(rest);
        assert s == s[..|s| - |rest|] + rest;
        NonWsAppend(s[..|s| - |rest|], rest);
        NonWsOfWhitespace(s[..|s| - |rest|]);
        NonWsAppend(" ", Collapse(rest));
      } else {
        CollapseKeepsText(s[1..]);
        NonWsAppend([s[0]], Collapse(s[1..]));
        assert s == [s[0]] + s[1..];
        NonWsAppend([s[0]], s[1..]);
      }
    }
  }

  lemma {:induction false} CollapseOfCollapsed(s: string)
    requires IsCollapsed(s)
    ensures Collapse(s) == s
    decreases |s|
  {
    if s != [] {
      CollapsedSlice(s, 1, |s|);
      if IsWs(s[0]) {
        assert TrimStart(s) == s[1..] by {
          assert TrimStart(s) == TrimStart(s[1..]);
        }
      }
      CollapseOfCollapsed(s[1..]);
    }
  }

  // ---------------------------------------------------------------------
  // cleanString

  /**
   * `cleanString(v)`: "" for null and undefined; otherwise `String(v)` with
   * whitespace runs collapsed to one space and the ends trimmed.
   */
  function CleanString(v: Value): string {
    if IsNullish(v) then "" else Trim(Collapse(ToStr(v)))
  }

  /**
   * What `cleanString` guarantees: "" for null and undefined; otherwise
   * clean text (single spaces only, nothing at the ends) holding exactly
   * the non-whitespace characters of `String(v)`, in order: the words of
   * `String(v)` with exactly one space between each two of them.
   */
  lemma CleanStringShape(v: Value)
    ensures IsNullish(v) ==> CleanString(v) == ""
    ensures IsClean(CleanString(v))
    ensures !IsNullish(v) ==> NonWs(CleanString(v)) == NonWs(ToStr(v))
    ensures !IsNullish(v) ==> CleanString(v) == JoinWords(Words(ToStr(v)))
  {
    if !IsNullish(v) {
      TrimCollapseWords(ToStr(v));
      CollapseShape(ToStr(v));
      CollapseKeepsText(ToStr(v));
      TrimShape(Collapse(ToStr(v)));
    }
  }

  /** The strings `cleanString` leaves unchanged are exactly the clean ones. */
  lemma CleanStringFixedPoints(s: string)
    ensures CleanString(Str(s)) == s <==> IsClean(s)
  {
    CleanStringShape(Str(s));
    if IsClean(s) {
      CollapseOfCollapsed(s);
      TrimOfTrimmed(s);
    }
  }

  /** Sanitising twice is sanitising once. */
  lemma CleanStringIdempotent(v: Value)
    ensures CleanString(Str(CleanString(v))) == CleanString(v)
  {
    CleanStringShape(v);
    CleanStringFixedPoints(CleanString(v));
  }

  // ---------------------------------------------------------------------
  // Words: `cleanString` as "the words of the text, one space apart"

  /** The length of the longest prefix of `s` holding no whitespace. */
  function WordLength(s: string): (n: nat)
    ensures n <= |s|
    ensures forall i | 0 <= i < n :: !IsWs(s[i])
    ensures n == |s| || IsWs(s[n])
  {
    if s != [] && !IsWs(s[0]) then 1 + WordLength(s[1..]) else 0
  }

  /** The words of `s`: its maximal runs of non-whitespace characters, in order. */
  function Words(s: string): seq<string>
    decreases |s|
  {
    if s == [] then []
    else if IsWs(s[0]) then Words(s[1..])
    else
      var n := WordLength(s);
      [s[..n]] + Words(s[n..])
  }

  /** The words, one space between each two of them. */
  function JoinWords(ws: seq<string>): string {
    if ws == [] then []
    else if |ws| == 1 then ws[0]
    else ws[0] + " " + JoinWords(ws[1..])
  }

  /** A word: non-empty text without whitespace. */
  predicate IsWord(w: string) {
    w != [] && NoWs(w)
  }

  /** Every word is non-empty and holds no whitespace. */
  lemma {:induction false} WordsAreWords(s: string)
    ensures forall i | 0 <= i < |Words(s)| :: IsWord(Words(s)[i])
    decreases |s|
  {
    var t0 := TrimStart(s);
    WordsOfTrimStart(s);
    if t0 != [] {
      DropEnds(s, Whitespace);
      var w, t := FirstWord(t0);
      WordsAreWords(t);
      assert IsWord(w);
    }
  }

  /** Leading whitespace separates no words. */
  lemma {:induction false} WordsOfTrimStart(s: string)
    ensures Words(TrimStart(s)) == Words(s)
  {
    if s != [] && IsWs(s[0]) {
      assert TrimStart(s) == TrimStart(s[1..]);
      WordsOfTrimStart(s[1..]);
    } else if s != [] {
      TrimStartOfPlainStart(s);
    }
  }

  /** Collapsing passes over a word unchanged. */
  lemma {:induction false} CollapseAfterWord(w: string, r: string)
    requires forall i | 0 <= i < |w| :: !IsWs(w[i])
    ensures Collapse(w + r) == w + Collapse(r)
  {
    if w == [] {
      assert w + r == r;
    } else {
      assert (w + r)[0] == w[0];
      assert (w + r)[1..] == w[1..] + r;
      assert Collapse(w + r) == [w[0]] + Collapse(w[1..] + r);
      CollapseAfterWord(w[1..], r);
      assert w == [w[0]] + w[1..];
    }
  }

  /** A run of whitespace collapses to one space. */
  lemma CollapseOfSpaces(s: string)
    requires s != [] && IsWs(s[0])
    ensures Collapse(s) == " " + Collapse(TrimStart(s))
  {
  }

  /** The first word of a word followed by whitespace is that word. */
  lemma {:induction false} WordLengthOfWord(w: string, r: string)
    requires forall i | 0 <= i < |w| :: !IsWs(w[i])
    requires r == [] || IsWs(r[0])
    ensures WordLength(w + r) == |w|
  {
    if w == [] {
      assert w + r == r;
    } else {
      assert (w + r)[0] == w[0];
      assert (w + r)[1..] == w[1..] + r;
      WordLengthOfWord(w[1..], r);
    }
  }

  /** Text starting with a word splits into that word and the words after it. */
  lemma WordsOfPlainStart(s: string)
    requires s != [] && !IsWs(s[0])
    ensures Words(s) == [s[..WordLength(s)]] + Words(s[WordLength(s)..])
  {
  }

  /** Trailing whitespace can only come from the part after a non-whitespace character. */
  lemma TrimEndAfter(a: string, b: string)
    requires b != [] && !IsWs(b[0])
    ensures TrimEnd(a + b) == a + TrimEnd(b)
  {
    var b' := TrimEnd(b);
    var z := b[|b'|..];
    DropEnds(b, Whitespace);
    assert b == b' + z;
    assert a + b == (a + b') + z;
    DropWhileEndBeforeRun(a + b', z, Whitespace);
  }

  /** On text that does not start with whitespace, collapsing and trimming the end joins its words. */
  lemma {:induction false} CollapsedWords(s: string)
    requires s == [] || !IsWs(s[0])
    ensures TrimEnd(Collapse(s)) == JoinWords(Words(s))
    decreases |s|
  {
    if s != [] {
      var w, t := FirstWord(s);
      if t == [] {
        LastWord(w, Collapse(s));
      } else {
        CollapsedWords(t);
        InnerWord(w, t);
      }
    }
  }

  /** Text starting with a word: the word, then whatever the following whitespace leaves. */
  lemma FirstWord(s: string) returns (w: string, t: string)
    requires s != [] && !IsWs(s[0])
    ensures w != [] && forall i | 0 <= i < |w| :: !IsWs(w[i])
    ensures t == [] || !IsWs(t[0])
    ensures |t| < |s|
    ensures Words(s) == [w] + Words(t)
    ensures t == [] ==> Collapse(s) == w || Collapse(s) == w + " "
    ensures t != [] ==> Collapse(s) == w + (" " + Collapse(t))
  {
    var n := WordLength(s);
    var rest := s[n..];
    w := s[..n];
    t := TrimStart(rest);
    WordsOfPlainStart(s);
    WordsOfTrimStart(rest);
    DropEnds(rest, Whitespace);
    CollapseOfWordAndRest(s, w, rest);
  }

  lemma CollapseOfWordAndRest(s: string, w: string, rest: string)
    requires forall i | 0 <= i < |w| :: !IsWs(w[i])
    requires s == w + rest && (rest == [] || IsWs(rest[0]))
    ensures TrimStart(rest) == [] ==> Collapse(s) == w || Collapse(s) == w + " "
    ensures TrimStart(rest) != [] ==> Collapse(s) == w + (" " + Collapse(TrimStart(rest)))
  {
    CollapseAfterWord(w, rest);
    if rest != [] {
      CollapseOfSpaces(rest);
    } else {
      assert Collapse(s) == w + [];
    }
  }

  /** The last word: what follows it collapses to at most one space, which trimming removes. */
  lemma LastWord(w: string, c: string)
    requires forall i | 0 <= i < |w| :: !IsWs(w[i])
    requires c == w || c == w + " "
    ensures TrimEnd(c) == JoinWords([w])
  {
    if c == w {
      assert c == w + [];
      DropWhileEndBeforeRun(w, [], Whitespace);
    } else {
      DropWhileEndBeforeRun(w, " ", Whitespace);
    }
  }

  /** A word followed by further words: one space separates them. */
  lemma InnerWord(w: string, t: string)
    requires t != [] && !IsWs(t[0])
    requires TrimEnd(Collapse(t)) == JoinWords(Words(t))
    ensures TrimEnd(w + (" " + Collapse(t))) == JoinWords([w] + Words(t))
  {
    CollapseShape(t);
    assert w + (" " + Collapse(t)) == (w + " ") + Collapse(t);
    TrimEndAfter(w + " ", Collapse(t));
    WordsOfPlainStart(t);
    assert ([w] + Words(t))[1..] == Words(t);
  }

  /**
   * `cleanString` keeps the words of `String(v)` exactly: splitting its
   * result into words gives the same words back.
   */
  lemma CleanStringKeepsWords(v: Value)
    requires !IsNullish(v)
    ensures Words(CleanString(v)) == Words(ToStr(v))
  {
    TrimCollapseWords(ToStr(v));
    WordsAreWords(ToStr(v));
    WordsOfJoin(Words(ToStr(v)));
  }

  /** Collapsing and trimming joins the words of the text with single spaces. */
  lemma TrimCollapseWords(s: string)
    ensures Trim(Collapse(s)) == JoinWords(Words(s))
  {
    var t := TrimStart(s);
    DropEnds(s, Whitespace);
    CollapsedWords(t);
    WordsOfTrimStart(s);
    if s != [] && IsWs(s[0]) {
      CollapseOfSpaces(s);
      CollapseShape(t);
      DropWhileAfterRun(" ", Collapse(t), Whitespace);
    } else if s != [] {
      TrimStartOfPlainStart(s);
      CollapseShape(s);
      TrimStartOfPlainStart(Collapse(s));
    }
  }

  /** Joining words and splitting them again gives the same words back. */
  lemma {:induction false} WordsOfJoin(ws: seq<string>)
    requires forall i | 0 <= i < |ws| :: IsWord(ws[i])
    ensures Words(JoinWords(ws)) == ws
  {
    if |ws| == 1 {
      WordsOfWord(ws[0]);
    } else if ws != [] {
      var r := JoinWords(ws[1..]);
      JoinStart(ws[1..]);
      WordsOfJoin(ws[1..]);
      WordsOfWordThen(ws[0], r);
    }
  }

  lemma JoinStart(ws: seq<string>)
    requires ws != [] && forall i | 0 <= i < |ws| :: IsWord(ws[i])
    ensures JoinWords(ws) != [] && !IsWs(JoinWords(ws)[0])
  {
    assert ws[0][0] in ws[0];
    if |ws| > 1 {
      assert JoinWords(ws)[0] == ws[0][0];
    }
  }

  lemma WordIndex(w: string)
    requires IsWord(w)
    ensures forall i | 0 <= i < |w| :: !IsWs(w[i])
  {
    assert forall i | 0 <= i < |w| :: w[i] in w;
  }

  /** A single word splits into itself. */
  lemma WordsOfWord(w: string)
    requires IsWord(w)
    ensures Words(w) == [w]
  {
    WordIndex(w);
    assert w + [] == w;
    WordsAfterWord(w, []);
  }

  /** A word, a space, then text starting with a word: the first word comes off. */
  lemma WordsOfWordThen(w: string, r: string)
    requires IsWord(w) && r != [] && !IsWs(r[0])
    ensures Words(w + " " + r) == [w] + Words(r)
  {
    WordIndex(w);
    assert w + " " + r == w + (" " + r);
    WordsAfterWord(w, " " + r);
    DropWhileAfterRun(" ", r, Whitespace);
    WordsOfTrimStart(" " + r);
  }

  /** A word followed by nothing or by whitespace comes off as the first word. */
  lemma WordsAfterWord(w: string, rest: string)
    requires w != [] && forall i | 0 <= i < |w| :: !IsWs(w[i])
    requires rest == [] || IsWs(rest[0])
    ensures Words(w + rest) == [w] + Words(rest)
  {
    var s := w + rest;
    WordLengthOfWord(w, rest);
    assert s[0] == w[0];
    WordsOfPlainStart(s);
    assert s[..|w|] == w && s[|w|..] == rest;
  }

  // ---------------------------------------------------------------------
  // cleanUrl

  /**
   * `/^https?:\/\//i.test(s)`: "http://" or "https://" at the start, letters
   * in either case. Without the `u` flag, case-insensitive matching only
   * folds a character onto an ASCII letter when it is one itself, so the
   * letters to accept are exactly the ASCII upper and lower case ones.
   */
  predicate HasHttpScheme(s: string) {
    |s| >= 7
    && (s[0] == 'h' || s[0] == 'H') && (s[1] == 't' || s[1] == 'T')
    && (s[2] == 't' || s[2] == 'T') && (s[3] == 'p' || s[3] == 'P')
    && ((s[4] == ':' && s[5] == '/' && s[6] == '/')
        || (|s| >= 8 && (s[4] == 's' || s[4] == 'S') && s[5] == ':' && s[6] == '/' && s[7] == '/'))
  }

  /**
   * The three stripping steps of `cleanUrl`: leading `[`s and trailing `]`s,
   * then double quotes at both ends, then single quotes at both ends.
   */
  function StripWrapping(s: string): string {
    var s1 := DropWhileEnd(DropWhile(s, OpenBracket), CloseBracket);
    var s2 := DropWhileEnd(DropWhile(s1, DoubleQuote), DoubleQuote);
    DropWhileEnd(DropWhile(s2, SingleQuote), SingleQuote)
  }

  /** `r` does not end with a character of class `k`. */
  predicate EndsOutside(r: string, k: CharClass) {
    r == [] || !Matches(k, r[|r| - 1])
  }

  /** After stripping, no single quote is left at the end. */
  lemma StripWrappingLast(s: string)
    ensures EndsOutside(StripWrapping(s), SingleQuote)
  {
    var s1 := DropWhileEnd(DropWhile(s, OpenBracket), CloseBracket);
    var s2 := DropWhileEnd(DropWhile(s1, DoubleQuote), DoubleQuote);
    DropEnds(DropWhile(s2, SingleQuote), SingleQuote);
  }

  lemma DropKeepsCollapsed(s: string, k: CharClass)
    requires IsCollapsed(s)
    ensures IsCollapsed(DropWhile(s, k)) && IsCollapsed(DropWhileEnd(s, k))
  {
    CollapsedSlice(s, |s| - |DropWhile(s, k)|, |s|);
    CollapsedSlice(s, 0, |DropWhileEnd(s, k)|);
  }

  lemma StripWrappingKeepsCollapsed(s: string)
    requires IsCollapsed(s)
    ensures IsCollapsed(StripWrapping(s))
  {
    var a := DropWhile(s, OpenBracket);
    DropKeepsCollapsed(s, OpenBracket);
    var b := DropWhileEnd(a, CloseBracket);
    DropKeepsCollapsed(a, CloseBracket);
    var c := DropWhile(b, DoubleQuote);
    DropKeepsCollapsed(b, DoubleQuote);
    var d := DropWhileEnd(c, DoubleQuote);
    DropKeepsCollapsed(c, DoubleQuote);
    var e := DropWhile(d, SingleQuote);
    DropKeepsCollapsed(d, SingleQuote);
    DropKeepsCollapsed(e, SingleQuote);
  }

  /**
   * `cleanUrl(v)`: the sanitised string with its wrapping stripped when that
   * begins with "http://" or "https://" in any letter case, and "" otherwise.
   */
  function CleanUrl(v: Value): string {
    UrlFrom(CleanString(v))
  }

  /** The step of `cleanUrl` after sanitising: strip the wrapping, check the scheme. */
  function UrlFrom(c: string): string {
    var s := StripWrapping(c);
    if HasHttpScheme(s) then s else ""
  }

  // ---------------------------------------------------------------------
  // What cleanUrl promises

  /**
   * Every result is "" or an http(s) URL (so it starts with `h` or `H`,
   * never with whitespace); a URL result has no whitespace runs and does
   * not end with a single quote.
   */
  lemma CleanUrlShape(v: Value)
    ensures var r := CleanUrl(v); r == "" || HasHttpScheme(r)
    ensures IsCollapsed(CleanUrl(v))
    ensures EndsOutside(CleanUrl(v), SingleQuote)
  {
    var c := CleanString(v);
    CleanStringIsClean(v);
    UrlFromShape(c);
    assert CleanUrl(v) == UrlFrom(c);
  }

  lemma CleanStringIsClean(v: Value)
    ensures IsClean(CleanString(v))
  {
    CleanStringShape(v);
  }

  lemma UrlFromShape(c: string)
    requires IsCollapsed(c)
    ensures var r := UrlFrom(c); r == "" || HasHttpScheme(r)
    ensures IsCollapsed(UrlFrom(c))
    ensures EndsOutside(UrlFrom(c), SingleQuote)
  {
    var s := StripWrapping(c);
    if HasHttpScheme(s) {
      StripWrappingKeepsCollapsed(c);
      StripWrappingLast(c);
    }
  }

  /** `n` copies of `c`. */
  function Repeat(c: char, n: nat): (r: string)
    ensures |r| == n
  {
    if n == 0 then [] else [c] + Repeat(c, n - 1)
  }

  lemma {:induction false} RepeatSnoc(c: char, n: nat)
    requires n > 0
    ensures Repeat(c, n) == Repeat(c, n - 1) + [c]
  {
    if n > 1 {
      RepeatSnoc(c, n - 1);
    }
  }

  /** Stripping a leading run of `c`s from `Repeat(c, n) + y` leaves `y`. */
  lemma {:induction false} DropRepeat(c: char, n: nat, y: string, k: CharClass)
    requires Matches(k, c)
    requires y == [] || !Matches(k, y[0])
    ensures DropWhile(Repeat(c, n) + y, k) == y
  {
    if n > 0 {
      assert Repeat(c, n) + y == [c] + (Repeat(c, n - 1) + y);
      DropRepeat(c, n - 1, y, k);
    }
  }

  /** Stripping a trailing run of `c`s from `x + Repeat(c, n)` leaves `x`. */
  lemma {:induction false} DropEndRepeat(x: string, c: char, n: nat, k: CharClass)
    requires Matches(k, c)
    requires x == [] || !Matches(k, x[|x| - 1])
    ensures DropWhileEnd(x + Repeat(c, n), k) == x
  {
    var s := x + Repeat(c, n);
    RepeatIsAll(c, n);
    assert TrailingRun(s, k) == n;
    assert s[..|s| - n] == x;
  }

  lemma {:induction false} RepeatIsAll(c: char, n: nat)
    ensures forall i | 0 <= i < n :: Repeat(c, n)[i] == c
  {
    if n > 0 {
      RepeatIsAll(c, n - 1);
    }
  }

  /** No character of `s` is whitespace. */
  predicate NoWs(s: string) {
    forall c | c in s :: !IsWs(c)
  }

  lemma NoWsIsClean(s: string)
    requires NoWs(s)
    ensures IsClean(s)
  {
    assert forall i | 0 <= i < |s| :: s[i] in s;
  }

  /** Text that neither begins nor ends with a bracket or a quote has nothing to strip. */
  lemma StripWrappingUnwrapped(s: string)
    requires s != []
    requires !Matches(OpenBracket, s[0]) && !Matches(DoubleQuote, s[0]) && !Matches(SingleQuote, s[0])
    requires var last := s[|s| - 1]; !Matches(CloseBracket, last) && !Matches(DoubleQuote, last) && !Matches(SingleQuote, last)
    ensures StripWrapping(s) == s
  {
  }

  /** `u` with `n` copies of `l` in front and `m` copies of `r` behind. */
  function Wrap(u: string, l: char, n: nat, r: char, m: nat): (w: string)
    ensures |w| == n + |u| + m
  {
    Repeat(l, n) + u + Repeat(r, m)
  }

  lemma WrapNone(u: string, l: char, r: char)
    ensures Wrap(u, l, 0, r, 0) == u
  {
    assert Repeat(l, 0) + u + Repeat(r, 0) == u;
  }

  lemma WrapOnce(u: string, l: char, r: char)
    ensures Wrap(u, l, 1, r, 1) == [l] + u + [r]
  {
    assert Repeat(l, 1) == [l] && Repeat(r, 1) == [r];
  }

  /** Wrapping clean, non-empty text in characters that are not whitespace keeps it clean. */
  lemma WrapKeepsClean(u: string, l: char, n: nat, r: char, m: nat)
    requires IsClean(u) && u != [] && !IsWs(l) && !IsWs(r)
    ensures IsClean(Wrap(u, l, n, r, m))
    ensures var w := Wrap(u, l, n, r, m); w[0] == (if n == 0 then u[0] else l)
    ensures var w := Wrap(u, l, n, r, m); w[|w| - 1] == (if m == 0 then u[|u| - 1] else r)
  {
    var x, y := Repeat(l, n), Repeat(r, m);
    RunHasNoWs(l, n);
    RunHasNoWs(r, m);
    NoWsIsClean(x);
    NoWsIsClean(y);
    if n > 0 {
      RepeatSnoc(l, n);
      assert x[|x| - 1] == l;
      assert x[0] == l;
    }
    if m > 0 {
      assert y[0] == r;
      RepeatSnoc(r, m);
      assert y[|y| - 1] == r;
    }
    CollapsedConcat(x, u);
    CollapsedConcat(x + u, y);
  }

  /** One stripping step: `Wrap(u, l, n, r, m)` loses its `l`s and `r`s when `u` neither starts with `l` nor ends with `r`. */
  lemma StripWrap(u: string, l: char, n: nat, r: char, m: nat, k: CharClass, k': CharClass)
    requires Matches(k, l) && Matches(k', r)
    requires u != [] && !Matches(k, u[0]) && !Matches(k', u[|u| - 1])
    ensures DropWhileEnd(DropWhile(Wrap(u, l, n, r, m), k), k') == u
  {
    assert Wrap(u, l, n, r, m) == Repeat(l, n) + (u + Repeat(r, m));
    DropRepeat(l, n, u + Repeat(r, m), k);
    DropEndRepeat(u, r, m, k');
  }

  /**
   * Stray wrapping goes: a clean http(s) URL wrapped in any number of single
   * quotes, then of double quotes, then of `[` and `]`, comes out bare. With
   * no wrapping at all this says that such a URL is returned unchanged,
   * letter case included.
   */
  lemma CleanUrlStripsWrapping(u: string, open: nat, dq: nat, sq: nat, sq': nat, dq': nat, close: nat)
    requires IsClean(u) && HasHttpScheme(u)
    requires var last := u[|u| - 1]; !Matches(CloseBracket, last) && !Matches(DoubleQuote, last) && !Matches(SingleQuote, last)
    ensures CleanUrl(Str(Wrap(Wrap(Wrap(u, '\'', sq, '\'', sq'), '"', dq, '"', dq'), '[', open, ']', close))) == u
  {
    var m0 := Wrap(u, '\'', sq, '\'', sq');
    WrapKeepsClean(u, '\'', sq, '\'', sq');
    var m1 := Wrap(m0, '"', dq, '"', dq');
    WrapKeepsClean(m0, '"', dq, '"', dq');
    var w := Wrap(m1, '[', open, ']', close);
    WrapKeepsClean(m1, '[', open, ']', close);
    CleanStringFixedPoints(w);
    assert StripWrapping(w) == u by {
      StripWrap(m1, '[', open, ']', close, OpenBracket, CloseBracket);
      StripWrap(m0, '"', dq, '"', dq', DoubleQuote, DoubleQuote);
      StripWrap(u, '\'', sq, '\'', sq', SingleQuote, SingleQuote);
    }
  }

  lemma {:induction false} RunHasNoWs(c: char, n: nat)
    requires !IsWs(c)
    ensures NoWs(Repeat(c, n))
  {
    if n > 0 {
      RunHasNoWs(c, n - 1);
      assert Repeat(c, n) == [c] + Repeat(c, n - 1);
    }
  }

  /** The first character of trimmed text is the first character of its non-whitespace text. */
  lemma FirstOfTrimmed(s: string)
    requires s != [] && !IsWs(s[0])
    ensures NonWs(s) != [] && NonWs(s)[0] == s[0]
  {
  }

  /**
   * Whatever does not, once sanitised, begin with a bracket, a quote or the
   * letter h is rejected: null, undefined, "" and "not a url" among them.
   */
  lemma CleanUrlRejects(v: Value)
    requires var c := CleanString(v);
      c == [] || !(Matches(OpenBracket, c[0]) || Matches(DoubleQuote, c[0]) || Matches(SingleQuote, c[0]) || c[0] == 'h' || c[0] == 'H')
    ensures CleanUrl(v) == ""
  {
    UrlFromRejects(CleanString(v));
  }

  lemma UrlFromRejects(c: string)
    requires c == [] || !(Matches(OpenBracket, c[0]) || Matches(DoubleQuote, c[0]) || Matches(SingleQuote, c[0]) || c[0] == 'h' || c[0] == 'H')
    ensures UrlFrom(c) == ""
  {
    var s := StripWrapping(c);
    if s != [] {
      var a := DropWhile(c, OpenBracket);
      var b := DropWhileEnd(a, CloseBracket);
      var d := DropWhile(b, DoubleQuote);
      var e := DropWhileEnd(d, DoubleQuote);
      var f := DropWhile(e, SingleQuote);
      assert a == c && d == b && f == e;
      assert s[0] == c[0];
    }
  }

  /**
   * The URLs `cleanUrl` returns unchanged: clean text with an http(s)
   * scheme that does not end in a bracket or a quote.
   */
  lemma CleanUrlFixedPoint(r: string)
    requires IsClean(r) && HasHttpScheme(r)
    requires var last := r[|r| - 1]; !Matches(CloseBracket, last) && !Matches(DoubleQuote, last) && !Matches(SingleQuote, last)
    ensures CleanUrl(Str(r)) == r
  {
    CleanUrlOfClean(r);
    UrlFromFixedPoint(r);
  }

  lemma UrlFromFixedPoint(r: string)
    requires HasHttpScheme(r)
    requires var last := r[|r| - 1]; !Matches(CloseBracket, last) && !Matches(DoubleQuote, last) && !Matches(SingleQuote, last)
    ensures UrlFrom(r) == r
  {
    SchemeExtends(r, []);
    StripWrappingUnwrapped(r);
  }

  lemma CleanUrlOfEmpty()
    ensures CleanUrl(Str("")) == ""
  {
    CleanStringFixedPoints("");
    UrlFromRejects("");
  }

  /** No whitespace, `]` or double quote at the end. */
  predicate EndsPlain(r: string) {
    r == [] || (!IsWs(r[|r| - 1]) && !Matches(CloseBracket, r[|r| - 1]) && !Matches(DoubleQuote, r[|r| - 1]))
  }

  /**
   * Sanitising an already sanitised URL changes nothing, provided it does
   * not end in whitespace, a `]` or a double quote (a single quote cannot
   * end it).
   */
  lemma CleanUrlIdempotentUnlessTrailingJunk(v: Value)
    requires EndsPlain(CleanUrl(v))
    ensures CleanUrl(Str(CleanUrl(v))) == CleanUrl(v)
  {
    var c := CleanString(v);
    assert CleanUrl(v) == UrlFrom(c);
    CleanStringIsClean(v);
    UrlFromIdempotent(c);
  }

  lemma UrlFromIdempotent(c: string)
    requires IsCollapsed(c) && EndsPlain(UrlFrom(c))
    ensures CleanUrl(Str(UrlFrom(c))) == UrlFrom(c)
  {
    var r := UrlFrom(c);
    UrlFromShape(c);
    if r == [] {
      CleanUrlOfEmpty();
    } else {
      CleanUrlFixedPoint(r);
    }
  }

  /** On text that is already clean, `cleanUrl` is the strip-and-check step alone. */
  lemma CleanUrlOfClean(w: string)
    requires IsClean(w)
    ensures CleanUrl(Str(w)) == UrlFrom(w)
  {
    CleanStringFixedPoints(w);
  }

  /** Appending text after a URL keeps its scheme and first letter. */
  lemma SchemeExtends(u: string, t: string)
    requires HasHttpScheme(u)
    ensures HasHttpScheme(u + t) && (u + t)[0] == u[0]
    ensures u[0] == 'h' || u[0] == 'H'
  {
  }

  lemma AppendSpaceBracket(u: string)
    ensures u + " ]" == (u + " ") + "]"
  {
  }

  lemma AppendBracketQuote(u: string)
    ensures u + "]'" == (u + "]") + "'"
  {
  }

  lemma DropWhileNone(s: string, k: CharClass)
    requires s != [] && !Matches(k, s[0])
    ensures DropWhile(s, k) == s
  {
  }

  lemma DropWhileEndNone(s: string, k: CharClass)
    requires s != [] && !Matches(k, s[|s| - 1])
    ensures DropWhileEnd(s, k) == s
  {
  }

  /** A trailing run of `]` after otherwise unwrapped text is all that is stripped. */
  lemma StripTrailingBrackets(x: string, y: string)
    requires x != [] && !Matches(OpenBracket, x[0]) && !Matches(DoubleQuote, x[0]) && !Matches(SingleQuote, x[0])
    requires var last := x[|x| - 1]; !Matches(CloseBracket, last) && !Matches(DoubleQuote, last) && !Matches(SingleQuote, last)
    requires forall i | 0 <= i < |y| :: Matches(CloseBracket, y[i])
    ensures StripWrapping(x + y) == x
  {
    assert (x + y)[0] == x[0];
    DropWhileNone(x + y, OpenBracket);
    DropWhileEndBeforeRun(x, y, CloseBracket);
    StripWrappingUnwrapped(x);
  }

  /** A trailing run of single quotes after otherwise unwrapped text is all that is stripped. */
  lemma StripTrailingQuotes(x: string, y: string)
    requires x != [] && !Matches(OpenBracket, x[0]) && !Matches(DoubleQuote, x[0]) && !Matches(SingleQuote, x[0])
    requires var last := x[|x| - 1]; !Matches(DoubleQuote, last) && !Matches(SingleQuote, last)
    requires y != [] && forall i | 0 <= i < |y| :: Matches(SingleQuote, y[i])
    ensures StripWrapping(x + y) == x
  {
    var s := x + y;
    assert s[0] == x[0] && s[|s| - 1] == y[|y| - 1];
    DropWhileNone(s, OpenBracket);
    DropWhileEndNone(s, CloseBracket);
    DropWhileNone(s, DoubleQuote);
    DropWhileEndNone(s, DoubleQuote);
    DropWhileNone(s, SingleQuote);
    DropWhileEndBeforeRun(x, y, SingleQuote);
  }

  /**
   * The whitespace trim runs before the stripping, so a space uncovered by
   * stripping a `]` survives the first pass; a second pass trims it.
   */
  lemma CleanUrlKeepsSpaceBeforeBracket(u: string)
    requires NoWs(u) && HasHttpScheme(u)
    requires var last := u[|u| - 1]; !Matches(CloseBracket, last) && !Matches(DoubleQuote, last) && !Matches(SingleQuote, last)
    ensures CleanUrl(Str(u + " ]")) == u + " "
    ensures CleanUrl(Str(u + " ")) == u
  {
    NoWsIsClean(u);
    SpaceBeforeBracketFirstPass(u);
    SpaceBeforeBracketSecondPass(u);
  }

  lemma SpaceBeforeBracketFirstPass(u: string)
    requires IsClean(u) && HasHttpScheme(u)
    ensures CleanUrl(Str(u + " ]")) == u + " "
  {
    SpaceBracketClean(u);
    CleanUrlOfClean(u + " ]");
    SpaceBracketUrl(u);
  }

  lemma SpaceBracketClean(u: string)
    requires IsClean(u) && HasHttpScheme(u)
    ensures IsClean(u + " ]")
  {
    var x := u + " ";
    AppendSpaceBracket(u);
    SchemeExtends(u, " ]");
    CollapsedConcat(u, " ");
    CollapsedConcat(x, "]");
  }

  lemma SpaceBracketUrl(u: string)
    requires HasHttpScheme(u)
    ensures UrlFrom(u + " ]") == u + " "
  {
    var x := u + " ";
    AppendSpaceBracket(u);
    SchemeExtends(u, " ");
    assert x[|x| - 1] == ' ';
    StripTrailingBrackets(x, "]");
  }

  lemma SpaceBeforeBracketSecondPass(u: string)
    requires IsClean(u) && HasHttpScheme(u)
    requires var last := u[|u| - 1]; !Matches(CloseBracket, last) && !Matches(DoubleQuote, last) && !Matches(SingleQuote, last)
    ensures CleanUrl(Str(u + " ")) == u
  {
    CleanStringTrailingSpace(u);
    assert CleanUrl(Str(u + " ")) == UrlFrom(u);
    UrlFromFixedPoint(u);
  }

  /** Sanitising clean text followed by a space gives the text back. */
  lemma CleanStringTrailingSpace(u: string)
    requires IsClean(u) && u != []
    ensures CleanString(Str(u + " ")) == u
  {
    CollapsedConcat(u, " ");
    CollapseOfCollapsed(u + " ");
    TrimTrailingSpace(u);
  }

  lemma TrimTrailingSpace(u: string)
    requires IsTrimmed(u) && u != []
    ensures Trim(u + " ") == u
  {
    assert (u + " ")[0] == u[0];
    TrimStartOfPlainStart(u + " ");
    DropWhileEndBeforeRun(u, " ", Whitespace);
  }

  lemma TrimStartOfPlainStart(s: string)
    requires s != [] && !IsWs(s[0])
    ensures TrimStart(s) == s
  {
    DropWhileNone(s, Whitespace);
  }

  /**
   * Likewise a `]` uncovered by stripping a trailing single quote survives
   * the first pass, and a second pass strips it.
   */
  lemma CleanUrlKeepsBracketBeforeQuote(u: string)
    requires NoWs(u) && HasHttpScheme(u)
    requires var last := u[|u| - 1]; !Matches(CloseBracket, last) && !Matches(DoubleQuote, last) && !Matches(SingleQuote, last)
    ensures CleanUrl(Str(u + "]'")) == u + "]"
    ensures CleanUrl(Str(u + "]")) == u
  {
    BracketBeforeQuoteFirstPass(u);
    BracketBeforeQuoteSecondPass(u);
  }

  lemma BracketBeforeQuoteFirstPass(u: string)
    requires NoWs(u) && HasHttpScheme(u)
    ensures CleanUrl(Str(u + "]'")) == u + "]"
  {
    BracketQuoteClean(u);
    CleanUrlOfClean(u + "]'");
    BracketQuoteUrl(u);
  }

  lemma BracketQuoteClean(u: string)
    requires NoWs(u)
    ensures IsClean(u + "]'")
  {
    assert NoWs(u + "]'");
    NoWsIsClean(u + "]'");
  }

  lemma BracketQuoteUrl(u: string)
    requires HasHttpScheme(u)
    ensures UrlFrom(u + "]'") == u + "]"
  {
    AppendBracketQuote(u);
    var x := u + "]";
    SchemeExtends(u, "]");
    assert x[|x| - 1] == ']';
    StripTrailingQuotes(x, "'");
  }

  lemma BracketBeforeQuoteSecondPass(u: string)
    requires NoWs(u) && HasHttpScheme(u)
    requires var last := u[|u| - 1]; !Matches(CloseBracket, last) && !Matches(DoubleQuote, last) && !Matches(SingleQuote, last)
    ensures CleanUrl(Str(u + "]")) == u
  {
    BracketClean(u);
    CleanUrlOfClean(u + "]");
    BracketUrl(u);
  }

  lemma BracketClean(u: string)
    requires NoWs(u)
    ensures IsClean(u + "]")
  {
    assert NoWs(u + "]");
    NoWsIsClean(u + "]");
  }

  lemma BracketUrl(u: string)
    requires HasHttpScheme(u)
    requires var last := u[|u| - 1]; !Matches(CloseBracket, last) && !Matches(DoubleQuote, last) && !Matches(SingleQuote, last)
    ensures UrlFrom(u + "]") == u
  {
    SchemeExtends(u, "]");
    StripTrailingBrackets(u, "]");
  }

  lemma NotIdempotentOn(u: string, a: string, b: string, c: string, d: string)
    requires u == "https://x"
    requires a == u + " ]" && b == u + " " && c == u + "]'" && d == u + "]"
    ensures CleanUrl(Str(a)) == b && CleanUrl(Str(b)) == u
    ensures CleanUrl(Str(c)) == d && CleanUrl(Str(d)) == u
  {
    assert NoWs(u) && HasHttpScheme(u);
    CleanUrlKeepsSpaceBeforeBracket(u);
    CleanUrlKeepsBracketBeforeQuote(u);
  }

  /** Two inputs on which a second pass of `cleanUrl` changes the result. */
  lemma CleanUrlNotIdempotent()
    ensures CleanUrl(Str("https://x ]")) == "https://x "
    ensures CleanUrl(Str("https://x ")) == "https://x"
    ensures CleanUrl(Str("https://x]'")) == "https://x]"
    ensures CleanUrl(Str("https://x]")) == "https://x"
  {
    NotIdempotentOn("https://x", "https://x ]", "https://x ", "https://x]'", "https://x]");
  }

  lemma UnwrapsBrackets(png: string, s: string)
    requires png == "https://x.com/a.png" && s == "[" + png + "]"
    ensures CleanUrl(Str(s)) == png
  {
    assert NoWs(png) && HasHttpScheme(png);
    NoWsIsClean(png);
    CleanUrlStripsWrapping(png, 1, 0, 0, 0, 0, 1);
    WrapNone(png, '\'', '\'');
    WrapNone(png, '"', '"');
    WrapOnce(png, '[', ']');
  }

  lemma CleanUrlUnwrapsBrackets()
    ensures CleanUrl(Str("[https://x.com/a.png]")) == "https://x.com/a.png"
  {
    UnwrapsBrackets("https://x.com/a.png", "[https://x.com/a.png]");
  }

  lemma UnwrapsQuotes(jpg: string, s: string)
    requires jpg == "https://cdn/x.jpg" && s == "\"" + jpg + "\""
    ensures CleanUrl(Str(s)) == jpg
  {
    assert NoWs(jpg) && HasHttpScheme(jpg);
    NoWsIsClean(jpg);
    CleanUrlStripsWrapping(jpg, 0, 1, 0, 0, 1, 0);
    WrapNone(jpg, '\'', '\'');
    WrapOnce(jpg, '"', '"');
    WrapNone(s, '[', ']');
  }

  lemma CleanUrlUnwrapsQuotes()
    ensures CleanUrl(Str("\"https://cdn/x.jpg\"")) == "https://cdn/x.jpg"
  {
    UnwrapsQuotes("https://cdn/x.jpg", "\"https://cdn/x.jpg\"");
  }

  lemma KeepsSchemeCase(upper: string)
    requires upper == "HTTPS://Example.com"
    ensures CleanUrl(Str(upper)) == upper
  {
    assert NoWs(upper) && HasHttpScheme(upper);
    NoWsIsClean(upper);
    CleanUrlFixedPoint(upper);
  }

  lemma CleanUrlKeepsSchemeCase()
    ensures CleanUrl(Str("HTTPS://Example.com")) == "HTTPS://Example.com"
  {
    KeepsSchemeCase("HTTPS://Example.com");
  }

  lemma RejectsText(t: string)
    requires t == "not a url"
    ensures CleanUrl(Str(t)) == ""
  {
    var c := CleanString(Str(t));
    assert c[0] == 'n' by {
      CleanStringShape(Str(t));
      FirstOfTrimmed(c);
      FirstOfTrimmed(t);
    }
    CleanUrlRejects(Str(t));
  }

  lemma CleanUrlRejectsNonUrls()
    ensures CleanUrl(Str("not a url")) == ""
    ensures CleanUrl(Str("")) == ""
    ensures CleanUrl(Null) == ""
  {
    RejectsText("not a url");
    CleanUrlOfEmpty();
    CleanUrlRejects(Null);
  }

  lemma CleanStringExample()
    ensures CleanString(Str("  a\n\tb  ")) == "a b"
  {
    CollapseExample();
    TrimExample();
  }

  lemma CollapseExample()
    ensures Collapse("  a\n\tb  ") == " a b "
  {
    TrimStartExample();
    CollapseExampleTail();
  }

  lemma TrimStartExample()
    ensures TrimStart("  a\n\tb  ") == "a\n\tb  "
  {
  }

  lemma CollapseExampleTail()
    ensures Collapse("a\n\tb  ") == "a b "
  {
    CollapseExampleRun();
    assert "a\n\tb  "[1..] == "\n\tb  ";
  }

  lemma CollapseExampleRun()
    ensures Collapse("\n\tb  ") == " b "
  {
    assert TrimStart("\n\tb  ") == "b  ";
    assert Collapse("b  ") == "b " by {
      assert TrimStart("  ") == "";
    }
  }

  lemma TrimExample()
    ensures Trim(" a b ") == "a b"
  {
  }
}
