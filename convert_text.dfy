/**
  The text flattener: `convert_multiline_to_singleline` reads a text file and
  rewrites every CRLF and LF as the two characters backslash and `n`, so that
  the whole text fits on one line (a JSON string literal, say). A CR not
  followed by LF is kept; the text-mode read that precedes the rewrite has
  already turned such a CR into LF, and that read is not modelled here.

  The rewrite is two calls of Python's `str.replace`: first CRLF, then LF, each
  replaced by the escape. `Replace` is `str.replace`; `SingleLine` is the
  composition; `EscapeNewlines` is an independent single left-to-right pass
  that turns a CRLF or a lone LF into one escape, and the two are proved equal.
  The properties are then proved of `SingleLine`.
*/
module ConvertText {

  const CRLF: string := "\r\n"
  const LF: string := "\n"
  /** The two characters `\` and `n`. */
  const ESCAPED_NEWLINE: string := "\\n"

  // ---------------------------------------------------------------------------
  // Python's str.replace

  /** `s.replace(pattern, replacement)`: scan left to right; where `pattern`
      starts, emit `replacement` and skip past it, so occurrences never overlap;
      elsewhere copy one character. A replacement as long as the pattern, as in
      the first of the two calls in `convert_multiline_to_singleline`, keeps the
      length of the text. */
  function Replace(s: string, pattern: string, replacement: string): (r: string)
    requires |pattern| > 0
    ensures |replacement| == |pattern| ==> |r| == |s|
    decreases |s|
  {
    if |s| == 0 then []
    else if pattern <= s then replacement + Replace(s[|pattern|..], pattern, replacement)
    else [s[0]] + Replace(s[1..], pattern, replacement)
  }

  /** Where `pattern` occurs nowhere, `replace` returns the text as it was. */
  lemma {:induction false} ReplaceWithoutOccurrence(s: string, pattern: string, replacement: string)
    requires |pattern| > 0
    requires forall k :: 0 <= k < |s| ==> !(pattern <= s[k..])
    ensures Replace(s, pattern, replacement) == s
    decreases |s|
  {
    if |s| > 0 {
      assert s[0..] == s;
      forall k | 0 <= k < |s[1..]|
        ensures !(pattern <= s[1..][k..])
      {
        assert s[1..][k..] == s[k + 1..];
      }
      ReplaceWithoutOccurrence(s[1..], pattern, replacement);
    }
  }

  // ---------------------------------------------------------------------------
  // The rewrite of `convert_multiline_to_singleline` and its single-pass reading

  /** `content.replace('\r\n', '\\n').replace('\n', '\\n')`, the rewrite in
      `convert_multiline_to_singleline`. The result holds no LF; a CR not
      followed by LF is kept (see `LoneCrKept` and `CrFreeGivesSingleLine`). */
  function SingleLine(content: string): (r: string)
    ensures '\n' !in r
  {
    SecondPassCompletesEscape(content);
    EscapeHasNoLineFeed(content);
    Replace(Replace(content, CRLF, ESCAPED_NEWLINE), LF, ESCAPED_NEWLINE)
  }

  /** A CR immediately followed by an LF at the start of `s`. */
  predicate StartsWithCrlf(s: string)
  {
    |s| >= 2 && s[0] == '\r' && s[1] == '\n'
  }

  /** How many characters the first line break or character of `s` takes: 2 for CRLF, else 1. */
  function TokenLength(s: string): nat
    requires |s| > 0
  {
    if StartsWithCrlf(s) then 2 else 1
  }

  /** What the first token becomes: a CRLF or an LF the escape, any other character itself. */
  function TokenImage(s: string): string
    requires |s| > 0
  {
    if StartsWithCrlf(s) || s[0] == '\n' then ESCAPED_NEWLINE else [s[0]]
  }

  /** One pass over the text: a CRLF or an LF becomes one escape, every other
      character, a CR not followed by LF included, is copied. */
  function EscapeNewlines(s: string): string
    decreases |s|
  {
    if |s| == 0 then [] else TokenImage(s) + EscapeNewlines(s[TokenLength(s)..])
  }

  lemma CrlfPrefix(s: string)
    ensures CRLF <= s <==> StartsWithCrlf(s)
  {
  }

  lemma LfPrefix(s: string)
    ensures LF <= s <==> |s| > 0 && s[0] == '\n'
  {
  }

  /** The second `replace` passes over a prefix without LF unchanged. */
  lemma {:induction false} ReplaceLfSkipsPrefix(p: string, t: string)
    requires '\n' !in p
    ensures Replace(p + t, LF, ESCAPED_NEWLINE) == p + Replace(t, LF, ESCAPED_NEWLINE)
    decreases |p|
  {
    if |p| > 0 {
      assert p[0] in p;
      assert forall c :: c in p[1..] ==> c in p;
      LfPrefix(p + t);
      assert (p + t)[1..] == p[1..] + t;
      ReplaceLfSkipsPrefix(p[1..], t);
      assert p == [p[0]] + p[1..];
    } else {
      assert p + t == t;
    }
  }

  /** The second `replace` applied to the result of the first is the single pass. */
  lemma {:induction false} SecondPassCompletesEscape(s: string)
    ensures Replace(Replace(s, CRLF, ESCAPED_NEWLINE), LF, ESCAPED_NEWLINE) == EscapeNewlines(s)
    decreases |s|
  {
    if |s| > 0 {
      CrlfPrefix(s);
      var n := TokenLength(s);
      var t := Replace(s[n..], CRLF, ESCAPED_NEWLINE);
      if StartsWithCrlf(s) {
        assert Replace(s, CRLF, ESCAPED_NEWLINE) == ESCAPED_NEWLINE + t;
        ReplaceLfSkipsPrefix(ESCAPED_NEWLINE, t);
      } else {
        assert Replace(s, CRLF, ESCAPED_NEWLINE) == [s[0]] + t;
        LfPrefix([s[0]] + t);
        assert ([s[0]] + t)[1..] == t;
      }
      SecondPassCompletesEscape(s[n..]);
    }
  }

  /** The two chained replacements are exactly the single pass. */
  lemma SingleLineIsEscape(s: string)
    ensures SingleLine(s) == EscapeNewlines(s)
  {
    SecondPassCompletesEscape(s);
  }

  // ---------------------------------------------------------------------------
  // What the single pass does

  lemma {:induction false} EscapeHasNoLineFeed(s: string)
    ensures '\n' !in EscapeNewlines(s)
    decreases |s|
  {
    if |s| > 0 {
      EscapeHasNoLineFeed(s[TokenLength(s)..]);
    }
  }

  lemma {:induction false} EscapeKeepsLineFeedFree(s: string)
    requires '\n' !in s
    ensures EscapeNewlines(s) == s
    decreases |s|
  {
    if |s| > 0 {
      assert s == [s[0]] + s[1..];
      if |s| > 1 {
        assert s[1] in s[1..];
      }
      EscapeKeepsLineFeedFree(s[1..]);
    }
  }

  /** The first token of p + q is the first token of p, unless a CR ends p
      and an LF starts q. */
  lemma TokenOfConcat(p: string, q: string)
    requires |p| > 0
    requires !(p[|p| - 1] == '\r' && |q| > 0 && q[0] == '\n')
    ensures TokenLength(p + q) == TokenLength(p) <= |p|
    ensures TokenImage(p + q) == TokenImage(p)
    ensures (p + q)[TokenLength(p)..] == p[TokenLength(p)..] + q
  {
  }

  /** The pass distributes over a split, unless the split cuts a CRLF in two. */
  lemma {:induction false} EscapeConcat(p: string, q: string)
    requires !(|p| > 0 && p[|p| - 1] == '\r' && |q| > 0 && q[0] == '\n')
    ensures EscapeNewlines(p + q) == EscapeNewlines(p) + EscapeNewlines(q)
    decreases |p|
  {
    if |p| == 0 {
      assert p + q == q;
    } else {
      TokenOfConcat(p, q);
      var n := TokenLength(p);
      var head, restP, restQ := TokenImage(p), EscapeNewlines(p[n..]), EscapeNewlines(q);
      calc {
        EscapeNewlines(p + q);
        head + EscapeNewlines(p[n..] + q);
        { EscapeConcat(p[n..], q); }
        head + (restP + restQ);
        (head + restP) + restQ;
      }
    }
  }

  /** How many LF characters follow a CR: the CRLF pairs. */
  function CrlfCount(s: string): nat
    decreases |s|
  {
    if |s| < 2 then 0
    else (if s[0] == '\r' && s[1] == '\n' then 1 else 0) + CrlfCount(s[1..])
  }

  /** The LF and CRLF counts of a text split at its first token, and the image
      of that token grows it by its LFs minus its CRLFs. */
  lemma TokenCounts(s: string)
    requires |s| > 0
    ensures var n := TokenLength(s);
      multiset(s)['\n'] == multiset(s[..n])['\n'] + multiset(s[n..])['\n'] &&
      CrlfCount(s) == (if n == 2 then 1 else 0) + CrlfCount(s[n..]) &&
      |TokenImage(s)| == n + multiset(s[..n])['\n'] - (if n == 2 then 1 else 0)
  {
    var n := TokenLength(s);
    assert s == s[..n] + s[n..];
    if n == 2 {
      assert s[..2] == ['\r', '\n'];
      assert CrlfCount(s[1..]) == CrlfCount(s[2..]);
    } else {
      assert s[..1] == [s[0]];
    }
  }

  lemma {:induction false} EscapeLength(s: string)
    ensures |EscapeNewlines(s)| == |s| + multiset(s)['\n'] - CrlfCount(s)
    decreases |s|
  {
    if |s| > 0 {
      TokenCounts(s);
      EscapeLength(s[TokenLength(s)..]);
    }
  }

  // ---------------------------------------------------------------------------
  // The properties of the rewrite in `convert_multiline_to_singleline`

  /** Text without CR keeps none through the pass. */
  lemma {:induction false} EscapeKeepsCrFree(s: string)
    requires '\r' !in s
    ensures '\r' !in EscapeNewlines(s)
    decreases |s|
  {
    if |s| > 0 {
      assert s == [s[0]] + s[1..];
      assert s[0] in s;
      EscapeKeepsCrFree(s[1..]);
    }
  }

  /** The promise of the docstring of `convert_multiline_to_singleline`: on text
      without CR, which is what the text-mode read hands over, the result holds
      neither LF nor CR, so it is one line in every newline convention Python
      reads. */
  lemma CrFreeGivesSingleLine(s: string)
    requires '\r' !in s
    ensures '\r' !in SingleLine(s) && '\n' !in SingleLine(s)
  {
    SingleLineIsEscape(s);
    EscapeKeepsCrFree(s);
  }

  /** A text without LF comes back unchanged: the first `replace` finds no CRLF
      and the second finds no LF. */
  lemma LineFeedFreeUnchanged(s: string)
    requires '\n' !in s
    ensures SingleLine(s) == s
  {
    SingleLineIsEscape(s);
    EscapeKeepsLineFeedFree(s);
  }

  /** Flattening twice is flattening once. */
  lemma SingleLineIdempotent(s: string)
    ensures SingleLine(SingleLine(s)) == SingleLine(s)
  {
    LineFeedFreeUnchanged(SingleLine(s));
  }

  /** Flattening commutes with concatenation, except across a CR that ends one
      text and an LF that starts the next. */
  lemma SingleLineConcat(p: string, q: string)
    requires !(|p| > 0 && p[|p| - 1] == '\r' && |q| > 0 && q[0] == '\n')
    ensures SingleLine(p + q) == SingleLine(p) + SingleLine(q)
  {
    SingleLineIsEscape(p + q);
    SingleLineIsEscape(p);
    SingleLineIsEscape(q);
    EscapeConcat(p, q);
  }

  /** A Windows line break becomes one escape, not two. */
  lemma CrlfBecomesOneEscape(p: string, q: string)
    ensures SingleLine(p + CRLF + q) == SingleLine(p) + ESCAPED_NEWLINE + SingleLine(q)
  {
    SingleLineConcat(p, CRLF + q);
    SingleLineConcat(CRLF, q);
    assert p + CRLF + q == p + (CRLF + q);
    SingleLineIsEscape(CRLF);
    assert EscapeNewlines(CRLF) == ESCAPED_NEWLINE + EscapeNewlines([]);
  }

  /** A Unix line break becomes one escape. */
  lemma LfBecomesOneEscape(p: string, q: string)
    requires !(|p| > 0 && p[|p| - 1] == '\r')
    ensures SingleLine(p + LF + q) == SingleLine(p) + ESCAPED_NEWLINE + SingleLine(q)
  {
    SingleLineConcat(p, LF + q);
    SingleLineConcat(LF, q);
    assert p + LF + q == p + (LF + q);
    SingleLineIsEscape(LF);
    assert EscapeNewlines(LF) == ESCAPED_NEWLINE + EscapeNewlines([]);
  }

  /** A CR not followed by LF is left in place. */
  lemma LoneCrKept(p: string, q: string)
    requires !(|q| > 0 && q[0] == '\n')
    ensures SingleLine(p + "\r" + q) == SingleLine(p) + "\r" + SingleLine(q)
  {
    SingleLineConcat(p, "\r" + q);
    SingleLineConcat("\r", q);
    assert p + "\r" + q == p + ("\r" + q);
    SingleLineIsEscape("\r");
    assert EscapeNewlines("\r") == "\r" + EscapeNewlines([]);
  }

  /** Every character other than CR and LF is copied as it is. */
  lemma OtherCharKept(p: string, c: char, q: string)
    requires c != '\r' && c != '\n'
    ensures SingleLine(p + [c] + q) == SingleLine(p) + [c] + SingleLine(q)
  {
    SingleLineConcat(p, [c] + q);
    SingleLineConcat([c], q);
    assert p + [c] + q == p + ([c] + q);
    SingleLineIsEscape([c]);
    assert EscapeNewlines([c]) == [c] + EscapeNewlines([]);
  }

  /** Each LF not preceded by CR grows the text by one character; a CRLF keeps
      its length. */
  lemma SingleLineLength(s: string)
    ensures |SingleLine(s)| == |s| + multiset(s)['\n'] - CrlfCount(s)
  {
    SingleLineIsEscape(s);
    EscapeLength(s);
  }
}
