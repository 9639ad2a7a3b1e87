/** The two string rewrites the query compiler applies to every matcher:
    `escapeValue` (quote doubling for SQL literals) and `anchorValue` (PromQL's
    "regex-matches are fully anchored" rule). */
module Escaping {

  const SingleQuote: char := '\''

  function QuoteCount(s: string): nat
  {
    if s == [] then 0 else (if s[0] == SingleQuote then 1 else 0) + QuoteCount(s[1..])
  }

  /** The characters of `s` other than single quotes, in order. */
  function Unquoted(s: string): string
  {
    if s == [] then [] else (if s[0] == SingleQuote then [] else [s[0]]) + Unquoted(s[1..])
  }

  /** A quoted SQL literal body with no lone quote: every `'` is one half of a
      `''` pair, so the literal cannot be closed early from inside. */
  predicate WellEscaped(t: string)
    decreases |t|
  {
    if t == [] then true
    else if t[0] == SingleQuote then |t| >= 2 && t[1] == SingleQuote && WellEscaped(t[2..])
    else WellEscaped(t[1..])
  }

  /** How PostgreSQL reads the body of a quoted literal: `''` stands for `'`. */
  function Unescape(t: string): string
    decreases |t|
  {
    if t == [] then []
    else if |t| >= 2 && t[0] == SingleQuote && t[1] == SingleQuote then [SingleQuote] + Unescape(t[2..])
    else [t[0]] + Unescape(t[1..])
  }

  /** What `escapeValue` puts in place of one character. */
  function EscapeChar(c: char): string
  {
    if c == SingleQuote then [SingleQuote, SingleQuote] else [c]
  }

  /** `escapeValue`: every single quote doubled, nothing else touched. The result
      is a well-escaped literal that PostgreSQL reads back as the input. */
  function EscapeValue(s: string): (r: string)
    ensures |r| == |s| + QuoteCount(s)
    ensures QuoteCount(r) == 2 * QuoteCount(s) && Unquoted(r) == Unquoted(s)
    ensures WellEscaped(r) && Unescape(r) == s
  {
    if s == [] then []
    else
      var rest := EscapeValue(s[1..]);
      assert (EscapeChar(s[0]) + rest)[|EscapeChar(s[0])|..] == rest;
      EscapeChar(s[0]) + rest
  }

  /** The compiler tests `len(escapedValue) == 0` to mean "the matcher's value
      is empty"; escaping keeps that meaning. */
  lemma EscapeEmptyIff(s: string)
    ensures EscapeValue(s) == [] <==> s == []
  {
  }

  /** Escaping is the only well-escaped spelling of a string: together with
      `EscapeValue`'s contract, a bijection between strings and well-escaped
      literal bodies. */
  lemma {:induction false} EscapeUnique(t: string)
    requires WellEscaped(t)
    ensures EscapeValue(Unescape(t)) == t
    decreases |t|
  {
    if t == [] {
    } else if t[0] == SingleQuote {
      EscapeUnique(t[2..]);
      assert Unescape(t) == [SingleQuote] + Unescape(t[2..]);
      assert ([SingleQuote] + Unescape(t[2..]))[1..] == Unescape(t[2..]);
      assert t == [SingleQuote, SingleQuote] + t[2..];
    } else {
      EscapeUnique(t[1..]);
      assert ([t[0]] + Unescape(t[1..]))[1..] == Unescape(t[1..]);
      assert t == [t[0]] + t[1..];
    }
  }

  /** Escaping distributes over concatenation. */
  lemma {:induction false} EscapeAppend(a: string, b: string)
    ensures EscapeValue(a + b) == EscapeValue(a) + EscapeValue(b)
  {
    if a != [] {
      assert (a + b)[0] == a[0] && (a + b)[1..] == a[1..] + b;
      EscapeAppend(a[1..], b);
      calc {
        EscapeValue(a + b);
        EscapeChar(a[0]) + EscapeValue(a[1..] + b);
        EscapeChar(a[0]) + (EscapeValue(a[1..]) + EscapeValue(b));
        (EscapeChar(a[0]) + EscapeValue(a[1..])) + EscapeValue(b);
      }
    } else {
      assert a + b == b;
    }
  }

  /** Escaping keeps the first and the last character: a `^` in front or a `$`
      at the end is there after escaping iff it was there before. */
  lemma {:induction false} EscapeEnds(s: string)
    requires s != []
    ensures var e := EscapeValue(s); e != [] && e[0] == s[0] && e[|e| - 1] == s[|s| - 1]
    decreases |s|
  {
    var e := EscapeValue(s);
    assert e == EscapeChar(s[0]) + EscapeValue(s[1..]);
    if |s| > 1 {
      EscapeEnds(s[1..]);
    }
  }

  predicate Anchored(r: string)
  {
    |r| > 0 && r[0] == '^' && r[|r| - 1] == '$'
  }

  /** `anchorValue`: a non-empty pattern comes back anchored at both ends. */
  function AnchorValue(s: string): (r: string)
    ensures s == [] ==> r == []
    ensures s != [] ==> Anchored(r)
  {
    var l := |s|;
    if l == 0 || (s[0] == '^' && s[l - 1] == '$') then s
    else if s[0] == '^' then s + "$"
    else if s[l - 1] == '$' then "^" + s
    else "^" + s + "$"
  }

  /** The `^` that anchoring puts in front of `s`: none when one is there. */
  function MissingFront(s: string): string
  {
    if s != [] && s[0] == '^' then "" else "^"
  }

  /** The `$` that anchoring puts after `s`: none when one is there. */
  function MissingBack(s: string): string
  {
    if s != [] && s[|s| - 1] == '$' then "" else "$"
  }

  /** Exactly the missing anchors are added and nothing else: an anchor already
      present at either end is kept, the pattern is never otherwise changed. */
  lemma AnchorAddsMissingAnchors(s: string)
    requires s != []
    ensures AnchorValue(s) == MissingFront(s) + s + MissingBack(s)
    ensures Anchored(s) <==> AnchorValue(s) == s
  {
  }

  /** Anchoring twice is anchoring once. */
  lemma AnchorIdempotent(s: string)
    ensures AnchorValue(AnchorValue(s)) == AnchorValue(s)
  {
  }

  /** Escaping never creates or removes a `^` at the front or a `$` at the end,
      so the compiler's order (escape, then anchor) gives the escaped form of the
      anchored pattern, and the anchored literal is still well escaped. */
  lemma AnchorEscapeCommute(s: string)
    ensures AnchorValue(EscapeValue(s)) == EscapeValue(AnchorValue(s))
    ensures WellEscaped(AnchorValue(EscapeValue(s)))
  {
    if s != [] {
      var e := EscapeValue(s);
      EscapeEnds(s);
      assert MissingFront(e) == MissingFront(s) && MissingBack(e) == MissingBack(s);
      AnchorAddsMissingAnchors(s);
      AnchorAddsMissingAnchors(e);
      EscapeAffix(MissingFront(s), s, MissingBack(s));
    }
  }

  /** Escaping passes anchors added at either end through unchanged. */
  lemma EscapeAffix(pre: string, s: string, post: string)
    requires pre == "" || pre == "^"
    requires post == "" || post == "$"
    ensures EscapeValue(pre + s + post) == pre + EscapeValue(s) + post
  {
    assert EscapeValue(pre) == pre && EscapeValue(post) == post;
    EscapeAppend(pre + s, post);
    EscapeAppend(pre, s);
  }
}
