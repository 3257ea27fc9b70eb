/**
 The parts of JavaScript's built-in behaviour that the normalisation layer
 relies on: string truthiness and `||` defaults, `Array.prototype.join`,
 `String.prototype.toUpperCase` (for the characters whose upper case
 is one ASCII letter), `split(c).pop()`,
 `String.prototype.trim`, and the interpolation of `undefined` into a
 template literal.
 */
module Js {
  import opened Wrappers

  /** A string property is truthy when present and non-empty. */
  predicate Truthy(s: Option<string>) {
    s.Some? && s.value != ""
  }

  /** `s || d` for a string property that may be missing: a truthy value
      is returned as it is; a missing value and the empty string are both
      falsy, so either gives `d`. */
  function OrElse(s: Option<string>, d: string): (r: string)
    ensures Truthy(s) ==> r == s.value
    ensures !Truthy(s) ==> r == d
    ensures d != "" ==> r != ""
  {
    if s.Some? && s.value != "" then s.value else d
  }

  /** `${s}` in a template literal: a present value prints as itself and a
      missing one as "undefined", so only the text "undefined" prints the
      same as a missing value. */
  function Interpolate(s: Option<string>): (r: string)
    ensures s.Some? ==> r == s.value
    ensures r == "undefined" <==> s.None? || s == Some("undefined")
  {
    if s.Some? then s.value else "undefined"
  }

  /** Two values print alike exactly when they are equal or each is either
      missing or the text "undefined". */
  lemma InterpolateCollisions(s: Option<string>, t: Option<string>)
    ensures Interpolate(s) == Interpolate(t) <==>
      s == t || ((s.None? || s == Some("undefined")) && (t.None? || t == Some("undefined")))
  {
  }

  // ---------------------------------------------------------------------
  // Array.prototype.join

  /** Reference definition of `xs.join(sep)`: the elements with `sep`
      between neighbours. */
  function Join(xs: seq<string>, sep: string): string
  {
    if |xs| == 0 then ""
    else if |xs| == 1 then xs[0]
    else xs[0] + sep + Join(xs[1..], sep)
  }

  /** Sum of the lengths of the elements. */
  function TotalLength(xs: seq<string>): nat
  {
    if |xs| == 0 then 0 else |xs[0]| + TotalLength(xs[1..])
  }

  /** Appending one element to a non-empty list appends `sep` and it. */
  lemma {:induction false} JoinSnoc(xs: seq<string>, y: string, sep: string)
    ensures |xs| == 0 ==> Join(xs + [y], sep) == y
    ensures |xs| > 0 ==> Join(xs + [y], sep) == Join(xs, sep) + sep + y
    decreases |xs|
  {
    if |xs| == 0 {
      assert xs + [y] == [y];
    } else if |xs| == 1 {
      assert xs + [y] == [xs[0], y];
      assert (xs + [y])[1..] == [y];
    } else {
      assert (xs + [y])[1..] == xs[1..] + [y];
      JoinSnoc(xs[1..], y, sep);
    }
  }

  /** The joined text holds every element plus one separator per gap. */
  lemma {:induction false} JoinLength(xs: seq<string>, sep: string)
    ensures |xs| > 0 ==> |Join(xs, sep)| == TotalLength(xs) + |sep| * (|xs| - 1)
    ensures |xs| == 0 ==> Join(xs, sep) == ""
    decreases |xs|
  {
    if |xs| > 1 {
      JoinLength(xs[1..], sep);
      assert TotalLength(xs[1..][1..]) == TotalLength(xs[2..]);
    } else if |xs| == 1 {
      assert TotalLength(xs[1..]) == 0;
    }
  }

  /** With a non-empty separator the join is empty exactly for the empty
      list and for a single empty element. */
  lemma JoinEmptyIff(xs: seq<string>, sep: string)
    requires sep != ""
    ensures Join(xs, sep) == "" <==> |xs| == 0 || (|xs| == 1 && xs[0] == "")
  {
  }

  /** The algorithm of `Array.prototype.join`: accumulate left to right,
      writing the separator before every element but the first. */
  method ArrayJoin(xs: seq<string>, sep: string) returns (r: string)
    ensures r == Join(xs, sep)
  {
    r := "";
    var k := 0;
    while k < |xs|
      invariant 0 <= k <= |xs|
      invariant r == Join(xs[..k], sep)
    {
      if k > 0 {
        r := r + sep;
      }
      r := r + xs[k];
      JoinSnoc(xs[..k], xs[k], sep);
      assert xs[..k + 1] == xs[..k] + [xs[k]];
      k := k + 1;
    }
    assert xs[..k] == xs;
  }

  // ---------------------------------------------------------------------
  // String.prototype.toUpperCase

  predicate IsAsciiLower(c: char) {
    'a' <= c <= 'z'
  }

  /** The two non-ASCII characters whose upper case is one ASCII letter:
      dotless i (U+0131) upper-cases to 'I' and long s (U+017F) to 'S'. */
  predicate UpperCasesToAscii(c: char) {
    c == '\U{0131}' || c == '\U{017F}'
  }

  /** Upper-cases a character whose upper case is one ASCII letter: the
      ASCII lower-case letters, dotless i and long s. Every other character
      is left alone. */
  function UpperChar(c: char): (u: char)
    ensures !IsAsciiLower(u)
    ensures IsAsciiLower(c) ==> u as int == c as int - 32
    ensures c == '\U{0131}' ==> u == 'I'
    ensures c == '\U{017F}' ==> u == 'S'
    ensures !IsAsciiLower(c) && !UpperCasesToAscii(c) ==> u == c
  {
    if IsAsciiLower(c) then (c as int - 32) as char
    else if c == '\U{0131}' then 'I'
    else if c == '\U{017F}' then 'S'
    else c
  }

  function ToUpperCase(s: string): (r: string)
    ensures |r| == |s|
    ensures forall i :: 0 <= i < |s| ==> r[i] == UpperChar(s[i])
  {
    seq(|s|, i requires 0 <= i < |s| => UpperChar(s[i]))
  }

  // ---------------------------------------------------------------------
  // s.split(sep).pop()

  /** `s.split(sep).pop()` for a one-character separator: the text after
      the last `sep`, or the whole of `s` when it holds no `sep`. The
      result is the suffix of `s` that has no `sep` in it and is either
      all of `s` or directly preceded by `sep`. */
  function LastSegment(s: string, sep: char): (r: string)
    ensures sep !in r
    ensures |r| <= |s| && r == s[|s| - |r|..]
    ensures |r| < |s| ==> s[|s| - |r| - 1] == sep
    decreases |s|
  {
    if |s| == 0 then ""
    else if s[|s| - 1] == sep then ""
    else
      var init := s[..|s| - 1];
      var rest := LastSegment(init, sep);
      assert s == init + [s[|s| - 1]];
      rest + [s[|s| - 1]]
  }

  /** A string without the separator is its own last segment. */
  lemma LastSegmentWithoutSeparator(s: string, sep: char)
    requires sep !in s
    ensures LastSegment(s, sep) == s
  {
  }

  /** Whatever precedes the last separator, the segment after it is what
      `split(sep).pop()` returns. */
  lemma LastSegmentAfterSeparator(p: string, x: string, sep: char)
    requires sep !in x
    ensures LastSegment(p + [sep] + x, sep) == x
  {
    var s := p + [sep] + x;
    assert s[|s| - |x|..] == x;
    assert s[|s| - |x| - 1] == sep;
  }

  // ---------------------------------------------------------------------
  // String.prototype.trim

  /** ECMAScript WhiteSpace and LineTerminator code points: TAB, VT, FF,
      ZWNBSP, the Unicode space separators (Zs), LF, CR, LS and PS. */
  predicate IsWhiteSpace(c: char) {
    || '\t' <= c <= '\r'              // TAB, LF, VT, FF, CR
    || c == ' ' || c == '\U{00A0}' || c == '\U{1680}'
    || '\U{2000}' <= c <= '\U{200A}'
    || c == '\U{2028}' || c == '\U{2029}'
    || c == '\U{202F}' || c == '\U{205F}' || c == '\U{3000}' || c == '\U{FEFF}'
  }

  /** Every character of `s` is white space (vacuously so for ""). */
  predicate IsBlank(s: string) {
    forall i :: 0 <= i < |s| ==> IsWhiteSpace(s[i])
  }

  /** Drops leading white space: the result is a suffix of `s`, what was
      dropped is all white space, and the result does not start with any. */
  function TrimStart(s: string): (r: string)
    ensures |r| <= |s| && r == s[|s| - |r|..]
    ensures forall i :: 0 <= i < |s| - |r| ==> IsWhiteSpace(s[i])
    ensures r != "" ==> !IsWhiteSpace(r[0])
    decreases |s|
  {
    if |s| > 0 && IsWhiteSpace(s[0]) then
      TrimStart(s[1..])
    else s
  }

  /** Drops trailing white space: the result is a prefix of `s`, what was
      dropped is all white space, and the result does not end with any. */
  function TrimEnd(s: string): (r: string)
    ensures |r| <= |s| && r == s[..|r|]
    ensures forall i :: |r| <= i < |s| ==> IsWhiteSpace(s[i])
    ensures r != "" ==> !IsWhiteSpace(r[|r| - 1])
    decreases |s|
  {
    if |s| > 0 && IsWhiteSpace(s[|s| - 1]) then
      TrimEnd(s[..|s| - 1])
    else s
  }

  /** `r` is the piece of `s` starting at `k` with only white space
      before and after it. */
  predicate PieceAmidWhiteSpace(s: string, r: string, k: int) {
    && 0 <= k <= |s| - |r| && r == s[k..k + |r|]
    && (forall i :: 0 <= i < k ==> IsWhiteSpace(s[i]))
    && (forall i :: k + |r| <= i < |s| ==> IsWhiteSpace(s[i]))
  }

  /** `s.trim()`: a contiguous piece of `s` with only white space around
      it, and neither starting nor ending with white space. */
  function Trim(s: string): (r: string)
    ensures exists k :: PieceAmidWhiteSpace(s, r, k)
    ensures r != "" ==> !IsWhiteSpace(r[0]) && !IsWhiteSpace(r[|r| - 1])
  {
    var t := TrimStart(s);
    var r := TrimEnd(t);
    PieceOfSuffixPrefix(s, t, r);
    r
  }

  /** A prefix `r` of a suffix `t` of `s`, with white space dropped on
      both sides, is a piece of `s` amid white space. */
  lemma PieceOfSuffixPrefix(s: string, t: string, r: string)
    requires |t| <= |s| && t == s[|s| - |t|..]
    requires forall i :: 0 <= i < |s| - |t| ==> IsWhiteSpace(s[i])
    requires |r| <= |t| && r == t[..|r|]
    requires forall i :: |r| <= i < |t| ==> IsWhiteSpace(t[i])
    ensures PieceAmidWhiteSpace(s, r, |s| - |t|)
  {
    var k := |s| - |t|;
    assert r == s[k..k + |r|];
    forall i | k + |r| <= i < |s|
      ensures IsWhiteSpace(s[i])
    {
      assert s[i] == t[i - k];
    }
  }

  /** `s.trim()` is empty, hence falsy, exactly when `s` is blank. */
  lemma TrimEmptyIffBlank(s: string)
    ensures Trim(s) == "" <==> IsBlank(s)
  {
  }
}
