/** Character classes, Python's `str.strip()` and a first-hit search over positions:
    the text primitives shared by the matchers, the renderer and the command-line flow. */
module Text {

  datatype Option<+T> = None | Some(value: T)

  /** Python's `str.isspace()`, which is also the set `\s` matches in a str pattern. */
  predicate IsSpace(c: char) {
    || ('\t' <= c <= '\r')
    || ('\U{1C}' <= c <= ' ')
    || c == '\U{85}' || c == '\U{A0}' || c == '\U{1680}'
    || ('\U{2000}' <= c <= '\U{200A}')
    || c == '\U{2028}' || c == '\U{2029}' || c == '\U{202F}' || c == '\U{205F}' || c == '\U{3000}'
  }

  /** `\d`, restricted to the ASCII digits. */
  predicate IsDigit(c: char) {
    '0' <= c <= '9'
  }

  /** The character class `['"]`. */
  predicate IsQuote(c: char) {
    c == '\'' || c == '"'
  }

  predicate IsColon(c: char) {
    c == ':'
  }

  predicate All(s: string, p: char -> bool) {
    forall k :: 0 <= k < |s| ==> p(s[k])
  }

  predicate AllSpace(s: string) {
    All(s, IsSpace)
  }

  predicate AllDigits(s: string) {
    All(s, IsDigit)
  }

  /** `.` in a pattern without DOTALL: every character but the line feed. */
  predicate NotNewline(c: char) {
    c != '\n'
  }

  /** Text that `.+` can span. */
  predicate NoNewline(s: string) {
    All(s, NotNewline)
  }

  predicate StartsWith(s: string, prefix: string) {
    |prefix| <= |s| && s[..|prefix|] == prefix
  }

  /** `s` ends with `suffix`. */
  predicate EndsWith(s: string, suffix: string) {
    |suffix| <= |s| && s[|s| - |suffix|..] == suffix
  }

  /** The longest prefix of `s` whose characters all satisfy `p` (a greedy `p*`). */
  function Run(s: string, p: char -> bool): (r: string)
    ensures StartsWith(s, r) && All(r, p)
    ensures |r| < |s| ==> !p(s[|r|])
    decreases |s|
  {
    if s != [] && p(s[0]) then [s[0]] + Run(s[1..], p) else []
  }

  /** A greedy run stops exactly at the first character outside the class. */
  lemma {:induction false} RunStopsAt(w: string, c: char, rest: string, p: char -> bool)
    requires All(w, p) && !p(c)
    ensures Run(w + [c] + rest, p) == w
    decreases |w|
  {
    var s := w + [c] + rest;
    if w == [] {
      assert s[0] == c;
    } else {
      assert s[0] == w[0] && p(w[0]);
      assert s[1..] == w[1..] + [c] + rest;
      RunStopsAt(w[1..], c, rest, p);
      assert [w[0]] + w[1..] == w;
    }
  }

  /** The number of whitespace characters `s` starts with. */
  function LeadingSpace(s: string): (n: nat)
    ensures n <= |s| && AllSpace(s[..n])
    ensures n < |s| ==> !IsSpace(s[n])
    decreases |s|
  {
    if s != [] && IsSpace(s[0]) then 1 + LeadingSpace(s[1..]) else 0
  }

  /** The length of `s` once its trailing whitespace is dropped. */
  function TextEnd(s: string): (n: nat)
    ensures n <= |s| && AllSpace(s[n..])
    ensures n > 0 ==> !IsSpace(s[n - 1])
    decreases |s|
  {
    if s != [] && IsSpace(s[|s| - 1]) then TextEnd(s[..|s| - 1]) else |s|
  }

  /** Python's `str.strip()` with no argument. */
  function Strip(s: string): string
  {
    var t := s[LeadingSpace(s)..];
    t[..TextEnd(t)]
  }

  /** `Strip(s)` is the slice of `s` between two all-whitespace margins, and touches no
      whitespace at either end; it is empty exactly when `s` is all whitespace. */
  lemma StripIsCore(s: string)
    ensures |Strip(s)| <= |s|
    ensures Strip(s) != [] ==> !IsSpace(Strip(s)[0]) && !IsSpace(Strip(s)[|Strip(s)| - 1])
    ensures Strip(s) == [] <==> AllSpace(s)
    ensures exists i :: 0 <= i <= |s| - |Strip(s)| && IsStripSlice(s, i, Strip(s))
  {
    var i := LeadingSpace(s);
    var t := s[i..];
    var n := TextEnd(t);
    var r := t[..n];
    assert s[i..i + n] == r;
    assert s[i + n..] == t[n..];
    assert IsStripSlice(s, i, r);
    if n == 0 {
      assert i == |s|;
      assert s[..i] == s;
    } else {
      assert r[0] == s[i];
    }
  }

  /** `r` sits at `i` in `s` with only whitespace before and after it. */
  predicate IsStripSlice(s: string, i: nat, r: string)
    requires i + |r| <= |s|
  {
    s[i..i + |r|] == r && AllSpace(s[..i]) && AllSpace(s[i + |r|..])
  }

  /** Whatever whitespace surrounds a text that neither starts nor ends with whitespace,
      strip gives back exactly that text. */
  lemma StripPadded(pre: string, x: string, post: string)
    requires AllSpace(pre) && AllSpace(post)
    requires x != [] && !IsSpace(x[0]) && !IsSpace(x[|x| - 1])
    ensures Strip(pre + x + post) == x
  {
    var s := pre + x + post;
    LeadingSpacePadded(pre, x + post);
    assert s == pre + (x + post);
    assert s[|pre|..] == x + post;
    TextEndPadded(x, post);
  }

  lemma {:induction false} LeadingSpacePadded(pre: string, y: string)
    requires AllSpace(pre) && y != [] && !IsSpace(y[0])
    ensures LeadingSpace(pre + y) == |pre|
    decreases |pre|
  {
    if pre == [] {
      assert pre + y == y;
    } else {
      assert (pre + y)[0] == pre[0];
      assert (pre + y)[1..] == pre[1..] + y;
      LeadingSpacePadded(pre[1..], y);
    }
  }

  lemma {:induction false} TextEndPadded(x: string, post: string)
    requires AllSpace(post) && x != [] && !IsSpace(x[|x| - 1])
    ensures TextEnd(x + post) == |x|
    decreases |post|
  {
    if post == [] {
      assert x + post == x;
    } else {
      var s := x + post;
      assert s[|s| - 1] == post[|post| - 1];
      assert s[..|s| - 1] == x + post[..|post| - 1];
      TextEndPadded(x, post[..|post| - 1]);
    }
  }

  /** The first position in `from..to` at which `f` reports a hit, with the hit
      (`re.search` tries the start positions left to right). */
  function FindFirst<T>(f: nat -> Option<T>, from: nat, to: nat): (r: Option<(nat, T)>)
    ensures r.Some? ==> from <= r.value.0 <= to && f(r.value.0) == Some(r.value.1)
    ensures r.Some? ==> (forall j :: from <= j < r.value.0 ==> f(j).None?)
    ensures r.None? ==> (forall j :: from <= j <= to ==> f(j).None?)
    decreases (to as int) - (from as int)
  {
    if from > to then None
    else match f(from)
      case Some(v) => Some((from, v))
      case None => FindFirst(f, from + 1, to)
  }
}
