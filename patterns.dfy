/** The three fixed patterns of the Gradle scanner and the captures the scanner keeps:

    - `java\s*\(\s*version\s*=\s*['"](\d+)['"]\)`, group 1 (the Java toolchain version);
    - `(implementation|api|compileOnly|runtimeOnly)\s*['"](.+?):(.+?):(.+?)['"]`,
      group 0 (the whole dependency declaration);
    - `gradle-(\d+\.\d+\.\d+)-all.zip`, group 1 (the Gradle distribution version).

    The first and third are deterministic concatenations (module Regex). The second has
    a deterministic head followed by three lazy groups, read here by hand. */
module Patterns {
  import opened Text
  import opened Regex

  // ---------------------------------------------------------------------------
  // java\s*\(\s*version\s*=\s*['"](\d+)['"]\)

  /** The pattern as pieces; group 1 is the digit run. */
  const JavaPattern: seq<Piece> := [
    Lit("java"), Star(IsSpace), Lit("("), Star(IsSpace), Lit("version"), Star(IsSpace),
    Lit("="), Star(IsSpace), One(IsQuote), Plus(IsDigit), One(IsQuote), Lit(")")]

  /** The piece that group 1, `(\d+)`, spans. */
  const JavaGroup: nat := 9

  lemma JavaPatternDeterministic()
    ensures Deterministic(JavaPattern)
  {
    assert !IsSpace('(') && !IsSpace('v') && !IsSpace('=');
    assert forall x :: IsQuote(x) ==> !IsSpace(x) && !IsDigit(x);
    forall i | 0 <= i < |JavaPattern| ensures DeterministicAt(JavaPattern, i) {
    }
  }

  /** `re.search(java pattern, line).group(1)`. */
  function JavaCapture(line: string): (r: Option<string>)
    ensures r.Some? ==> r.value != [] && AllDigits(r.value)
  {
    match Search(JavaPattern, line)
    case None => None
    case Some((_, parts)) =>
      assert Matches(JavaPattern[JavaGroup], parts[JavaGroup]);
      Some(parts[JavaGroup])
  }

  /** The capture is the version of the leftmost declaration in the line, and there is
      none exactly when no declaration occurs anywhere in the line. */
  lemma JavaCaptureLeftmost(line: string, j: nat, parts: seq<string>)
    requires j <= |line| && MatchesAll(JavaPattern, parts) && StartsWith(line[j..], Concat(parts))
    requires forall i: nat, q :: i < j && MatchesAll(JavaPattern, q) ==> !StartsWith(line[i..], Concat(q))
    ensures JavaCapture(line) == Some(parts[JavaGroup])
  {
    JavaPatternDeterministic();
    SearchLeftmost(JavaPattern, line, j, parts);
  }

  lemma JavaCaptureNone(line: string)
    ensures JavaCapture(line).None? <==>
      forall j: nat, parts :: j <= |line| && MatchesAll(JavaPattern, parts) ==> !StartsWith(line[j..], Concat(parts))
  {
    JavaPatternDeterministic();
    if JavaCapture(line).None? {
      forall j: nat, parts | j <= |line| && MatchesAll(JavaPattern, parts)
        ensures !StartsWith(line[j..], Concat(parts))
      {
        if StartsWith(line[j..], Concat(parts)) { SearchLeftmost(JavaPattern, line, j, parts); }
      }
    } else {
      var (i, q) := Search(JavaPattern, line).value;
      assert StartsWith(line[i..], Concat(q));
    }
  }

  /** Every declaration begins with the word `java`, so a line in which that word does
      not occur anywhere has no capture. */
  lemma JavaCaptureNeedsKeyword(line: string)
    requires forall j: nat :: j <= |line| ==> !StartsWith(line[j..], "java")
    ensures JavaCapture(line).None?
  {
    JavaCaptureNone(line);
    forall j: nat, parts | j <= |line| && MatchesAll(JavaPattern, parts)
      ensures !StartsWith(line[j..], Concat(parts))
    {
      ConcatSplit(parts, []);
      assert Concat(parts) == "java" + Concat(parts[1..]);
    }
  }

  // ---------------------------------------------------------------------------
  // gradle-(\d+\.\d+\.\d+)-all.zip   (the `.` of `all.zip` is unescaped)

  /** The pattern as pieces, with the unescaped `.` as any character but a line feed. */
  const WrapperPattern: seq<Piece> := [
    Lit("gradle-"), Plus(IsDigit), Lit("."), Plus(IsDigit), Lit("."), Plus(IsDigit),
    Lit("-all"), One(NotNewline), Lit("zip")]

  lemma WrapperPatternDeterministic()
    ensures Deterministic(WrapperPattern)
  {
    assert !IsDigit('.') && !IsDigit('-');
    forall i | 0 <= i < |WrapperPattern| ensures DeterministicAt(WrapperPattern, i) {
    }
  }

  /** Group 1 spans pieces 1 to 5: the three digit runs and the two dots between them. */
  function WrapperGroup(parts: seq<string>): string
    requires |parts| >= 6
  {
    parts[1] + parts[2] + parts[3] + parts[4] + parts[5]
  }

  /** The version has the shape digits.digits.digits. */
  predicate IsVersionTriple(v: string) {
    exists i: nat, j: nat :: 0 < i && i + 1 < j && j + 1 < |v| && IsTripleAt(v, i, j)
  }

  predicate IsTripleAt(v: string, i: nat, j: nat)
    requires 0 < i && i + 1 < j && j + 1 < |v|
  {
    v[i] == '.' && v[j] == '.' && AllDigits(v[..i]) && AllDigits(v[i + 1..j]) && AllDigits(v[j + 1..])
  }

  lemma WrapperGroupIsTriple(parts: seq<string>)
    requires MatchesAll(WrapperPattern, parts)
    ensures IsVersionTriple(WrapperGroup(parts))
  {
    assert Matches(WrapperPattern[1], parts[1]) && Matches(WrapperPattern[3], parts[3]);
    assert Matches(WrapperPattern[5], parts[5]);
    assert Matches(WrapperPattern[2], parts[2]) && Matches(WrapperPattern[4], parts[4]);
    var v := WrapperGroup(parts);
    var i, j := |parts[1]|, |parts[1]| + 1 + |parts[3]|;
    assert v[..i] == parts[1] && v[i + 1..j] == parts[3] && v[j + 1..] == parts[5];
    assert IsTripleAt(v, i, j);
  }

  /** `re.search(wrapper pattern, line).group(1)`. */
  function WrapperCapture(line: string): (r: Option<string>)
    ensures r.Some? ==> IsVersionTriple(r.value)
  {
    match Search(WrapperPattern, line)
    case None => None
    case Some((_, parts)) =>
      WrapperGroupIsTriple(parts);
      Some(WrapperGroup(parts))
  }

  lemma WrapperCaptureLeftmost(line: string, j: nat, parts: seq<string>)
    requires j <= |line| && MatchesAll(WrapperPattern, parts) && StartsWith(line[j..], Concat(parts))
    requires forall i: nat, q :: i < j && MatchesAll(WrapperPattern, q) ==> !StartsWith(line[i..], Concat(q))
    ensures WrapperCapture(line) == Some(WrapperGroup(parts))
  {
    WrapperPatternDeterministic();
    SearchLeftmost(WrapperPattern, line, j, parts);
  }

  lemma WrapperCaptureNone(line: string)
    ensures WrapperCapture(line).None? <==>
      forall j: nat, parts :: j <= |line| && MatchesAll(WrapperPattern, parts) ==> !StartsWith(line[j..], Concat(parts))
  {
    WrapperPatternDeterministic();
    if WrapperCapture(line).None? {
      forall j: nat, parts | j <= |line| && MatchesAll(WrapperPattern, parts)
        ensures !StartsWith(line[j..], Concat(parts))
      {
        if StartsWith(line[j..], Concat(parts)) { SearchLeftmost(WrapperPattern, line, j, parts); }
      }
    } else {
      var (i, q) := Search(WrapperPattern, line).value;
      assert StartsWith(line[i..], Concat(q));
    }
  }

  /** Nothing in `s` can start the wrapper pattern, whatever follows `s`: every `g` of
      `s` has six more characters of `s` after it, and they do not spell `radle-`. */
  predicate NoDistributionStart(s: string) {
    forall j :: 0 <= j < |s| && s[j] == 'g' ==> j + 7 <= |s| && s[j..j + 7] != "gradle-"
  }

  /** Texts that cannot start the pattern still cannot when put one after the other. */
  lemma NoStartAppend(x: string, y: string)
    requires NoDistributionStart(x) && NoDistributionStart(y)
    ensures NoDistributionStart(x + y)
  {
    var s := x + y;
    forall j | 0 <= j < |s| && s[j] == 'g' ensures j + 7 <= |s| && s[j..j + 7] != "gradle-" {
      if j < |x| {
        assert x[j] == 'g';
        assert s[j..j + 7] == x[j..j + 7];
      } else {
        assert y[j - |x|] == 'g';
        assert s[j..j + 7] == y[j - |x|..j - |x| + 7];
      }
    }
  }

  /** A text whose only `g` is at `p` and does not begin `gradle-` cannot start the pattern. */
  lemma OneGNoStart(s: string, p: nat)
    requires p + 7 <= |s| && s[p..p + 7] != "gradle-"
    requires 'g' !in s[..p] && 'g' !in s[p + 1..]
    ensures NoDistributionStart(s)
  {
    assert forall k :: 0 <= k < p ==> s[k] == s[..p][k];
    assert forall k :: p < k < |s| ==> s[k] == s[p + 1..][k - p - 1];
  }

  /** A distribution name with a two-part version, `gradle-<a>.<b>`, and what follows it
      on the line. */
  function TwoPartName(a: string, b: string, rest: string): string {
    "gradle-" + (a + ("." + (b + rest)))
  }

  /** A version with two parts only, such as `gradle-8.4-all.zip`, has no capture: after
      the second digit run the pattern needs a third `.` and finds the `-` of `-all`.
      Before that name the line may hold anything that cannot start the pattern (the
      `distributionUrl=` key and the address of the distribution); after it, the rest of
      the line is free of `g`, so that no later `gradle-` can start a match. */
  lemma TwoPartVersion(pre: string, a: string, b: string, rest: string)
    requires NoDistributionStart(pre)
    requires a != [] && b != [] && AllDigits(a) && AllDigits(b)
    requires rest != [] && rest[0] != '.' && !IsDigit(rest[0])
    requires forall k :: 0 <= k < |rest| ==> rest[k] != 'g'
    ensures WrapperCapture(pre + TwoPartName(a, b, rest)).None?
  {
    var core := TwoPartName(a, b, rest);
    var line := pre + core;
    forall j: nat | j <= |line| ensures Parse(WrapperPattern, line[j..]).None? {
      if j < |pre| {
        PrefixNoStart(pre, core, j);
      } else {
        assert line[j..] == core[j - |pre|..];
        TwoPartAt(a, b, rest, j - |pre|);
      }
    }
  }

  /** Inside a prefix that cannot start the pattern, no position reads it. */
  lemma PrefixNoStart(pre: string, t: string, j: nat)
    requires NoDistributionStart(pre) && j < |pre|
    ensures Parse(WrapperPattern, (pre + t)[j..]).None?
  {
    var u := (pre + t)[j..];
    assert WrapperPattern[0] == Lit("gradle-");
    assert u[0] == pre[j];
    if pre[j] == 'g' {
      assert u[..7] == pre[j..j + 7];
    } else if |u| >= 7 {
      assert u[..7][0] != "gradle-"[0];
    }
    ParseNoneAt(WrapperPattern, u);
  }

  lemma TwoPartAt(a: string, b: string, rest: string, j: nat)
    requires a != [] && b != [] && AllDigits(a) && AllDigits(b)
    requires rest != [] && rest[0] != '.' && !IsDigit(rest[0])
    requires forall k :: 0 <= k < |rest| ==> rest[k] != 'g'
    requires j <= |TwoPartName(a, b, rest)|
    ensures Parse(WrapperPattern, TwoPartName(a, b, rest)[j..]).None?
  {
    var line := TwoPartName(a, b, rest);
    assert WrapperPattern[0] == Lit("gradle-");
    if j == 0 {
      assert line[0..] == line;
      TwoPartAtStart(a, b, rest);
    } else if j < |line| {
      TwoPartNoG(a, b, rest, j);
      assert line[j..][0] == line[j];
      ParseNoneAt(WrapperPattern, line[j..]);
    } else {
      ParseNoneAt(WrapperPattern, line[j..]);
    }
  }

  lemma TwoPartNoG(a: string, b: string, rest: string, j: nat)
    requires AllDigits(a) && AllDigits(b) && forall k :: 0 <= k < |rest| ==> rest[k] != 'g'
    requires 0 < j < |TwoPartName(a, b, rest)|
    ensures TwoPartName(a, b, rest)[j] != 'g'
  {
    var line := TwoPartName(a, b, rest);
    if j < 7 { assert line[j] == "gradle-"[j]; }
    else if j < 7 + |a| { assert line[j] == a[j - 7]; }
    else if j == 7 + |a| { assert line[j] == '.'; }
    else if j < 8 + |a| + |b| { assert line[j] == b[j - 8 - |a|]; }
    else { assert line[j] == rest[j - 8 - |a| - |b|]; }
  }

  lemma TwoPartAtStart(a: string, b: string, rest: string)
    requires a != [] && b != [] && AllDigits(a) && AllDigits(b)
    requires rest != [] && rest[0] != '.' && !IsDigit(rest[0])
    ensures Parse(WrapperPattern, TwoPartName(a, b, rest)).None?
  {
    var p := WrapperPattern;
    var t2 := "." + (b + rest);
    TwoPartAfterDot(b, rest);
    PlusReads(IsDigit, a, t2);
    assert p[1..][0] == Plus(IsDigit) && p[1..][1..] == p[2..];
    ParseNoneAfter(p[1..], a + t2, a);
    LitReads("gradle-", a + t2);
    ParseNoneAfter(p, "gradle-" + (a + t2), "gradle-");
  }

  lemma TwoPartAfterDot(b: string, rest: string)
    requires b != [] && AllDigits(b) && rest != [] && rest[0] != '.' && !IsDigit(rest[0])
    ensures Parse(WrapperPattern[2..], "." + (b + rest)).None?
  {
    var p := WrapperPattern[2..];
    assert WrapperPattern[4..][0] == Lit(".");
    assert rest[..1] != ".";
    ParseNoneAt(WrapperPattern[4..], rest);
    PlusReads(IsDigit, b, rest);
    assert p[1..][0] == Plus(IsDigit) && p[1..][1..] == WrapperPattern[4..];
    ParseNoneAfter(p[1..], b + rest, b);
    LitReads(".", b + rest);
    assert p[0] == Lit(".") && p[1..] == WrapperPattern[3..];
    ParseNoneAfter(p, "." + (b + rest), ".");
  }

  // ---------------------------------------------------------------------------
  // (implementation|api|compileOnly|runtimeOnly)\s*['"](.+?):(.+?):(.+?)['"]

  /** The options of the first group, in the order they are tried. */
  const Keywords: seq<string> := ["implementation", "api", "compileOnly", "runtimeOnly"]

  /** The deterministic head of the pattern: a keyword, `\s*` and the opening quote. */
  const DepHead: seq<Piece> := [Alt(Keywords), Star(IsSpace), One(IsQuote)]

  lemma DepHeadDeterministic()
    ensures Deterministic(DepHead)
  {
    assert DistinctHeads(Keywords);
    assert forall x :: IsQuote(x) ==> !IsSpace(x);
    forall i | 0 <= i < |DepHead| ensures DeterministicAt(DepHead, i) {
    }
  }

  /** One occurrence: the head's parts, the three lazy groups and the closing quote. */
  datatype DepDecl = DepDecl(head: seq<string>, group: string, artifact: string, version: string, close: char)

  /** `d` is an occurrence of the pattern: the head matches, the three groups are
      non-empty and hold no line feed (`.` does not match one), and it closes with a quote. */
  predicate DepWellFormed(d: DepDecl) {
    && MatchesAll(DepHead, d.head)
    && d.group != [] && NoNewline(d.group)
    && d.artifact != [] && NoNewline(d.artifact)
    && d.version != [] && NoNewline(d.version)
    && IsQuote(d.close)
  }

  /** Group 0: the text of the whole occurrence. */
  function DepText(d: DepDecl): string {
    Concat(d.head) + DepBody(d)
  }

  /** What follows the opening quote: `group:artifact:version` and the closing quote. */
  function DepBody(d: DepDecl): string {
    d.group + (":" + (d.artifact + (":" + (d.version + [d.close]))))
  }

  /** The least `k >= from` with `target(u[k])` and no line feed before it: where a lazy
      `.+?` followed by `target` stops. */
  function FindStop(u: string, from: nat, target: char -> bool): (r: Option<nat>)
    ensures r.Some? ==> from <= r.value < |u| && target(u[r.value]) && NoNewline(u[..r.value])
    ensures forall k: nat :: from <= k < |u| && target(u[k]) && NoNewline(u[..k]) ==> r.Some? && r.value <= k
  {
    Scan(u, 0, from, target)
  }

  function Scan(u: string, j: nat, from: nat, target: char -> bool): (r: Option<nat>)
    requires j <= |u| && NoNewline(u[..j])
    requires forall k: nat :: from <= k < j ==> !target(u[k])
    ensures r.Some? ==> from <= r.value < |u| && target(u[r.value]) && NoNewline(u[..r.value])
    ensures forall k: nat :: from <= k < |u| && target(u[k]) && NoNewline(u[..k]) ==> r.Some? && r.value <= k
    decreases |u| - j
  {
    if j == |u| then None
    else if from <= j && target(u[j]) then Some(j)
    else if u[j] == '\n' then
      assert forall k: nat :: j < k <= |u| ==> u[..k][j] == '\n';
      None
    else
      assert u[..j + 1] == u[..j] + [u[j]];
      Scan(u, j + 1, from, target)
  }

  /** Reads a dependency declaration at the start of `t`: the head, then the lazy
      groups. */
  function ParseDep(t: string): (r: Option<DepDecl>)
    ensures r.Some? ==> DepWellFormed(r.value) && StartsWith(t, DepText(r.value))
  {
    match Parse(DepHead, t)
    case None => None
    case Some(head) =>
      var u := t[|Concat(head)|..];
      match ReadBody(head, u)
      case None => None
      case Some(d) =>
        StartsWithAfter(Concat(head), t, u, DepBody(d));
        Some(d)
  }

  /** Reads the three lazy groups after the opening quote: each one ends at the first
      stop character that leaves the next group non-empty. */
  function ReadBody(head: seq<string>, u: string): (r: Option<DepDecl>)
    ensures r.Some? ==> r.value.head == head && StartsWith(u, DepBody(r.value))
    ensures r.Some? ==> && r.value.group != [] && NoNewline(r.value.group)
                        && r.value.artifact != [] && NoNewline(r.value.artifact)
                        && r.value.version != [] && NoNewline(r.value.version)
                        && IsQuote(r.value.close)
  {
    match FindStop(u, 1, IsColon)
    case None => None
    case Some(a) =>
      match FindStop(u, a + 2, IsColon)
      case None => None
      case Some(b) =>
        match FindStop(u, b + 2, IsQuote)
        case None => None
        case Some(c) =>
          var d := DepDecl(head, u[..a], u[a + 1..b], u[b + 1..c], u[c]);
          LazyGroupsSound(u, a, b, c);
          assert StartsWith(u, DepBody(d));
          Some(d)
  }

  /** The three stops found in `u` cut it into the groups of a well-formed body. */
  lemma LazyGroupsSound(u: string, a: nat, b: nat, c: nat)
    requires 1 <= a && a + 2 <= b && b + 2 <= c < |u|
    requires u[a] == ':' && u[b] == ':' && NoNewline(u[..c])
    ensures NoNewline(u[..a]) && NoNewline(u[a + 1..b]) && NoNewline(u[b + 1..c])
    ensures StartsWith(u, u[..a] + (":" + (u[a + 1..b] + (":" + (u[b + 1..c] + [u[c]])))))
  {
    forall k | 0 <= k < c ensures u[k] != '\n' { assert u[..c][k] == u[k]; }
    assert u[..c + 1] == u[..a] + (":" + (u[a + 1..b] + (":" + (u[b + 1..c] + [u[c]]))));
  }

  lemma StartsWithAfter(x: string, t: string, u: string, body: string)
    requires StartsWith(t, x) && u == t[|x|..] && StartsWith(u, body)
    ensures StartsWith(t, x + body)
  {
    assert t == x + u;
    assert (x + u)[..|x + body|] == x + body;
  }

  lemma StartsWithSplit(t: string, x: string, body: string)
    requires StartsWith(t, x + body)
    ensures t == x + t[|x|..] && StartsWith(t[|x|..], body)
  {
    assert t[..|x + body|] == x + body;
    assert t[..|x|] == (x + body)[..|x|] == x;
    assert t[|x|..][..|body|] == t[..|x + body|][|x|..];
  }

  /** Where the opening quote of a well-formed occurrence ends, the lazy groups start. */
  lemma DepHeadSplit(t: string, d: DepDecl)
    requires DepWellFormed(d) && StartsWith(t, DepText(d))
    ensures Parse(DepHead, t) == Some(d.head)
    ensures StartsWith(t[|Concat(d.head)|..], DepBody(d))
  {
    StartsWithSplit(t, Concat(d.head), DepBody(d));
    DepHeadDeterministic();
    ParseComplete(DepHead, d.head, t[|Concat(d.head)|..]);
  }

  /** In a text that starts with a well-formed body, the body's own colons and closing
      quote are stops that a lazy group may end at. */
  lemma BodyStops(u: string, d: DepDecl)
    requires DepWellFormed(d) && StartsWith(u, DepBody(d))
    ensures var a, b, c := |d.group|, |d.group| + 1 + |d.artifact|, |d.group| + 1 + |d.artifact| + 1 + |d.version|;
      && c < |u| && u[a] == ':' && u[b] == ':' && IsQuote(u[c])
      && NoNewline(u[..a]) && NoNewline(u[..b]) && NoNewline(u[..c])
  {
    var body := DepBody(d);
    var a, b, c := |d.group|, |d.group| + 1 + |d.artifact|, |d.group| + 1 + |d.artifact| + 1 + |d.version|;
    assert u[..|body|] == body;
    assert body[a] == ':' && body[b] == ':' && body[c] == d.close;
    forall k | 0 <= k < c ensures u[k] != '\n' {
      assert u[k] == body[k];
      if k < a { assert body[k] == d.group[k]; }
      else if a < k < b { assert body[k] == d.artifact[k - a - 1]; }
      else if b < k { assert body[k] == d.version[k - b - 1]; }
    }
    assert forall k :: 0 <= k < c ==> u[..c][k] == u[k];
    assert forall k :: 0 <= k < b ==> u[..b][k] == u[k];
    assert forall k :: 0 <= k < a ==> u[..a][k] == u[k];
  }

  /** Regex semantics of the lazy groups: wherever a well-formed occurrence starts, the
      parser reads one there too, and the one it reads is the shortest. */
  lemma ParseDepShortest(t: string, d: DepDecl)
    requires DepWellFormed(d) && StartsWith(t, DepText(d))
    ensures ParseDep(t).Some? && |DepText(ParseDep(t).value)| <= |DepText(d)|
  {
    DepHeadSplit(t, d);
    var u := t[|Concat(d.head)|..];
    BodyStops(u, d);
  }

  /** The leftmost start position at which a dependency declaration reads, with it. */
  function DepSearch(line: string): (r: Option<(nat, DepDecl)>)
    ensures r.Some? ==> r.value.0 <= |line| && ParseDep(line[r.value.0..]) == Some(r.value.1)
    ensures r.Some? ==> forall j: nat :: j < r.value.0 ==> ParseDep(line[j..]).None?
    ensures r.None? ==> forall j: nat :: j <= |line| ==> ParseDep(line[j..]).None?
  {
    var f := (j: nat) => if j <= |line| then ParseDep(line[j..]) else None;
    assert forall j: nat :: j <= |line| ==> f(j) == ParseDep(line[j..]);
    FindFirst(f, 0, |line|)
  }

  predicate StartsWithKeyword(s: string) {
    exists k :: k in Keywords && StartsWith(s, k)
  }

  /** `re.search(dependency pattern, line).group(0)`: it begins with one of the four
      configuration keywords and ends with a quote. */
  function DepFragment(line: string): (r: Option<string>)
    ensures r.Some? ==> StartsWithKeyword(r.value) && IsQuote(r.value[|r.value| - 1])
  {
    match DepSearch(line)
    case None => None
    case Some((_, d)) =>
      DepTextShape(d);
      Some(DepText(d))
  }

  lemma DepTextShape(d: DepDecl)
    requires DepWellFormed(d)
    ensures StartsWithKeyword(DepText(d)) && IsQuote(DepText(d)[|DepText(d)| - 1])
  {
    assert Matches(DepHead[0], d.head[0]);
    var x := Concat(d.head[1..]) + DepBody(d);
    assert DepText(d) == d.head[0] + x;
    assert StartsWith(DepText(d), d.head[0]);
  }

  /** The fragment is the shortest declaration at the leftmost position where one starts;
      there is none exactly when no declaration occurs anywhere in the line. */
  lemma DepFragmentLeftmost(line: string, j: nat, d: DepDecl)
    requires j <= |line| && DepWellFormed(d) && StartsWith(line[j..], DepText(d))
    ensures DepSearch(line).Some? && DepSearch(line).value.0 <= j
    ensures DepSearch(line).value.0 == j ==> |DepText(DepSearch(line).value.1)| <= |DepText(d)|
  {
    ParseDepShortest(line[j..], d);
  }

  lemma DepFragmentNone(line: string)
    ensures DepFragment(line).None? <==>
      forall j: nat, d :: j <= |line| && DepWellFormed(d) ==> !StartsWith(line[j..], DepText(d))
  {
    if DepFragment(line).None? {
      forall j: nat, d | j <= |line| && DepWellFormed(d)
        ensures !StartsWith(line[j..], DepText(d))
      {
        if StartsWith(line[j..], DepText(d)) { DepFragmentLeftmost(line, j, d); }
      }
    } else {
      var (i, d) := DepSearch(line).value;
      assert StartsWith(line[i..], DepText(d));
    }
  }

  /** When the group and artifact hold no colon and the version no quote, the parser
      reads back exactly the declaration that was written. */
  lemma ParseDepExact(t: string, d: DepDecl)
    requires DepWellFormed(d) && PlainFields(d) && StartsWith(t, DepText(d))
    ensures ParseDep(t) == Some(d)
  {
    DepHeadSplit(t, d);
    ExactStops(t[|Concat(d.head)|..], d);
  }

  /** No colon in the group or artifact and no quote in the version. */
  predicate PlainFields(d: DepDecl) {
    && (forall k :: 0 <= k < |d.group| ==> d.group[k] != ':')
    && (forall k :: 0 <= k < |d.artifact| ==> d.artifact[k] != ':')
    && (forall k :: 0 <= k < |d.version| ==> !IsQuote(d.version[k]))
  }

  /** After the opening quote of a plain declaration, the lazy groups stop at the
      declaration's own separators and closing quote. */
  lemma ExactStops(u: string, d: DepDecl)
    requires DepWellFormed(d) && PlainFields(d) && StartsWith(u, DepBody(d))
    ensures ReadBody(d.head, u) == Some(d)
  {
    PlainStops(u, d);
    BodyFields(u, d);
  }

  /** In a plain body the first colon, the next colon and the quote after it are the
      declaration's own separators and closing quote. */
  lemma PlainStops(u: string, d: DepDecl)
    requires DepWellFormed(d) && PlainFields(d) && StartsWith(u, DepBody(d))
    ensures var a, b, c := |d.group|, |d.group| + 1 + |d.artifact|, |d.group| + 1 + |d.artifact| + 1 + |d.version|;
      && FindStop(u, 1, IsColon) == Some(a) && FindStop(u, a + 2, IsColon) == Some(b)
      && FindStop(u, b + 2, IsQuote) == Some(c)
  {
    BodyStops(u, d);
    var body := DepBody(d);
    var a, b, c := |d.group|, |d.group| + 1 + |d.artifact|, |d.group| + 1 + |d.artifact| + 1 + |d.version|;
    assert u[..|body|] == body;
    forall m | 1 <= m < a ensures !IsColon(u[m]) { assert u[m] == body[m]; BodyAt(d, m); }
    FindStopAt(u, 1, IsColon, a);
    forall m | a + 2 <= m < b ensures !IsColon(u[m]) { assert u[m] == body[m]; BodyAt(d, m); }
    FindStopAt(u, a + 2, IsColon, b);
    forall m | b + 2 <= m < c ensures !IsQuote(u[m]) { assert u[m] == body[m]; BodyAt(d, m); }
    FindStopAt(u, b + 2, IsQuote, c);
  }

  /** A text that starts with a body holds the body's fields at their offsets. */
  lemma BodyFields(u: string, d: DepDecl)
    requires StartsWith(u, DepBody(d))
    ensures var a, b, c := |d.group|, |d.group| + 1 + |d.artifact|, |d.group| + 1 + |d.artifact| + 1 + |d.version|;
      && u[..a] == d.group && u[a + 1..b] == d.artifact && u[b + 1..c] == d.version && u[c] == d.close
  {
    var body := DepBody(d);
    var a, b, c := |d.group|, |d.group| + 1 + |d.artifact|, |d.group| + 1 + |d.artifact| + 1 + |d.version|;
    var w := u[..|body|];
    assert w == body;
    assert body[..a] == d.group;
    assert body[a + 1..b] == d.artifact;
    assert body[b + 1..c] == d.version;
    assert u[..a] == w[..a] && u[a + 1..b] == w[a + 1..b] && u[b + 1..c] == w[b + 1..c];
  }

  /** The character at each position of a body, region by region. */
  lemma BodyAt(d: DepDecl, m: nat)
    requires m < |DepBody(d)|
    ensures var a, b, c := |d.group|, |d.group| + 1 + |d.artifact|, |d.group| + 1 + |d.artifact| + 1 + |d.version|;
      && (m < a ==> DepBody(d)[m] == d.group[m])
      && (m == a || m == b ==> DepBody(d)[m] == ':')
      && (a < m < b ==> DepBody(d)[m] == d.artifact[m - a - 1])
      && (b < m < c ==> DepBody(d)[m] == d.version[m - b - 1])
      && (m == c ==> DepBody(d)[m] == d.close)
  {
  }

  /** A stop with no other stop between `from` and it is the one found. */
  lemma FindStopAt(u: string, from: nat, target: char -> bool, k: nat)
    requires from <= k < |u| && target(u[k]) && NoNewline(u[..k])
    requires forall m :: from <= m < k ==> !target(u[m])
    ensures FindStop(u, from, target) == Some(k)
  {
  }
}
