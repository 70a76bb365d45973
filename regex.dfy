/** The fragment of regular expressions that the scanner's patterns use: a concatenation
    of pieces, each a literal, an alternation of literals, `c*`, `c+` or a single `c` for
    a character class `c`, matched greedily. `re.search` finds the leftmost start
    position and, there, the first match in backtracking order; for a pattern in which
    every greedy run is followed by a character outside its class (`Deterministic`), that
    match is the only one, and `Parse` finds it without backtracking. */
module Regex {
  import opened Text

  datatype Piece =
    | Lit(text: string)
    | Alt(options: seq<string>)
    | Star(chars: char -> bool)
    | Plus(chars: char -> bool)
    | One(chars: char -> bool)

  /** `part` is a text the piece matches on its own. */
  predicate Matches(piece: Piece, part: string) {
    match piece
    case Lit(s) => part == s
    case Alt(options) => part in options
    case Star(c) => All(part, c)
    case Plus(c) => part != [] && All(part, c)
    case One(c) => |part| == 1 && c(part[0])
  }

  /** Every piece matches its own part. */
  predicate MatchesAll(pattern: seq<Piece>, parts: seq<string>) {
    |parts| == |pattern| && forall i :: 0 <= i < |parts| ==> Matches(pattern[i], parts[i])
  }

  /** The text the parts spell, one after the other. */
  function Concat(parts: seq<string>): string {
    if parts == [] then [] else parts[0] + Concat(parts[1..])
  }

  /** The first option that `t` starts with (the alternatives are tried in order). */
  function FirstPrefix(options: seq<string>, t: string): (r: Option<string>)
    ensures r.Some? ==> r.value in options && StartsWith(t, r.value)
    ensures r.None? ==> forall o :: o in options ==> !StartsWith(t, o)
  {
    if options == [] then None
    else if StartsWith(t, options[0]) then Some(options[0])
    else FirstPrefix(options[1..], t)
  }

  /** Reads one piece at the start of `t`, greedily. */
  function ParsePiece(piece: Piece, t: string): (r: Option<string>)
    ensures r.Some? ==> Matches(piece, r.value) && StartsWith(t, r.value)
  {
    match piece
    case Lit(s) => if StartsWith(t, s) then Some(s) else None
    case Alt(options) => FirstPrefix(options, t)
    case Star(c) => Some(Run(t, c))
    case Plus(c) => var r := Run(t, c); if r != [] then Some(r) else None
    case One(c) => if t != [] && c(t[0]) then Some([t[0]]) else None
  }

  /** Reads the whole pattern at the start of `t`, returning the part each piece took. */
  function Parse(pattern: seq<Piece>, t: string): (r: Option<seq<string>>)
    ensures r.Some? ==> MatchesAll(pattern, r.value) && StartsWith(t, Concat(r.value))
    decreases |pattern|
  {
    if pattern == [] then Some([])
    else match ParsePiece(pattern[0], t)
      case None => None
      case Some(part) =>
        match Parse(pattern[1..], t[|part|..])
        case None => None
        case Some(parts) =>
          assert t == part + t[|part|..];
          assert Concat([part] + parts) == part + Concat(parts) by {
            assert ([part] + parts)[1..] == parts;
          }
          Some([part] + parts)
  }

  /** No text starting with `c`'s character can begin with a match of `next`. */
  predicate Stops(next: Piece, c: char -> bool) {
    match next
    case Lit(s) => s != [] && !c(s[0])
    case One(d) => forall x :: d(x) ==> !c(x)
    case _ => false
  }

  /** The alternatives start with pairwise different characters. */
  predicate DistinctHeads(options: seq<string>) {
    && (forall i :: 0 <= i < |options| ==> options[i] != [])
    && forall i, j :: 0 <= i < j < |options| ==> options[i][0] != options[j][0]
  }

  /** Greedy reading never has to give characters back: every run is followed by a piece
      that cannot start with a character of the run's class, and the alternatives of an
      alternation start differently. */
  predicate Deterministic(pattern: seq<Piece>) {
    forall i :: 0 <= i < |pattern| ==> DeterministicAt(pattern, i)
  }

  predicate DeterministicAt(pattern: seq<Piece>, i: nat)
    requires i < |pattern|
  {
    match pattern[i]
    case Star(c) => i + 1 < |pattern| && Stops(pattern[i + 1], c)
    case Plus(c) => i + 1 < |pattern| && Stops(pattern[i + 1], c)
    case Alt(options) => DistinctHeads(options)
    case _ => true
  }

  lemma {:induction false} FirstPrefixFinds(options: seq<string>, o: string, t: string)
    requires DistinctHeads(options) && o in options && StartsWith(t, o)
    ensures FirstPrefix(options, t) == Some(o)
    decreases |options|
  {
    if options[0] != o {
      assert !StartsWith(t, options[0]);
      assert DistinctHeads(options[1..]) by {
        forall i, j | 0 <= i < j < |options[1..]| ensures options[1..][i][0] != options[1..][j][0] {
          assert options[1..][i] == options[i + 1] && options[1..][j] == options[j + 1];
        }
      }
      FirstPrefixFinds(options[1..], o, t);
    }
  }

  /** The first character of a text that starts with a match of a `Stops` piece. */
  lemma StopsAtHead(next: Piece, c: char -> bool, part: string, t: string)
    requires Stops(next, c) && Matches(next, part) && StartsWith(t, part)
    ensures t != [] && !c(t[0])
  {
    assert t[0] == part[0];
  }

  lemma ConcatSplit(parts: seq<string>, rest: string)
    requires parts != []
    ensures Concat(parts) + rest == parts[0] + (Concat(parts[1..]) + rest)
  {
  }

  /** Completeness: a deterministic pattern reads back every match of itself, whatever
      follows it. */
  lemma {:induction false} ParseComplete(pattern: seq<Piece>, parts: seq<string>, rest: string)
    requires Deterministic(pattern) && MatchesAll(pattern, parts)
    ensures Parse(pattern, Concat(parts) + rest) == Some(parts)
    decreases |pattern|
  {
    if pattern != [] {
      var t := Concat(parts) + rest;
      var t1 := Concat(parts[1..]) + rest;
      ConcatSplit(parts, rest);
      assert t == parts[0] + t1;
      assert MatchesAll(pattern[1..], parts[1..]) by {
        forall i | 0 <= i < |parts[1..]| ensures Matches(pattern[1..][i], parts[1..][i]) {
          assert pattern[1..][i] == pattern[i + 1] && parts[1..][i] == parts[i + 1];
        }
      }
      assert Deterministic(pattern[1..]) by {
        forall i | 0 <= i < |pattern[1..]| ensures DeterministicAt(pattern[1..], i) {
          assert DeterministicAt(pattern, i + 1);
          assert pattern[1..][i] == pattern[i + 1];
          assert i + 1 < |pattern[1..]| ==> pattern[1..][i + 1] == pattern[i + 2];
        }
      }
      PieceComplete(pattern, parts, rest);
      assert t[|parts[0]|..] == t1;
      ParseComplete(pattern[1..], parts[1..], rest);
      assert [parts[0]] + parts[1..] == parts;
    }
  }

  /** The first piece of a deterministic pattern takes exactly its own part. */
  lemma PieceComplete(pattern: seq<Piece>, parts: seq<string>, rest: string)
    requires pattern != [] && Deterministic(pattern) && MatchesAll(pattern, parts)
    ensures ParsePiece(pattern[0], parts[0] + (Concat(parts[1..]) + rest)) == Some(parts[0])
  {
    var p := parts[0];
    var t := p + (Concat(parts[1..]) + rest);
    assert DeterministicAt(pattern, 0);
    assert Matches(pattern[0], p);
    match pattern[0]
    case Lit(s) => assert t[..|p|] == p;
    case Alt(options) => assert t[..|p|] == p; FirstPrefixFinds(options, p, t);
    case One(c) => assert t[..|p|] == p;
    case Star(c) => RunPieceComplete(pattern, parts, rest, c);
    case Plus(c) => RunPieceComplete(pattern, parts, rest, c);
  }

  /** A greedy run followed by a piece that `Stops` it takes exactly its own part. */
  lemma RunPieceComplete(pattern: seq<Piece>, parts: seq<string>, rest: string, c: char -> bool)
    requires 1 < |pattern| && MatchesAll(pattern, parts)
    requires All(parts[0], c) && Stops(pattern[1], c)
    ensures Run(parts[0] + (Concat(parts[1..]) + rest), c) == parts[0]
  {
    var p := parts[0];
    var t1 := Concat(parts[1..]) + rest;
    ConcatSplit(parts[1..], rest);
    assert Matches(pattern[1], parts[1]);
    assert StartsWith(t1, parts[1]) by { assert t1[..|parts[1]|] == parts[1]; }
    StopsAtHead(pattern[1], c, parts[1], t1);
    RunStopsAt(p, t1[0], t1[1..], c);
    assert p + [t1[0]] + t1[1..] == p + t1;
  }

  /** A pattern fails to read where its first piece fails. */
  lemma ParseNoneAt(pattern: seq<Piece>, t: string)
    requires pattern != [] && ParsePiece(pattern[0], t).None?
    ensures Parse(pattern, t).None?
  {
  }

  /** A pattern fails to read where its first piece reads `part` and the rest of the
      pattern fails on what follows. */
  lemma ParseNoneAfter(pattern: seq<Piece>, t: string, part: string)
    requires pattern != [] && ParsePiece(pattern[0], t) == Some(part)
    requires Parse(pattern[1..], t[|part|..]).None?
    ensures Parse(pattern, t).None?
  {
  }

  /** A greedy `c+` reads a whole run of `c` when the next character is not in `c`. */
  lemma PlusReads(c: char -> bool, run: string, rest: string)
    requires run != [] && All(run, c) && rest != [] && !c(rest[0])
    ensures ParsePiece(Plus(c), run + rest) == Some(run) && (run + rest)[|run|..] == rest
  {
    RunStopsAt(run, rest[0], rest[1..], c);
    assert run + rest == run + [rest[0]] + rest[1..];
  }

  lemma LitReads(s: string, rest: string)
    ensures ParsePiece(Lit(s), s + rest) == Some(s) && (s + rest)[|s|..] == rest
  {
    assert (s + rest)[..|s|] == s;
  }

  /** `re.search`: the leftmost start position at which the pattern reads, with the parts. */
  function Search(pattern: seq<Piece>, line: string): (r: Option<(nat, seq<string>)>)
    ensures r.Some? ==> r.value.0 <= |line| && Parse(pattern, line[r.value.0..]) == Some(r.value.1)
    ensures r.Some? ==> forall j: nat :: j < r.value.0 ==> Parse(pattern, line[j..]).None?
    ensures r.None? ==> forall j: nat :: j <= |line| ==> Parse(pattern, line[j..]).None?
  {
    var f := (j: nat) => if j <= |line| then Parse(pattern, line[j..]) else None;
    assert forall j: nat :: j <= |line| ==> f(j) == Parse(pattern, line[j..]);
    FindFirst(f, 0, |line|)
  }

  /** Whenever a match of a deterministic pattern starts at `j`, the search succeeds at
      `j` or further left, and a search that stops at `j` returns that match. */
  lemma SearchLeftmost(pattern: seq<Piece>, line: string, j: nat, parts: seq<string>)
    requires Deterministic(pattern) && MatchesAll(pattern, parts)
    requires j <= |line| && StartsWith(line[j..], Concat(parts))
    ensures Search(pattern, line).Some? && Search(pattern, line).value.0 <= j
    ensures Search(pattern, line).value.0 == j ==> Search(pattern, line).value.1 == parts
  {
    var t := line[j..];
    var n := |Concat(parts)|;
    assert t == Concat(parts) + t[n..];
    ParseComplete(pattern, parts, t[n..]);
  }
}
