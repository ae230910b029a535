/**
  IAM wildcards (`ministack/core/iam_evaluator.py`): a pattern becomes a regular expression one
  character at a time, and the compiled expression is kept in a bounded cache.
 */
module IamGlob {
  import opened PythonText

  /** One piece of the generated expression: `.*`, `.` or an escaped character. */
  datatype Piece = AnyRun | AnyOne | Literal(c: char)

  type Regex = seq<Piece>

  function PieceOf(c: char): Piece {
    if c == '*' then AnyRun else if c == '?' then AnyOne else Literal(c)
  }

  /** The pieces between `^` and `$`. */
  function Compile(pattern: string): (r: Regex)
    ensures |r| == |pattern| && forall i :: 0 <= i < |r| ==> r[i] == PieceOf(pattern[i])
  {
    seq(|pattern|, i requires 0 <= i < |pattern| => PieceOf(pattern[i]))
  }

  predicate SameChar(c: char, d: char, ignoreCase: bool) {
    if ignoreCase then LowerChar(c) == LowerChar(d) else c == d
  }

  /**
    `re.match` against `^...$` without DOTALL or MULTILINE: a dot matches no newline, and `$`
    also matches just before a final newline.
   */
  predicate Matches(re: Regex, v: string, ignoreCase: bool)
    decreases |v|, |re|
  {
    if re == [] then v == "" || v == "\n"
    else
      match re[0]
      case AnyRun =>
        Matches(re[1..], v, ignoreCase) || (v != "" && v[0] != '\n' && Matches(re, v[1..], ignoreCase))
      case AnyOne => v != "" && v[0] != '\n' && Matches(re[1..], v[1..], ignoreCase)
      case Literal(c) => v != "" && SameChar(c, v[0], ignoreCase) && Matches(re[1..], v[1..], ignoreCase)
  }

  function KeyText(pattern: string, ignoreCase: bool): string {
    if ignoreCase then Lower(pattern) else pattern
  }

  /** `fnmatch_iam` (ignoring case) and `fnmatch_iam_cs`. */
  predicate Fnmatch(value: string, pattern: string, ignoreCase: bool) {
    pattern == "*" || Matches(Compile(KeyText(pattern, ignoreCase)), value, ignoreCase)
  }

  // ---------------------------------------------------------------- the declarative relation

  predicate NoNewline(s: string) {
    forall i :: 0 <= i < |s| ==> s[i] != '\n'
  }

  /** What one pattern character may stand for. */
  predicate Fits(p: char, part: string, ignoreCase: bool) {
    if p == '*' then true
    else if p == '?' then |part| == 1
    else |part| == 1 && SameChar(p, part[0], ignoreCase)
  }

  function Concat(parts: seq<string>): string {
    if parts == [] then "" else parts[0] + Concat(parts[1..])
  }

  ghost predicate Splits(pattern: string, parts: seq<string>, value: string, ignoreCase: bool) {
    && |parts| == |pattern|
    && Concat(parts) == value
    && forall i :: 0 <= i < |parts| ==> Fits(pattern[i], parts[i], ignoreCase)
  }

  /** A value matches when it can be cut into parts, one for each pattern character. */
  ghost predicate Glob(pattern: string, value: string, ignoreCase: bool) {
    exists parts :: Splits(pattern, parts, value, ignoreCase)
  }

  // ---------------------------------------------------------------- what the expression accepts

  /** No wildcard stands for a newline. */
  ghost predicate WithinLines(pattern: string, parts: seq<string>) {
    |parts| == |pattern| && forall i :: 0 <= i < |parts| && (pattern[i] == '*' || pattern[i] == '?') ==> NoNewline(parts[i])
  }

  ghost predicate Cuts(pattern: string, parts: seq<string>, value: string, ignoreCase: bool) {
    Splits(pattern, parts, value, ignoreCase) && WithinLines(pattern, parts)
  }

  /** A match whose wildcards stay within a line. */
  ghost predicate LineGlob(pattern: string, value: string, ignoreCase: bool) {
    exists parts :: Cuts(pattern, parts, value, ignoreCase)
  }

  predicate UpToNewline(v: string, w: string) {
    v == w || v == w + "\n"
  }

  /** A match cuts the value, or the value without its final newline, into parts. */
  lemma {:induction false} MatchCuts(pattern: string, v: string, ignoreCase: bool) returns (parts: seq<string>, w: string)
    requires Matches(Compile(pattern), v, ignoreCase)
    ensures Cuts(pattern, parts, w, ignoreCase) && UpToNewline(v, w)
    decreases |v|, |pattern|
  {
    if pattern == "" {
      parts, w := [], "";
    } else {
      assert Compile(pattern)[1..] == Compile(pattern[1..]);
      var p := pattern[0];
      if p == '*' && Matches(Compile(pattern[1..]), v, ignoreCase) {
        var rest;
        rest, w := MatchCuts(pattern[1..], v, ignoreCase);
        parts := [""] + rest;
        CutFront(pattern, "", rest, w, ignoreCase);
      } else if p == '*' {
        var rest, w' := MatchCuts(pattern, v[1..], ignoreCase);
        assert [rest[0]] + rest[1..] == rest;
        w := [v[0]] + w';
        parts := [[v[0]] + rest[0]] + rest[1..];
        assert Concat(parts) == [v[0]] + Concat(rest);
        assert forall k :: 0 <= k < |rest[0]| ==> rest[0][k] != '\n';
      } else {
        var rest, w' := MatchCuts(pattern[1..], v[1..], ignoreCase);
        w := [v[0]] + w';
        parts := [[v[0]]] + rest;
        CutFront(pattern, [v[0]], rest, w', ignoreCase);
      }
    }
  }

  lemma CutFront(pattern: string, first: string, rest: seq<string>, w: string, ignoreCase: bool)
    requires pattern != "" && Cuts(pattern[1..], rest, w, ignoreCase) && Fits(pattern[0], first, ignoreCase)
    requires pattern[0] == '*' || pattern[0] == '?' ==> NoNewline(first)
    ensures Cuts(pattern, [first] + rest, first + w, ignoreCase)
  {
    var parts := [first] + rest;
    assert parts[1..] == rest;
    forall i | 0 < i < |parts| ensures parts[i] == rest[i - 1] && pattern[i] == pattern[1..][i - 1] {
    }
  }

  /** Any such cut is found by the matcher. */
  lemma {:induction false} CutMatches(pattern: string, parts: seq<string>, v: string, w: string, ignoreCase: bool)
    requires Cuts(pattern, parts, w, ignoreCase) && UpToNewline(v, w)
    ensures Matches(Compile(pattern), v, ignoreCase)
    decreases |v|, |pattern|
  {
    if pattern != "" {
      assert Compile(pattern)[1..] == Compile(pattern[1..]);
      var first, rest := parts[0], parts[1..];
      assert w == first + Concat(rest);
      if pattern[0] == '*' && first != "" {
        var parts' := [first[1..]] + rest;
        assert parts'[1..] == rest;
        assert w[1..] == first[1..] + Concat(rest) && UpToNewline(v[1..], w[1..]);
        assert v[0] == first[0] != '\n';
        CutMatches(pattern, parts', v[1..], w[1..], ignoreCase);
      } else {
        assert w[|first|..] == Concat(rest) && UpToNewline(v[|first|..], w[|first|..]);
        assert forall i :: 0 <= i < |rest| ==> rest[i] == parts[i + 1] && pattern[1..][i] == pattern[i + 1];
        CutMatches(pattern[1..], rest, v[|first|..], w[|first|..], ignoreCase);
        assert pattern[0] == '*' ==> v[|first|..] == v;
        assert pattern[0] != '*' ==> v[0] == first[0];
      }
    }
  }

  /** Folding a pattern first changes nothing when case is ignored anyway. */
  lemma LoweredCuts(pattern: string, parts: seq<string>, v: string)
    ensures Cuts(Lower(pattern), parts, v, true) <==> Cuts(pattern, parts, v, true)
  {
    assert forall c :: LowerChar(LowerChar(c)) == LowerChar(c) && (LowerChar(c) == '*' <==> c == '*') && (LowerChar(c) == '?' <==> c == '?');
    if |parts| == |pattern| {
      forall i | 0 <= i < |parts| ensures Fits(Lower(pattern)[i], parts[i], true) <==> Fits(pattern[i], parts[i], true) {
        assert Lower(pattern)[i] == LowerChar(pattern[i]);
      }
    }
  }

  lemma KeyCuts(pattern: string, parts: seq<string>, v: string, ignoreCase: bool)
    ensures Cuts(KeyText(pattern, ignoreCase), parts, v, ignoreCase) <==> Cuts(pattern, parts, v, ignoreCase)
  {
    if ignoreCase {
      LoweredCuts(pattern, parts, v);
    }
  }

  /** On every value: wildcards stay within a line, and one final newline may be left over. */
  lemma FnmatchExactly(value: string, pattern: string, ignoreCase: bool)
    ensures Fnmatch(value, pattern, ignoreCase) <==>
      || pattern == "*"
      || LineGlob(pattern, value, ignoreCase)
      || (value != "" && value[|value| - 1] == '\n' && LineGlob(pattern, value[..|value| - 1], ignoreCase))
  {
    var key := KeyText(pattern, ignoreCase);
    if Matches(Compile(key), value, ignoreCase) {
      var parts, w := MatchCuts(key, value, ignoreCase);
      KeyCuts(pattern, parts, w, ignoreCase);
      assert value == w || value[..|value| - 1] == w;
    }
    if parts :| Cuts(pattern, parts, value, ignoreCase) {
      KeyCuts(pattern, parts, value, ignoreCase);
      CutMatches(key, parts, value, value, ignoreCase);
    }
    if value != "" && value[|value| - 1] == '\n' && LineGlob(pattern, value[..|value| - 1], ignoreCase) {
      var w := value[..|value| - 1];
      var parts :| Cuts(pattern, parts, w, ignoreCase);
      KeyCuts(pattern, parts, w, ignoreCase);
      assert value == w + "\n";
      CutMatches(key, parts, value, w, ignoreCase);
    }
  }

  // ---------------------------------------------------------------- when that is the glob relation

  lemma {:induction false} ConcatLines(parts: seq<string>)
    ensures NoNewline(Concat(parts)) <==> forall i :: 0 <= i < |parts| ==> NoNewline(parts[i])
  {
    if parts != [] {
      var first, rest := parts[0], parts[1..];
      ConcatLines(rest);
      assert Concat(parts) == first + Concat(rest);
      NoNewlineJoin(first, Concat(rest));
      assert forall i :: 0 <= i < |rest| ==> rest[i] == parts[i + 1];
      assert forall i :: 0 < i < |parts| ==> parts[i] == rest[i - 1];
    }
  }

  lemma NoNewlineJoin(a: string, b: string)
    ensures NoNewline(a + b) <==> NoNewline(a) && NoNewline(b)
  {
    forall i | 0 <= i < |a| ensures (a + b)[i] == a[i] {
    }
    forall i | 0 <= i < |b| ensures (a + b)[|a| + i] == b[i] {
    }
  }

  lemma StarMatchesAll(v: string, ignoreCase: bool)
    ensures Glob("*", v, ignoreCase)
  {
    assert Concat([v]) == v + Concat([]);
    assert Splits("*", [v], v, ignoreCase);
  }

  /** For values without a newline the generated expression accepts exactly the values the glob relation does. */
  lemma FnmatchIsGlob(value: string, pattern: string, ignoreCase: bool)
    requires NoNewline(value)
    ensures Fnmatch(value, pattern, ignoreCase) <==> Glob(pattern, value, ignoreCase)
  {
    FnmatchExactly(value, pattern, ignoreCase);
    if pattern == "*" {
      StarMatchesAll(value, ignoreCase);
    }
    if parts :| Splits(pattern, parts, value, ignoreCase) {
      ConcatLines(parts);
      assert Cuts(pattern, parts, value, ignoreCase);
    }
  }

  /** The two agree on a value, for every pattern, exactly when it holds no newline. */
  lemma GlobIffNoNewline(value: string, ignoreCase: bool)
    ensures (forall pattern :: Fnmatch(value, pattern, ignoreCase) <==> Glob(pattern, value, ignoreCase)) <==> NoNewline(value)
  {
    if NoNewline(value) {
      forall pattern ensures Fnmatch(value, pattern, ignoreCase) <==> Glob(pattern, value, ignoreCase) {
        FnmatchIsGlob(value, pattern, ignoreCase);
      }
    } else {
      var pattern := NewlineWitness(value, ignoreCase);
    }
  }

  /** With a newline: `**` when one is not last, as many `?` as characters before it otherwise. */
  lemma NewlineWitness(value: string, ignoreCase: bool) returns (pattern: string)
    requires !NoNewline(value)
    ensures Fnmatch(value, pattern, ignoreCase) != Glob(pattern, value, ignoreCase)
  {
    var front := value[..|value| - 1];
    if NoNewline(front) {
      pattern := seq(|front|, _ => '?');
      OnesMatch(front, pattern, ignoreCase);
      FnmatchExactly(value, pattern, ignoreCase);
      forall parts | Splits(pattern, parts, value, ignoreCase) ensures false {
        OnesLength(parts);
      }
    } else {
      pattern := "**";
      assert Concat([value]) == value + Concat([]);
      assert ["", value][1..] == [value] && Concat(["", value]) == "" + Concat([value]);
      assert Splits(pattern, ["", value], value, ignoreCase);
      FnmatchExactly(value, pattern, ignoreCase);
      forall parts | Cuts(pattern, parts, front, ignoreCase) ensures false {
        ConcatLines(parts);
      }
      forall parts | Cuts(pattern, parts, value, ignoreCase) ensures false {
        ConcatLines(parts);
      }
    }
  }

  lemma OnesMatch(v: string, pattern: string, ignoreCase: bool)
    requires NoNewline(v) && |pattern| == |v| && forall i :: 0 <= i < |pattern| ==> pattern[i] == '?'
    ensures LineGlob(pattern, v, ignoreCase)
  {
    var parts := Singles(v);
    SinglesConcat(v);
    assert Cuts(pattern, parts, v, ignoreCase);
  }

  lemma {:induction false} OnesLength(parts: seq<string>)
    requires forall i :: 0 <= i < |parts| ==> |parts[i]| == 1
    ensures |Concat(parts)| == |parts|
  {
    if parts != [] {
      assert forall i :: 0 <= i < |parts| - 1 ==> parts[1..][i] == parts[i + 1];
      OnesLength(parts[1..]);
    }
  }

  /** A one-character pattern other than `*` only takes one-character values. */
  lemma LiteralLength(pattern: string, parts: seq<string>, value: string)
    requires |pattern| == 1 && pattern[0] != '*'
    requires Splits(pattern, parts, value, false)
    ensures |value| == 1
  {
    assert parts[1..] == [];
    assert Concat(parts) == parts[0] + Concat(parts[1..]);
  }

  /** The shortest examples: a final newline slips past `$`, and no dot crosses an inner one. */
  lemma NewlinesDiffer()
    ensures Fnmatch("a\n", "a", false) && !Glob("a", "a\n", false)
    ensures !Fnmatch("a\nb", "a*", false) && Glob("a*", "a\nb", false)
  {
    var re := Compile("a");
    assert re[1..] == [] && "a\n"[1..] == "\n";
    forall parts | Splits("a", parts, "a\n", false) ensures false {
      LiteralLength("a", parts, "a\n");
    }
    var re2 := Compile("a*");
    assert re2[1..] == [AnyRun] && [AnyRun][1..] == [] && "a\nb"[1..] == "\nb";
    assert !Matches([], "\nb", false);
    assert !Matches([AnyRun], "\nb", false);
    var parts := ["a", "\nb"];
    assert parts[1..] == ["\nb"] && ["\nb"][1..] == [];
    assert Concat(["\nb"]) == "\nb" + Concat([]);
    assert Concat(parts) == "a" + "\nb";
    assert "a" + "\nb" == "a\nb";
    assert Splits("a*", parts, "a\nb", false);
  }

  /** Every value without a newline matches itself taken as a pattern. */
  lemma MatchesItself(v: string, ignoreCase: bool)
    requires NoNewline(v)
    ensures Fnmatch(v, v, ignoreCase)
  {
    var parts := Singles(v);
    SinglesConcat(v);
    assert Splits(v, parts, v, ignoreCase);
    FnmatchIsGlob(v, v, ignoreCase);
  }

  function Singles(v: string): (r: seq<string>)
    ensures |r| == |v| && forall i :: 0 <= i < |v| ==> r[i] == [v[i]]
  {
    seq(|v|, i requires 0 <= i < |v| => [v[i]])
  }

  lemma {:induction false} SinglesConcat(v: string)
    ensures Concat(Singles(v)) == v
  {
    if v != "" {
      SinglesConcat(v[1..]);
      assert Singles(v)[1..] == Singles(v[1..]);
    }
  }

  // ---------------------------------------------------------------- the cache

  const CAPACITY := 4096

  /** `_FNMATCH_CACHE` and the functions that go through it. */
  class GlobCache {
    var compiled: map<(string, bool), Regex>

    /** Every entry is what compiling its key would give, and the cache never outgrows its bound. */
    ghost predicate Valid()
      reads this
    {
      |compiled| <= CAPACITY && forall k <- compiled :: compiled[k] == Compile(k.0)
    }

    constructor ()
      ensures Valid() && compiled == map[]
    {
      compiled := map[];
    }

    method FnmatchCompile(pattern: string, ignoreCase: bool) returns (re: Regex)
      requires Valid()
      modifies this
      ensures Valid()
      ensures re == Compile(KeyText(pattern, ignoreCase)) && |compiled| <= 4096
      ensures forall k <- old(compiled) :: k in compiled
      ensures forall k <- compiled :: k in old(compiled) || k == (KeyText(pattern, ignoreCase), ignoreCase)
    {
      var key := (KeyText(pattern, ignoreCase), ignoreCase);
      if key in compiled {
        return compiled[key];
      }
      re := BuildRegex(key.0);
      if |compiled| < CAPACITY {
        compiled := compiled[key := re];
      }
    }

    /** A cached answer is the answer without a cache. */
    method Match(value: string, pattern: string, ignoreCase: bool) returns (r: bool)
      requires Valid()
      modifies this
      ensures Valid()
      ensures r == Fnmatch(value, pattern, ignoreCase)
    {
      if pattern == "*" {
        return true;
      }
      var re := FnmatchCompile(pattern, ignoreCase);
      return Matches(re, value, ignoreCase);
    }
  }

  method BuildRegex(text: string) returns (re: Regex)
    ensures re == Compile(text)
  {
    re := [];
    var i := 0;
    while i < |text|
      invariant 0 <= i <= |text|
      invariant re == Compile(text[..i])
    {
      if text[i] == '*' {
        re := re + [AnyRun];
      } else if text[i] == '?' {
        re := re + [AnyOne];
      } else {
        re := re + [Literal(text[i])];
      }
      i := i + 1;
    }
    assert text[..i] == text;
  }
}
