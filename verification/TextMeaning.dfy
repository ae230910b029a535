/**
  What the text operations of `PythonText` amount to, said without them: white space around a text,
  the pieces between separators, the number a text spells, and letters that differ in case only.
 */
module TextMeaning {
  import opened Arithmetic
  import opened PythonText
  import opened Results

  // ---------------------------------------------------------------- white space

  const WHITE := {
    '\t', '\n', '\U{0b}', '\U{0c}', '\r', '\U{1c}', '\U{1d}', '\U{1e}', '\U{1f}', ' ', '\U{85}', '\U{a0}'}

  lemma WhiteIs(c: char)
    ensures IsSpace(c) <==> c in WHITE
  {
    assert c == c as int as char;
  }

  predicate AllWhite(s: string) {
    forall i :: 0 <= i < |s| ==> s[i] in WHITE
  }

  /** `core` is what is left of `s` without the white space around it. */
  ghost predicate Trimmed(s: string, core: string) {
    exists before, after :: TrimmedOf(s, before, core, after)
  }

  ghost predicate TrimmedOf(s: string, before: string, core: string, after: string) {
    && s == before + core + after && AllWhite(before) && AllWhite(after)
    && (core != "" ==> core[0] !in WHITE && core[|core| - 1] !in WHITE)
  }

  lemma {:induction false} LStripCuts(s: string) returns (before: string)
    ensures s == before + LStrip(s) && AllWhite(before)
    ensures LStrip(s) != "" ==> LStrip(s)[0] !in WHITE
  {
    hide WHITE;
    if s != "" {
      WhiteIs(s[0]);
      if IsSpace(s[0]) {
        var rest := LStripCuts(s[1..]);
        before := [s[0]] + rest;
      } else {
        before := "";
      }
    } else {
      before := "";
    }
  }

  lemma {:induction false} RStripCuts(s: string) returns (after: string)
    ensures s == RStrip(s) + after && AllWhite(after)
    ensures RStrip(s) != "" ==> RStrip(s)[|RStrip(s)| - 1] !in WHITE && RStrip(s)[0] == s[0]
  {
    hide WHITE;
    if s != "" {
      WhiteIs(s[|s| - 1]);
      if IsSpace(s[|s| - 1]) {
        var rest := RStripCuts(s[..|s| - 1]);
        after := rest + [s[|s| - 1]];
      } else {
        after := "";
      }
    } else {
      after := "";
    }
  }

  lemma StripTrims(s: string)
    ensures Trimmed(s, Strip(s))
  {
    hide WHITE;
    var before := LStripCuts(s);
    var after := RStripCuts(LStrip(s));
    assert s == before + Strip(s) + after;
    assert TrimmedOf(s, before, Strip(s), after);
  }

  lemma TrimmedUnique(s: string, t: string, u: string)
    requires Trimmed(s, t) && Trimmed(s, u)
    ensures t == u
  {
    hide WHITE;
    var a, b :| TrimmedOf(s, a, t, b);
    var c, d :| TrimmedOf(s, c, u, d);
    if |a| < |c| {
      TrimmedFurther(s, a, t, b, c, u, d);
    } else if |c| < |a| {
      TrimmedFurther(s, c, u, d, a, t, b);
    } else {
      SameFront(s, a, t, b, c, u, d);
    }
    hide TrimmedOf;
  }

  lemma SameFront(s: string, a: string, t: string, b: string, c: string, u: string, d: string)
    requires TrimmedOf(s, a, t, b) && TrimmedOf(s, c, u, d) && |a| == |c|
    ensures t == u
  {
    hide WHITE, AllWhite;
    DropFront(a, t, b);
    DropFront(c, u, d);
    SameStart(t, b, u, d);
  }

  lemma DropFront(a: string, t: string, b: string)
    ensures (a + t + b)[|a|..] == t + b
  {
  }

  /** A longer white front leaves nothing but white space. */
  lemma TrimmedFurther(s: string, a: string, t: string, b: string, c: string, u: string, d: string)
    requires TrimmedOf(s, a, t, b) && TrimmedOf(s, c, u, d) && |a| < |c|
    ensures t == u == ""
  {
    hide WHITE;
    assert s[|a|] == c[|a|];
    assert t == "";
    assert s == a + b;
    assert forall i :: |a| <= i < |s| ==> s[i] == b[i - |a|];
    assert s[|c|..] == u + d && (u + d)[..|u|] == u;
  }

  lemma SameStart(t: string, b: string, u: string, d: string)
    requires t + b == u + d && AllWhite(b) && AllWhite(d)
    requires (t != "" ==> t[|t| - 1] !in WHITE) && (u != "" ==> u[|u| - 1] !in WHITE)
    ensures t == u
  {
    hide WHITE, AllWhite;
    SameTrim(t, b, u, d);
    SameTrim(u, d, t, b);
    assert (t + b)[..|t|] == t && (u + d)[..|u|] == u;
  }

  lemma SameTrim(t: string, b: string, u: string, d: string)
    requires t + b == u + d && AllWhite(b) && (u != "" ==> u[|u| - 1] !in WHITE)
    ensures |u| <= |t|
  {
    hide WHITE;
    var all := u + d;
    assert forall i :: |t| <= i < |all| ==> all[i] == b[i - |t|];
    assert all[..|u|] == u;
  }

  /** Stripping a text leaves exactly what stands between its outer white space. */
  lemma StripIff(s: string, core: string)
    ensures Strip(s) == core <==> Trimmed(s, core)
  {
    StripTrims(s);
    if Trimmed(s, core) {
      TrimmedUnique(s, Strip(s), core);
    }
  }

  // ---------------------------------------------------------------- pieces

  /** `part` stands between two neighbouring separators, or an end of the text. */
  ghost predicate Piece(s: string, sep: char, part: string) {
    exists before, after :: PieceOf(s, sep, before, part, after)
  }

  ghost predicate PieceOf(s: string, sep: char, before: string, part: string, after: string) {
    && s == before + part + after && sep !in part
    && (before != "" ==> before[|before| - 1] == sep)
    && (after != "" ==> after[0] == sep)
  }

  /** The text up to the first separator, and what follows it. */
  lemma {:induction false} FirstSplit(s: string, sep: char) returns (head: string, tail: string)
    ensures sep !in head
    ensures sep in s ==> s == head + [sep] + tail && SplitOn(s, sep) == [head] + SplitOn(tail, sep)
    ensures sep !in s ==> s == head && SplitOn(s, sep) == [head]
  {
    if sep !in s {
      head, tail := s, "";
      SplitPlain(s, sep);
    } else {
      var k := FirstAt(s, sep);
      head, tail := s[..k], s[k + 1..];
      assert s == head + [sep] + tail;
      SplitFirst(head, tail, sep);
    }
  }

  lemma {:induction false} FirstAt(s: string, sep: char) returns (k: nat)
    requires sep in s
    ensures k < |s| && s[k] == sep && sep !in s[..k]
  {
    if s[0] == sep {
      k := 0;
    } else {
      var r := FirstAt(s[1..], sep);
      k := r + 1;
      assert s[..k] == [s[0]] + s[1..][..r];
    }
  }

  /** Splitting gives exactly the pieces. */
  lemma {:induction false} SplitIff(s: string, sep: char, part: string)
    ensures part in SplitOn(s, sep) <==> Piece(s, sep, part)
    decreases |s|
  {
    var head, tail := FirstSplit(s, sep);
    if sep !in s {
      OnlyPiece(s, sep, part);
    } else {
      SplitIff(tail, sep, part);
      FirstOrLater(s, sep, head, tail, part);
    }
  }

  lemma OnlyPiece(s: string, sep: char, part: string)
    requires sep !in s
    ensures Piece(s, sep, part) <==> part == s
  {
    if Piece(s, sep, part) {
      var before, after :| PieceOf(s, sep, before, part, after);
      assert forall i :: 0 <= i < |s| ==> s[i] != sep;
    }
    if part == s {
      assert PieceOf(s, sep, "", part, "");
    }
  }

  lemma FirstOrLater(s: string, sep: char, head: string, tail: string, part: string)
    requires s == head + [sep] + tail && sep !in head
    ensures Piece(s, sep, part) <==> part == head || Piece(tail, sep, part)
  {
    if part == head {
      assert PieceOf(s, sep, "", part, [sep] + tail);
    }
    if Piece(tail, sep, part) {
      var before, after :| PieceOf(tail, sep, before, part, after);
      assert PieceOf(s, sep, head + [sep] + before, part, after);
    }
    if Piece(s, sep, part) && part != head {
      var before, after :| PieceOf(s, sep, before, part, after);
      LaterPiece(s, sep, head, tail, before, part, after);
    }
  }

  lemma BeyondFirst(s: string, sep: char, head: string, before: string, part: string, after: string)
    requires |head| < |s| && s[|head|] == sep && s[..|head|] == head && sep !in head
    requires PieceOf(s, sep, before, part, after) && part != head
    ensures |before| > |head|
  {
    var end := |before| + |part|;
    assert s[|before|..end] == part;
    assert after != "" ==> s[end] == sep;
    if before != "" {
      assert s[|before| - 1] == before[|before| - 1];
    }
  }

  lemma LaterPiece(s: string, sep: char, head: string, tail: string, before: string, part: string, after: string)
    requires s == head + [sep] + tail && sep !in head && PieceOf(s, sep, before, part, after) && part != head
    ensures Piece(tail, sep, part)
  {
    assert s[|head|] == sep && s[..|head|] == head;
    BeyondFirst(s, sep, head, before, part, after);
    var rest := before[|head| + 1..];
    assert tail == s[|head| + 1..] == rest + part + after;
    assert rest != "" ==> rest[|rest| - 1] == before[|before| - 1];
    assert PieceOf(tail, sep, rest, part, after);
  }

  // ---------------------------------------------------------------- bytes and numbers

  /** The bytes are the text's ASCII codes. */
  predicate Spelled(bs: seq<Byte>, text: string) {
    |bs| == |text| && forall i :: 0 <= i < |bs| ==> bs[i] < 128 && text[i] as int == bs[i]
  }

  lemma AsciiIff(bs: seq<Byte>, text: string)
    ensures Ascii(bs) == Some(text) <==> Spelled(bs, text)
  {
    if Ascii(bs).Some? {
      var t := Ascii(bs).value;
      forall i | 0 <= i < |bs| ensures bs[i] < 128 && t[i] as int == bs[i] {
        assert bs[i] in bs;
      }
      if Spelled(bs, text) {
        assert t == text;
      }
    }
    if Spelled(bs, text) {
      forall b | b in bs ensures b < 128 {
      }
    }
  }

  /** One digit of a number, in either case. */
  predicate DigitOf(c: char, base: nat, d: nat) {
    d < base && d < 16 && (c == "0123456789abcdef"[d] || c == "0123456789ABCDEF"[d])
  }

  /** The digits of `n`, leading zeros allowed: the last is the remainder, those before it the quotient. */
  predicate Spells(s: string, base: nat, n: nat)
    requires base > 0
  {
    && s != ""
    && DigitOf(s[|s| - 1], base, n % base)
    && (if |s| == 1 then n < base else Spells(s[..|s| - 1], base, n / base))
  }

  lemma DigitIff(c: char, base: nat, d: nat)
    requires 0 < base <= 16
    ensures DigitOf(c, base, d) <==> DigitValue(c) == Some(d) && d < base
  {
  }

  lemma Horner(base: nat, k: nat, d: nat, n: nat)
    requires d < base
    ensures n == base * k + d <==> n / base == k && n % base == d
  {
    var q, r := n / base, n % base;
    assert n == base * q + r;
    if n == base * k + d {
      if q > k {
        MulMonotone(base, k + 1, q);
      } else if q < k {
        MulMonotone(base, q + 1, k);
      }
    }
  }

  lemma DigitsStep(front: string, c: char, base: nat, n: nat)
    requires 0 < base <= 16
    ensures Digits(front + [c], base) == Some(n) <==> Digits(front, base) == Some(n / base) && DigitOf(c, base, n % base)
  {
    var s := front + [c];
    assert s[..|s| - 1] == front && s[|s| - 1] == c;
    DigitIff(c, base, n % base);
    Horner(base, n / base, n % base, n);
    if Digits(front, base).Some? && DigitValue(c).Some? && DigitValue(c).value < base {
      Horner(base, Digits(front, base).value, DigitValue(c).value, n);
    }
    hide DigitOf, DigitValue;
  }

  lemma SpellsStep(front: string, c: char, base: nat, n: nat)
    requires 0 < base <= 16
    ensures Spells(front + [c], base, n)
       <==> DigitOf(c, base, n % base) && if front == "" then n / base == 0 else Spells(front, base, n / base)
  {
    var s := front + [c];
    assert s[..|s| - 1] == front && s[|s| - 1] == c;
    QuotientZero(n, base);
    hide DigitOf;
  }

  lemma {:induction false} DigitsIff(s: string, base: nat, n: nat)
    requires 0 < base <= 16 && s != ""
    ensures Digits(s, base) == Some(n) <==> Spells(s, base, n)
  {
    var front, c := s[..|s| - 1], s[|s| - 1];
    assert s == front + [c];
    DigitsStep(front, c, base, n);
    SpellsStep(front, c, base, n);
    if front == "" {
      assert Digits(front, base) == Some(0);
    } else {
      DigitsIff(front, base, n / base);
    }
    hide Digits, Spells, DigitOf;
  }

  /** A text reads as a number exactly when it spells it. */
  lemma NumberIff(s: string, base: nat, n: nat)
    requires 0 < base <= 16
    ensures Number(s, base) == Some(n) <==> Spells(s, base, n)
  {
    if s != "" {
      DigitsIff(s, base, n);
    }
  }

  // ---------------------------------------------------------------- case

  /** The same letter, up to case: A to Z, and the Latin letters of the upper half except the multiplication sign. */
  predicate CaseVariants(c: char, d: char) {
    c == d || Uppercase(c, d) || Uppercase(d, c)
  }

  predicate Uppercase(upper: char, lower: char) {
    && ('A' <= upper <= 'Z' || '\U{c0}' <= upper <= '\U{d6}' || '\U{d8}' <= upper <= '\U{de}')
    && lower as int == upper as int + 32
  }

  lemma SameLowerIff(c: char, d: char)
    ensures LowerChar(c) == LowerChar(d) <==> CaseVariants(c, d)
  {
    assert c == c as int as char && d == d as int as char;
  }

  /** `t` is `s` in lower case. */
  predicate InLower(s: string, t: string) {
    |s| == |t| && forall i :: 0 <= i < |s| ==>
      t[i] == s[i] || Uppercase(s[i], t[i])
  }

  predicate HasUpper(c: char) {
    'A' <= c <= 'Z' || '\U{c0}' <= c <= '\U{d6}' || '\U{d8}' <= c <= '\U{de}'
  }

  lemma LowerIff(s: string, t: string)
    ensures Lower(s) == t <==> InLower(s, t) && forall i :: 0 <= i < |t| ==> !HasUpper(t[i])
  {
    var r := Lower(s);
    forall i | 0 <= i < |s| ensures (r[i] == s[i] || Uppercase(s[i], r[i])) && !HasUpper(r[i]) {
      assert r[i] == LowerChar(s[i]);
    }
    if InLower(s, t) && forall i :: 0 <= i < |t| ==> !HasUpper(t[i]) {
      forall i | 0 <= i < |s| ensures r[i] == t[i] {
        assert r[i] == LowerChar(s[i]);
        assert t[i] == t[i] as int as char;
      }
      assert r == t;
    }
  }
}
