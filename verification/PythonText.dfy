/** The few Python string and byte operations the decoder uses, on characters below 256. */
module PythonText {
  import opened Results

  type Byte = b: int | 0 <= b < 256

  /** Whitespace as `str.strip()` sees it. */
  predicate IsSpace(c: char) {
    '\t' <= c <= '\r' || '\U{1c}' <= c <= ' ' || c == '\U{85}' || c == '\U{a0}'
  }

  function LStrip(s: string): string {
    if s != [] && IsSpace(s[0]) then LStrip(s[1..]) else s
  }

  function RStrip(s: string): string {
    if s != [] && IsSpace(s[|s| - 1]) then RStrip(s[..|s| - 1]) else s
  }

  function Strip(s: string): string {
    RStrip(LStrip(s))
  }

  function LowerChar(c: char): char {
    if 'A' <= c <= 'Z' || ('\U{c0}' <= c <= '\U{de}' && c != '\U{d7}') then (c as int + 32) as char else c
  }

  function Lower(s: string): (r: string)
    ensures |r| == |s| && forall i :: 0 <= i < |s| ==> r[i] == LowerChar(s[i])
  {
    seq(|s|, i requires 0 <= i < |s| => LowerChar(s[i]))
  }

  /** `s.split(sep)` for a one-character separator. */
  function SplitOn(s: string, sep: char): (r: seq<string>)
    ensures r != []
  {
    if s == [] then [[]]
    else
      var rest := SplitOn(s[1..], sep);
      if s[0] == sep then [[]] + rest else [[s[0]] + rest[0]] + rest[1..]
  }

  lemma {:induction false} SplitPlain(s: string, sep: char)
    requires sep !in s
    ensures SplitOn(s, sep) == [s]
  {
    if s != [] {
      SplitPlain(s[1..], sep);
      assert [s[0]] + s[1..] == s;
    }
  }

  lemma {:induction false} SplitFirst(s: string, rest: string, sep: char)
    requires sep !in s
    ensures SplitOn(s + [sep] + rest, sep) == [s] + SplitOn(rest, sep)
  {
    var t := s + [sep] + rest;
    if s == [] {
      assert t == [sep] + rest;
      assert t[1..] == rest;
    } else {
      assert t[1..] == s[1..] + [sep] + rest;
      SplitFirst(s[1..], rest, sep);
      var tail := SplitOn(t[1..], sep);
      assert tail[1..] == SplitOn(rest, sep);
      assert [s[0]] + s[1..] == s;
    }
  }

  predicate StartsWith(s: string, prefix: string) {
    |prefix| <= |s| && s[..|prefix|] == prefix
  }

  predicate EndsWith(s: string, suffix: string) {
    |suffix| <= |s| && s[|s| - |suffix|..] == suffix
  }

  predicate Contains(s: string, part: string) {
    exists i :: 0 <= i <= |s| && StartsWith(s[i..], part)
  }

  /** `s.split(part, 1)[1]`: what follows the first occurrence. */
  function After(s: string, part: string): string
    requires Contains(s, part)
  {
    if StartsWith(s, part) then s[|part|..]
    else
      assert s[0..] == s && forall i :: 1 <= i <= |s| ==> s[i..] == s[1..][i - 1..];
      After(s[1..], part)
  }

  function JoinWith(parts: seq<string>, sep: string): string {
    if parts == [] then []
    else if |parts| == 1 then parts[0]
    else parts[0] + sep + JoinWith(parts[1..], sep)
  }

  /** `b.decode("ascii")`. */
  function Ascii(bs: seq<Byte>): Option<string> {
    if forall b <- bs :: b < 128
    then Some(seq(|bs|, i requires 0 <= i < |bs| => bs[i] as char))
    else None
  }

  function DigitValue(c: char): Option<nat> {
    if '0' <= c <= '9' then Some(c as int - '0' as int)
    else if 'a' <= c <= 'f' then Some(c as int - 'a' as int + 10)
    else if 'A' <= c <= 'F' then Some(c as int - 'A' as int + 10)
    else None
  }

  /** `int(s, base)` after a full match of one or more digits of that base. */
  function Number(s: string, base: nat): Option<nat> {
    if s == [] then None else Digits(s, base)
  }

  function Digits(s: string, base: nat): Option<nat> {
    if s == [] then Some(0)
    else
      match (Digits(s[..|s| - 1], base), DigitValue(s[|s| - 1]))
      case (Some(n), Some(d)) => if d < base then Some(base * n + d) else None
      case _ => None
  }
}
