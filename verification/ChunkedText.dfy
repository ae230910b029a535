/**
  What the text inside an aws-chunked request amounts to: sizes, trailer lines and the headers the
  decoder reads and rewrites, each said without the code that reads it.
 */
module ChunkedText {
  import opened AwsChunked
  import opened PythonText
  import opened Results
  import opened TextMeaning

  // ---------------------------------------------------------------- size lines

  /** ASCII text, a hexadecimal size with white space around it and then, after a semicolon, anything. */
  ghost predicate Declares(text: string, n: nat) {
    exists head, digits :: DeclaresBy(text, head, digits, n)
  }

  ghost predicate DeclaresBy(text: string, head: string, digits: string, n: nat) {
    && ';' !in head && (text == head || head + ";" <= text)
    && Trimmed(head, digits) && Spells(digits, 16, n)
  }

  lemma {:induction false} HeadIs(text: string, head: string)
    ensures SplitOn(text, ';')[0] == head <==> ';' !in head && (text == head || head + ";" <= text)
  {
    var first, tail := FirstSplit(text, ';');
    if ';' !in head && (text == head || head + ";" <= text) {
      if text == head {
        SplitPlain(text, ';');
      } else {
        assert text == head + [';'] + text[|head| + 1..];
        SplitFirst(head, text[|head| + 1..], ';');
      }
    }
  }

  /** A size line is read as `n` exactly when it declares `n`. */
  lemma SizeIff(line: Bytes, n: nat)
    ensures SizeOf(line) == Success(n) <==> exists text :: Spelled(line, text) && Declares(text, n)
  {
    hide Number, Spells, Strip, Spelled, Trimmed;
    if SizeOf(line) == Success(n) {
      var text := Ascii(line).value;
      AsciiIff(line, text);
      var head := SplitOn(text, ';')[0];
      HeadIs(text, head);
      StripIff(head, Strip(head));
      NumberIff(Strip(head), 16, n);
      assert DeclaresBy(text, head, Strip(head), n);
    }
    if text :| Spelled(line, text) && Declares(text, n) {
      AsciiIff(line, text);
      var head, digits :| DeclaresBy(text, head, digits, n);
      HeadIs(text, head);
      StripIff(head, digits);
      NumberIff(digits, 16, n);
    }
  }

  // ---------------------------------------------------------------- trailer lines

  /** ASCII text before the first colon, not all white, whose trimmed and lowered form is the name. */
  ghost predicate NamesTrailer(line: Bytes, name: string, value: Bytes) {
    exists front: Bytes, text, core :: NamesBy(line, front, text, core, name, value)
  }

  ghost predicate NamesBy(line: Bytes, front: Bytes, text: string, core: string, name: string, value: Bytes) {
    && line == front + [58] + value && front != [] && 58 !in front
    && Spelled(front, text) && Trimmed(text, core) && core != "" && Lowered(core, name)
  }

  /** The text in lower case. */
  ghost predicate Lowered(s: string, t: string) {
    InLower(s, t) && forall i :: 0 <= i < |t| ==> !HasUpper(t[i])
  }

  lemma {:induction false} ColonIs(line: Bytes, k: nat)
    ensures Colon(line) == Some(k) <==> k < |line| && line[k] == 58 && 58 !in line[..k]
  {
    if line != [] && line[0] != 58 && k > 0 {
      ColonIs(line[1..], k - 1);
      if k <= |line| {
        assert line[..k] == [line[0]] + line[1..][..k - 1];
      }
    }
  }

  /** A trailer line gives a field exactly when it names it. */
  lemma TrailerFieldIff(line: Bytes, name: string, value: Bytes)
    ensures TrailerField(line) == Success(Field(name, value)) <==> NamesTrailer(line, name, value)
  {
    hide Strip, Lower, Spelled, Trimmed, InLower;
    if TrailerField(line) == Success(Field(name, value)) {
      var k := Colon(line).value;
      ColonIs(line, k);
      var front := line[..k];
      var text := Ascii(front).value;
      AsciiIff(front, text);
      StripIff(text, Strip(text));
      LowerIff(Strip(text), name);
      assert NamesBy(line, front, text, Strip(text), name, value);
    }
    if NamesTrailer(line, name, value) {
      var front: Bytes, text, core :| NamesBy(line, front, text, core, name, value);
      var k := |front|;
      assert line[..k] == front && line[k + 1..] == value;
      ColonIs(line, k);
      AsciiIff(front, text);
      StripIff(text, core);
      LowerIff(core, name);
      assert |name| == |core|;
    }
  }

  /** A trailer section is complete exactly when it is one empty line, or ends in one behind other text. */
  lemma SectionIff(t: Bytes)
    ensures TrailerLines(t).Success? <==> t == [13, 10] || exists front: Bytes :: t == front + [13, 10, 13, 10]
    ensures t == [13, 10] ==> TrailerLines(t) == Success([])
  {
    if t != [13, 10] && TrailerLines(t).Success? {
      assert t == t[..|t| - 4] + [13, 10, 13, 10];
    }
    if front: Bytes :| t == front + [13, 10, 13, 10] {
      assert t[|t| - 4..] == CRLF + CRLF;
    }
  }

  // ---------------------------------------------------------------- request headers

  /** A body is decoded for a streaming signature, for the chunked encoding, or for a declared decoded length. */
  lemma ChunkedIff(headers: Headers)
    ensures IsChunked(headers) <==>
      || ("x-amz-content-sha256" in headers && "STREAMING-" <= headers["x-amz-content-sha256"])
      || ("content-encoding" in headers && exists before, after :: headers["content-encoding"] == before + "aws-chunked" + after)
      || ("x-amz-decoded-content-length" in headers && headers["x-amz-decoded-content-length"] != "")
  {
    ContainsIff(Get(headers, "content-encoding"), "aws-chunked");
    hide Contains;
  }

  lemma ContainsIff(s: string, part: string)
    ensures Contains(s, part) <==> exists before, after :: s == before + part + after
  {
    if i :| 0 <= i <= |s| && StartsWith(s[i..], part) {
      assert s == s[..i] + part + s[i..][|part|..];
    }
    if before, after :| s == before + part + after {
      assert s[|before|..] == part + after;
      assert StartsWith(s[|before|..], part);
    }
  }

  /** The announced trailers are the comma-separated names of their header, trimmed and lowered. */
  lemma AnnouncedIff(headers: Headers, name: string)
    ensures name in Announced(headers) <==>
      "x-amz-trailer" in headers &&
      exists part, core :: Piece(headers["x-amz-trailer"], ',', part) && Trimmed(part, core) && core != "" && Lowered(core, name)
  {
    hide SplitOn, Strip, Lower, Piece, Trimmed, Lowered;
    var list := Get(headers, "x-amz-trailer");
    if name in Announced(headers) {
      var part :| part in SplitOn(list, ',') && Strip(part) != "" && Lower(Strip(part)) == name;
      SplitIff(list, ',', part);
      StripIff(part, Strip(part));
      LoweredIs(Strip(part), name);
      EmptyPiece();
    }
    if "x-amz-trailer" in headers {
      forall part, core | Piece(list, ',', part) && Trimmed(part, core) && core != "" && Lowered(core, name)
        ensures name in Announced(headers)
      {
        SplitIff(list, ',', part);
        StripIff(part, core);
        LoweredIs(core, name);
      }
    }
  }

  lemma LoweredIs(s: string, t: string)
    ensures Lower(s) == t <==> Lowered(s, t)
  {
    LowerIff(s, t);
  }

  lemma EmptyPiece()
    ensures SplitOn("", ',') == [""] && Strip("") == ""
  {
  }

  /** A declared length stands when it is absent, or decimal digits of the decoded length, at most 4300 of them. */
  lemma LengthIff(headers: Headers, decoded: Bytes)
    ensures CheckLength(headers, decoded).None? <==>
      ("x-amz-decoded-content-length" in headers ==>
         exists core :: Trimmed(headers["x-amz-decoded-content-length"], core) && Spells(core, 10, |decoded|) && |core| <= 4300)
  {
    hide Number, Spells, Strip, Trimmed;
    if "x-amz-decoded-content-length" in headers {
      var declared := headers["x-amz-decoded-content-length"];
      StripIff(declared, Strip(declared));
      NumberIff(Strip(declared), 10, |decoded|);
      forall core | Trimmed(declared, core) && Spells(core, 10, |decoded|) && |core| <= 4300
        ensures CheckLength(headers, decoded).None?
      {
        StripIff(declared, core);
      }
    }
  }

  // ---------------------------------------------------------------- the encoding header

  /** The encodings a header names, in order, without white space around them. */
  function Encodings(header: string): seq<string> {
    TrimAll(SplitOn(header, ','))
  }

  function TrimAll(parts: seq<string>): seq<string> {
    if parts == [] then [] else TrimAll(parts[..|parts| - 1]) + [Strip(parts[|parts| - 1])]
  }

  function Without(names: seq<string>, name: string): seq<string> {
    if names == [] then []
    else Without(names[..|names| - 1], name) + (if names[|names| - 1] == name then [] else [names[|names| - 1]])
  }

  lemma {:induction false} TrimFront(parts: seq<string>)
    requires parts != []
    ensures TrimAll(parts) == [Strip(parts[0])] + TrimAll(parts[1..])
  {
    hide Strip;
    var last := |parts| - 1;
    if last > 0 {
      TrimFront(parts[..last]);
      assert parts[1..][..last - 1] == parts[..last][1..];
      assert parts[1..][last - 1] == parts[last];
    }
  }

  lemma {:induction false} WithoutFront(names: seq<string>, name: string)
    requires names != []
    ensures Without(names, name) == (if names[0] == name then [] else [names[0]]) + Without(names[1..], name)
  {
    var last := |names| - 1;
    if last > 0 {
      WithoutFront(names[..last], name);
      assert names[1..][..last - 1] == names[..last][1..];
      assert names[1..][last - 1] == names[last];
    }
  }

  lemma {:induction false} DropIsWithout(parts: seq<string>)
    ensures DropChunked(parts) == Without(TrimAll(parts), "aws-chunked")
  {
    hide Strip;
    if parts != [] {
      TrimFront(parts);
      DropIsWithout(parts[1..]);
      WithoutFront(TrimAll(parts), "aws-chunked");
      assert TrimAll(parts)[1..] == TrimAll(parts[1..]);
    }
  }

  /** A name without commas that stripping leaves alone. */
  ghost predicate Bare(name: string) {
    ',' !in name && Strip(name) == name
  }

  lemma {:induction false} DroppedBare(parts: seq<string>)
    requires forall p <- parts :: ',' !in p
    ensures forall p <- DropChunked(parts) :: Bare(p)
  {
    if parts != [] {
      DroppedBare(parts[1..]);
      StripBare(parts[0]);
      hide Strip, DropChunked;
    }
  }

  lemma StripBare(s: string)
    requires ',' !in s
    ensures Bare(Strip(s))
  {
    StripTrims(s);
    var core := Strip(s);
    hide Strip, WHITE;
    var a, b :| TrimmedOf(s, a, core, b);
    assert forall i :: 0 <= i < |core| ==> s[|a| + i] == core[i];
    assert TrimmedOf(core, "", core, "");
    StripIff(core, core);
  }

  lemma {:induction false} JoinedEncodings(names: seq<string>)
    requires names != [] && forall n <- names :: Bare(n)
    ensures Encodings(JoinWith(names, ", ")) == names
  {
    var first := names[0];
    assert Bare(first) by {
      assert first in names;
    }
    if |names| == 1 {
      SplitPlain(first, ',');
      assert TrimAll([first]) == [Strip(first)] by {
        assert [first][..0] == [];
      }
    } else {
      var rest := JoinWith(names[1..], ", ");
      JoinedEncodings(names[1..]);
      assert JoinWith(names, ", ") == first + [','] + (" " + rest);
      SplitFirst(first, " " + rest, ',');
      SpaceFirst(rest);
      TrimFront([first] + SplitOn(" " + rest, ','));
      hide Strip;
      assert ([first] + SplitOn(" " + rest, ','))[1..] == SplitOn(" " + rest, ',');
    }
  }

  /** A space in front of a list of encodings belongs to none of them. */
  lemma SpaceFirst(rest: string)
    ensures Encodings(" " + rest) == Encodings(rest)
  {
    var head, tail := FirstSplit(rest, ',');
    LeadingSpace(head);
    hide Strip;
    if ',' in rest {
      assert " " + rest == (" " + head) + [','] + tail;
      SplitFirst(" " + head, tail, ',');
      TrimFront(SplitOn(" " + rest, ','));
      TrimFront(SplitOn(rest, ','));
    } else {
      SplitPlain(" " + head, ',');
      TrimFront([" " + head]);
      TrimFront([head]);
    }
  }

  lemma LeadingSpace(s: string)
    ensures Strip(" " + s) == Strip(s)
  {
    assert (" " + s)[1..] == s;
  }

  /** After decoding, the header names the encodings it named before, in order, all but aws-chunked; it goes when none is left. */
  lemma EncodingLeft(headers: Headers, trailers: Headers)
    requires "content-encoding" in headers && Contains(headers["content-encoding"], "aws-chunked")
    ensures var left := Without(Encodings(headers["content-encoding"]), "aws-chunked");
            var lifted := LiftTrailers(headers, trailers);
            if left == [] then "content-encoding" !in lifted
            else "content-encoding" in lifted && Encodings(lifted["content-encoding"]) == left
  {
    hide Strip, SplitOn, Contains;
    var parts := SplitOn(headers["content-encoding"], ',');
    DropIsWithout(parts);
    forall p | p in parts ensures ',' !in p {
      SplitIff(headers["content-encoding"], ',', p);
    }
    DroppedBare(parts);
    if DropChunked(parts) != [] {
      JoinedEncodings(DropChunked(parts));
    }
  }
}
