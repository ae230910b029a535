/**
  The aws-chunked request body (`ministack/app.py`): size line, data and CRLF per frame, a frame
  of size zero, then a trailer section. The framing is that of section 7.1 of RFC 9112, with
  trailers as in its section 7.1.2.
 */
module AwsChunked {
  import opened Results
  import opened PythonText

  const CRLF: seq<Byte> := [13, 10]

  type Bytes = seq<Byte>

  datatype Error =
    | TruncatedHeader
    | InvalidHeader
    | InvalidSize
    | TruncatedData
    | MissingTerminator
    | IncompleteTrailers
    | InvalidTrailer
    | InvalidTrailerName
    | MissingAnnouncedTrailer
    | InvalidDecodedLength
    | LengthMismatch
    | UnreadableLength

  // ---------------------------------------------------------------- finding line ends

  predicate CrlfAt(s: Bytes, j: int) {
    0 <= j && j + 2 <= |s| && s[j] == 13 && s[j + 1] == 10
  }

  ghost predicate OneLine(s: Bytes) {
    forall j :: !CrlfAt(s, j)
  }

  ghost predicate FirstCrlf(s: Bytes, from: nat, r: Option<nat>) {
    match r
    case None => forall j :: from <= j ==> !CrlfAt(s, j)
    case Some(k) => from <= k && CrlfAt(s, k) && forall j :: from <= j < k ==> !CrlfAt(s, j)
  }

  /** `s.find(b"\r\n", from)`. */
  function Find(s: Bytes, from: nat): (r: Option<nat>)
    ensures FirstCrlf(s, from, r)
    decreases |s| - from
  {
    if from + 2 > |s| then None
    else if CrlfAt(s, from) then Some(from)
    else Find(s, from + 1)
  }

  // ---------------------------------------------------------------- frames

  /** The size a size line declares: hexadecimal digits before any extension. */
  function SizeOf(line: Bytes): Result<nat, Error> {
    match Ascii(line)
    case None => Failure(InvalidHeader)
    case Some(text) =>
      match Number(Strip(SplitOn(text, ';')[0]), 16)
      case None => Failure(InvalidSize)
      case Some(n) => Success(n)
  }

  datatype Frame = Frame(line: Bytes, data: Bytes)

  /** A body taken apart: its data frames, the size line of the zero frame, and what follows it. */
  datatype Parts = Parts(frames: seq<Frame>, zero: Bytes, trailer: Bytes)

  function Prepend(frames: seq<Frame>, r: Result<Parts, Error>): Result<Parts, Error> {
    match r
    case Failure(e) => Failure(e)
    case Success(p) => Success(p.(frames := frames + p.frames))
  }

  /** The recursive parser that slices off one frame at a time. */
  function ParseFrames(s: Bytes): Result<Parts, Error>
    decreases |s|
  {
    if s == [] then Failure(MissingTerminator)
    else
      match Find(s, 0)
      case None => Failure(TruncatedHeader)
      case Some(k) =>
        match SizeOf(s[..k])
        case Failure(e) => Failure(e)
        case Success(n) =>
          if n == 0 then Success(Parts([], s[..k], s[k + 2..]))
          else if k + 2 + n + 2 > |s| || !CrlfAt(s, k + 2 + n) then Failure(TruncatedData)
          else Prepend([Frame(s[..k], s[k + 2..k + 2 + n])], ParseFrames(s[k + 4 + n..]))
  }

  function EncodeFrame(f: Frame): Bytes {
    f.line + CRLF + f.data + CRLF
  }

  function Encode(p: Parts): Bytes
    decreases |p.frames|
  {
    if p.frames == [] then p.zero + CRLF + p.trailer
    else EncodeFrame(p.frames[0]) + Encode(p.(frames := p.frames[1..]))
  }

  /** The size line may carry extensions and the data may contain CRLF. */
  ghost predicate ValidFrame(f: Frame) {
    OneLine(f.line) && f.data != [] && SizeOf(f.line) == Success(|f.data|)
  }

  ghost predicate ValidParts(p: Parts) {
    && OneLine(p.zero) && SizeOf(p.zero) == Success(0)
    && forall f <- p.frames :: ValidFrame(f)
  }

  function Payload(frames: seq<Frame>): Bytes {
    if frames == [] then [] else frames[0].data + Payload(frames[1..])
  }

  /** How much data the frames before the i-th hold. */
  function Offset(frames: seq<Frame>, i: nat): nat
    requires i <= |frames|
  {
    if i == 0 then 0 else Offset(frames, i - 1) + |frames[i - 1].data|
  }

  /** Each frame's data stands behind the data of the frames before it, and nothing else is there. */
  ghost predicate InOrder(frames: seq<Frame>, body: Bytes) {
    && |body| == Offset(frames, |frames|)
    && forall i :: 0 <= i < |frames| ==>
         Offset(frames, i) + |frames[i].data| <= |body| && body[Offset(frames, i)..][..|frames[i].data|] == frames[i].data
  }

  lemma {:induction false} OffsetShift(frames: seq<Frame>, i: nat)
    requires i < |frames|
    ensures Offset(frames, i + 1) == |frames[0].data| + Offset(frames[1..], i)
  {
    if i > 0 {
      OffsetShift(frames, i - 1);
    }
  }

  lemma {:induction false} DataAt(frames: seq<Frame>, i: nat)
    requires i < |frames|
    ensures Offset(frames, i) + |frames[i].data| <= |Payload(frames)|
    ensures Payload(frames)[Offset(frames, i)..][..|frames[i].data|] == frames[i].data
  {
    var first, rest := frames[0], frames[1..];
    var tail := Payload(rest);
    if i > 0 {
      DataAt(rest, i - 1);
      OffsetShift(frames, i - 1);
      Beyond(first.data, tail, Offset(rest, i - 1));
      assert rest[i - 1] == frames[i];
    } else {
      Beyond([], first.data + tail, 0);
    }
    hide Payload, Offset;
  }

  lemma Beyond(a: Bytes, b: Bytes, k: nat)
    requires k <= |b|
    ensures (a + b)[|a| + k..] == b[k..] && b[0..] == b
  {
  }

  lemma {:induction false} PayloadLength(frames: seq<Frame>)
    ensures |Payload(frames)| == Offset(frames, |frames|)
  {
    if frames != [] {
      PayloadLength(frames[1..]);
      OffsetShift(frames, |frames| - 1);
    }
  }

  /** The payload is the frames' data, in their order. */
  lemma PayloadInOrder(frames: seq<Frame>)
    ensures InOrder(frames, Payload(frames))
  {
    PayloadLength(frames);
    forall i | 0 <= i < |frames|
      ensures Offset(frames, i) + |frames[i].data| <= |Payload(frames)|
      ensures Payload(frames)[Offset(frames, i)..][..|frames[i].data|] == frames[i].data
    {
      DataAt(frames, i);
    }
  }

  lemma FindAfterLine(line: Bytes, rest: Bytes)
    requires OneLine(line)
    ensures Find(line + CRLF + rest, 0) == Some(|line|)
  {
    var s := line + CRLF + rest;
    assert CrlfAt(s, |line|);
    forall j | 0 <= j < |line| ensures !CrlfAt(s, j) {
      assert !CrlfAt(line, j);
    }
  }

  /** Where the pieces of a leading frame lie. */
  lemma FrameSlices(f: Frame, tail: Bytes)
    requires OneLine(f.line)
    ensures var s := EncodeFrame(f) + tail; var k, n := |f.line|, |f.data|;
            && |s| == k + n + 4 + |tail|
            && Find(s, 0) == Some(k)
            && s[..k] == f.line && s[k + 2..k + 2 + n] == f.data
            && CrlfAt(s, k + 2 + n) && s[k + 4 + n..] == tail
  {
    var s := EncodeFrame(f) + tail;
    assert s == f.line + CRLF + (f.data + CRLF + tail);
    FindAfterLine(f.line, f.data + CRLF + tail);
  }

  lemma ZeroSlices(zero: Bytes, trailer: Bytes)
    requires OneLine(zero)
    ensures var s := zero + CRLF + trailer;
            Find(s, 0) == Some(|zero|) && s[..|zero|] == zero && s[|zero| + 2..] == trailer
  {
    FindAfterLine(zero, trailer);
  }

  lemma ParseFrameStep(f: Frame, tail: Bytes)
    requires ValidFrame(f)
    ensures ParseFrames(EncodeFrame(f) + tail) == Prepend([f], ParseFrames(tail))
  {
    hide SizeOf, Prepend;
    var s := EncodeFrame(f) + tail;
    FrameSlices(f, tail);
    assert s != [];
    assert Frame(f.line, f.data) == f;
  }

  lemma ParseZeroStep(zero: Bytes, trailer: Bytes)
    requires OneLine(zero) && SizeOf(zero) == Success(0)
    ensures ParseFrames(zero + CRLF + trailer) == Success(Parts([], zero, trailer))
  {
    ZeroSlices(zero, trailer);
  }

  /** Parsing undoes encoding, whatever bytes the data holds. */
  lemma {:induction false} ParseEncode(p: Parts)
    requires ValidParts(p)
    ensures ParseFrames(Encode(p)) == Success(p)
    decreases |p.frames|
  {
    hide SizeOf, ParseFrames;
    if p.frames == [] {
      ParseZeroStep(p.zero, p.trailer);
    } else {
      var f, rest := p.frames[0], p.(frames := p.frames[1..]);
      assert f in p.frames;
      ParseEncode(rest);
      ParseFrameStep(f, Encode(rest));
      assert [f] + rest.frames == p.frames;
    }
  }

  /** One step of a successful parse. */
  lemma ParseStep(s: Bytes) returns (k: nat, n: nat)
    requires ParseFrames(s).Success?
    ensures Find(s, 0) == Some(k) && SizeOf(s[..k]) == Success(n)
    ensures n == 0 ==> ParseFrames(s).value == Parts([], s[..k], s[k + 2..])
    ensures n > 0 ==>
              && k + 2 + n + 2 <= |s| && CrlfAt(s, k + 2 + n)
              && ParseFrames(s[k + 4 + n..]).Success?
              && var p := ParseFrames(s[k + 4 + n..]).value;
                 ParseFrames(s).value == p.(frames := [Frame(s[..k], s[k + 2..k + 2 + n])] + p.frames)
  {
    hide SizeOf;
    k := Find(s, 0).value;
    n := SizeOf(s[..k]).value;
  }

  /** What a successful parse found at the front. */
  lemma ParseFront(s: Bytes)
    requires ParseFrames(s).Success?
    ensures var p := ParseFrames(s).value;
            if p.frames == [] then OneLine(p.zero) && SizeOf(p.zero) == Success(0) && s == p.zero + CRLF + p.trailer
            else
              var f := p.frames[0];
              && ValidFrame(f) && |EncodeFrame(f)| <= |s|
              && s == EncodeFrame(f) + s[|EncodeFrame(f)|..]
              && ParseFrames(s[|EncodeFrame(f)|..]) == Success(p.(frames := p.frames[1..]))
  {
    hide SizeOf, ParseFrames;
    var k, n := ParseStep(s);
    LineBefore(s, k);
    if n == 0 {
      assert s == s[..k] + CRLF + s[k + 2..];
    } else {
      var p := ParseFrames(s[k + 4 + n..]).value;
      var f := Frame(s[..k], s[k + 2..k + 2 + n]);
      FrontFrame(s, k, n);
      assert ([f] + p.frames)[1..] == p.frames;
    }
  }

  lemma FrontFrame(s: Bytes, k: nat, n: nat)
    requires CrlfAt(s, k) && CrlfAt(s, k + 2 + n)
    ensures EncodeFrame(Frame(s[..k], s[k + 2..k + 2 + n])) == s[..k + 4 + n]
    ensures s == s[..k + 4 + n] + s[k + 4 + n..]
  {
  }

  lemma LineBefore(s: Bytes, k: nat)
    requires Find(s, 0) == Some(k)
    ensures OneLine(s[..k])
  {
    forall j ensures !CrlfAt(s[..k], j) {
      if 0 <= j < k {
        assert !CrlfAt(s, j);
      }
    }
  }

  /** Whatever parses is the encoding of its parts, with nothing left over. */
  lemma {:induction false} EncodeParse(s: Bytes)
    requires ParseFrames(s).Success?
    ensures ValidParts(ParseFrames(s).value) && Encode(ParseFrames(s).value) == s
    decreases |s|
  {
    var p := ParseFrames(s).value;
    ParseFront(s);
    if p.frames != [] {
      var size := |EncodeFrame(p.frames[0])|;
      EncodeParse(s[size..]);
      assert p.frames == [p.frames[0]] + p.frames[1..];
    }
  }

  lemma ZeroPrefix(p: Parts, m: nat)
    requires ValidParts(p) && p.frames == [] && m < |Encode(p)|
    ensures var r := ParseFrames(Encode(p)[..m]);
            || r.Failure?
            || (m >= |p.zero| + 2 && r == Success(p.(trailer := p.trailer[..m - |p.zero| - 2])))
  {
    hide SizeOf, Find;
    var s := Encode(p);
    ZeroSlices(p.zero, p.trailer);
    var k := |p.zero|;
    FindPrefix(s, m, k);
    if m >= k + 2 {
      var i := m - k - 2;
      assert s[..m] == p.zero + CRLF + p.trailer[..i];
      ParseZeroStep(p.zero, p.trailer[..i]);
    }
  }

  /** Cutting an encoding short leaves no body, or only a shorter trailer section. */
  lemma {:induction false} ParsePrefix(p: Parts, m: nat)
    requires ValidParts(p) && m < |Encode(p)|
    ensures var r := ParseFrames(Encode(p)[..m]);
            || r.Failure?
            || exists i: nat :: i < |p.trailer| && r == Success(p.(trailer := p.trailer[..i]))
    decreases |p.frames|
  {
    hide SizeOf, Find;
    var s := Encode(p);
    if p.frames == [] {
      ZeroPrefix(p, m);
    } else {
      var f, rest := p.frames[0], p.(frames := p.frames[1..]);
      var size := |EncodeFrame(f)|;
      assert f in p.frames;
      if m < size {
        CutFrameFails(f, Encode(rest), m);
      } else {
        assert s[..m] == EncodeFrame(f) + Encode(rest)[..m - size];
        ParsePrefix(rest, m - size);
        ParseFrameStep(f, Encode(rest)[..m - size]);
        assert [f] + rest.frames == p.frames;
      }
    }
  }

  lemma CutFrameFails(f: Frame, tail: Bytes, m: nat)
    requires ValidFrame(f) && m < |EncodeFrame(f)|
    ensures ParseFrames((EncodeFrame(f) + tail)[..m]).Failure?
  {
    var s := EncodeFrame(f) + tail;
    var k := |f.line|;
    FrameSlices(f, tail);
    FindPrefix(s, m, k);
    if m >= k + 2 {
      assert s[..m][..k] == f.line;
    }
  }

  lemma FindPrefix(s: Bytes, m: nat, k: nat)
    requires Find(s, 0) == Some(k) && m <= |s|
    ensures Find(s[..m], 0) == if m >= k + 2 then Some(k) else None
  {
    forall j | CrlfAt(s[..m], j) ensures CrlfAt(s, j) {
    }
    if m >= k + 2 {
      assert CrlfAt(s[..m], k);
    }
  }

  // ---------------------------------------------------------------- trailers

  /** `t.split(b"\r\n")`. */
  function SplitLines(t: Bytes): seq<Bytes>
    decreases |t|
  {
    match Find(t, 0)
    case None => [t]
    case Some(k) => [t[..k]] + SplitLines(t[k + 2..])
  }

  function TrailerLines(t: Bytes): Result<seq<Bytes>, Error> {
    if t == CRLF then Success([])
    else if |t| >= 4 && t[|t| - 4..] == CRLF + CRLF then Success(SplitLines(t[..|t| - 4]))
    else Failure(IncompleteTrailers)
  }

  /** Each line and its CRLF, then an empty line. */
  function EncodeTrailers(lines: seq<Bytes>): Bytes {
    if lines == [] then CRLF else lines[0] + CRLF + EncodeTrailers(lines[1..])
  }

  ghost predicate TrailerShape(lines: seq<Bytes>) {
    forall line <- lines :: OneLine(line) && line != []
  }

  lemma {:induction false} SplitJoined(lines: seq<Bytes>, t: Bytes)
    requires lines != [] && EncodeTrailers(lines) == t + CRLF + CRLF
    requires forall line <- lines :: OneLine(line)
    ensures SplitLines(t) == lines
    decreases |lines|
  {
    var line, rest := lines[0], EncodeTrailers(lines[1..]);
    if |lines| == 1 {
      assert line + CRLF + CRLF == t + CRLF + CRLF;
      assert (line + CRLF + CRLF)[..|line|] == line && (t + CRLF + CRLF)[..|t|] == t;
      NoLineEnd(line);
    } else {
      TrailersLength(lines[1..]);
      var t' := t[|line| + 2..];
      SplitTail(line, rest, t);
      FindAfterLine(line, t');
      assert t[..|line|] == line;
      SplitJoined(lines[1..], t');
    }
  }

  lemma NoLineEnd(line: Bytes)
    requires OneLine(line)
    ensures Find(line, 0) == None
  {
  }

  lemma SplitTail(line: Bytes, rest: Bytes, t: Bytes)
    requires line + CRLF + rest == t + CRLF + CRLF && |rest| >= 4
    ensures |t| >= |line| + 2
    ensures t == line + CRLF + t[|line| + 2..] && rest == t[|line| + 2..] + CRLF + CRLF
  {
    var whole := t + CRLF + CRLF;
    assert whole[..|t|] == t;
    assert t[..|line| + 2] == (line + CRLF + rest)[..|line| + 2] == line + CRLF;
    assert rest == whole[|line| + 2..];
    assert rest == (line + CRLF + rest)[|line| + 2..];
  }

  lemma {:induction false} TrailersLength(lines: seq<Bytes>)
    ensures |EncodeTrailers(lines)| >= 2
    ensures lines != [] ==> |EncodeTrailers(lines)| >= 4
  {
    if lines != [] {
      TrailersLength(lines[1..]);
    }
  }

  lemma {:induction false} JoinSplit(t: Bytes)
    ensures EncodeTrailers(SplitLines(t)) == t + CRLF + CRLF
    ensures forall line <- SplitLines(t) :: OneLine(line)
    decreases |t|
  {
    match Find(t, 0)
    case None =>
      assert [t][1..] == [];
    case Some(k) =>
      JoinSplit(t[k + 2..]);
      LineBefore(t, k);
      assert t == t[..k] + CRLF + t[k + 2..];
      assert SplitLines(t)[1..] == SplitLines(t[k + 2..]);
  }

  lemma {:induction false} TrailersEnd(lines: seq<Bytes>)
    requires lines != []
    ensures var t := EncodeTrailers(lines); |t| >= 4 && t[|t| - 4..] == CRLF + CRLF
  {
    if |lines| == 1 {
      assert EncodeTrailers(lines[1..]) == CRLF;
    } else {
      TrailersEnd(lines[1..]);
    }
  }

  /** A trailer section reads back as its lines. */
  lemma TrailersParse(lines: seq<Bytes>)
    requires TrailerShape(lines)
    ensures TrailerLines(EncodeTrailers(lines)) == Success(lines)
  {
    if lines != [] {
      var t := EncodeTrailers(lines);
      TrailersEnd(lines);
      assert lines[0] in lines;
      assert t == t[..|t| - 4] + CRLF + CRLF;
      SplitJoined(lines, t[..|t| - 4]);
    }
  }

  /** Two line ends in a row only stand at the very end of a trailer section. */
  lemma {:induction false} DoubleCrlf(lines: seq<Bytes>, j: nat)
    requires TrailerShape(lines) && CrlfAt(EncodeTrailers(lines), j) && CrlfAt(EncodeTrailers(lines), j + 2)
    ensures j + 4 == |EncodeTrailers(lines)|
    decreases |lines|
  {
    if lines != [] {
      var line, rest := lines[0], EncodeTrailers(lines[1..]);
      var t := EncodeTrailers(lines);
      assert line in lines;
      FindAfterLine(line, rest);
      assert t == line + CRLF + rest && |line| <= j;
      assert j != |line| + 1;
      if j == |line| {
        assert CrlfAt(rest, 0);
        NoLeadingCrlf(lines[1..]);
      } else {
        DoubleCrlf(lines[1..], j - |line| - 2);
      }
    }
  }

  lemma NoLeadingCrlf(lines: seq<Bytes>)
    requires TrailerShape(lines) && CrlfAt(EncodeTrailers(lines), 0)
    ensures lines == []
  {
    if lines != [] {
      assert lines[0] in lines;
      FindAfterLine(lines[0], EncodeTrailers(lines[1..]));
    }
  }

  /** A trailer section cut short is rejected. */
  lemma TrailersPrefix(lines: seq<Bytes>, m: nat)
    requires TrailerShape(lines) && m < |EncodeTrailers(lines)|
    ensures TrailerLines(EncodeTrailers(lines)[..m]).Failure?
  {
    var t := EncodeTrailers(lines);
    var cut := t[..m];
    if cut == CRLF {
      assert CrlfAt(t, 0) by {
        assert t[0] == cut[0] && t[1] == cut[1];
      }
      NoLeadingCrlf(lines);
    } else if m >= 4 && cut[m - 4..] == CRLF + CRLF {
      var end := cut[m - 4..];
      assert end[0] == t[m - 4] && end[1] == t[m - 3] && end[2] == t[m - 2] && end[3] == t[m - 1];
      DoubleCrlf(lines, m - 4);
    }
  }

  /** `line.partition(b":")`: the index of the first colon. */
  function Colon(line: Bytes): (r: Option<nat>)
    ensures r.Some? ==> r.value < |line|
  {
    if line == [] then None
    else if line[0] == 58 then Some(0)
    else
      match Colon(line[1..])
      case None => None
      case Some(k) => Some(k + 1)
  }

  datatype Field = Field(name: string, value: Bytes)

  function TrailerField(line: Bytes): Result<Field, Error> {
    match Colon(line)
    case None => Failure(InvalidTrailer)
    case Some(k) =>
      if k == 0 then Failure(InvalidTrailer)
      else
        match Ascii(line[..k])
        case None => Failure(InvalidTrailerName)
        case Some(text) =>
          var name := Lower(Strip(text));
          if name == "" then Failure(InvalidTrailerName) else Success(Field(name, line[k + 1..]))
  }

  type Headers = map<string, string>

  /** The trailer fields; the first line with a name gives its value. `text` decodes and strips a value. */
  function Fields(lines: seq<Bytes>, text: Bytes -> string): Result<Headers, Error> {
    if lines == [] then Success(map[])
    else
      match Fields(lines[..|lines| - 1], text)
      case Failure(e) => Failure(e)
      case Success(before) =>
        match TrailerField(lines[|lines| - 1])
        case Failure(e) => Failure(e)
        case Success(f) => Success(if f.name in before then before else before[f.name := text(f.value)])
  }

  lemma {:induction false} FieldsIff(lines: seq<Bytes>, text: Bytes -> string)
    ensures Fields(lines, text).Success? <==> forall line <- lines :: TrailerField(line).Success?
  {
    hide TrailerField;
    if lines != [] {
      var last := |lines| - 1;
      FieldsIff(lines[..last], text);
      assert lines == lines[..last] + [lines[last]];
    }
  }

  /** The first of several trailers with one name is the one that counts. */
  lemma {:induction false} FirstTrailerWins(lines: seq<Bytes>, text: Bytes -> string, i: nat)
    requires i < |lines| && Fields(lines, text).Success?
    requires TrailerField(lines[i]).Success?
    requires forall j :: 0 <= j < i && TrailerField(lines[j]).Success?
               ==> TrailerField(lines[j]).value.name != TrailerField(lines[i]).value.name
    ensures var f := TrailerField(lines[i]).value;
            f.name in Fields(lines, text).value && Fields(lines, text).value[f.name] == text(f.value)
  {
    var last := |lines| - 1;
    if i < last {
      FirstTrailerWins(lines[..last], text, i);
    } else {
      NewField(lines[..last], text, TrailerField(lines[last]).value.name);
    }
  }

  lemma NewField(lines: seq<Bytes>, text: Bytes -> string, name: string)
    requires Fields(lines, text).Success?
    requires forall j :: 0 <= j < |lines| && TrailerField(lines[j]).Success? ==> TrailerField(lines[j]).value.name != name
    ensures name !in Fields(lines, text).value
  {
    if name in Fields(lines, text).value {
      var j := FieldOrigin(lines, text, name);
    }
  }

  lemma {:induction false} FieldOrigin(lines: seq<Bytes>, text: Bytes -> string, name: string) returns (j: nat)
    requires Fields(lines, text).Success? && name in Fields(lines, text).value
    ensures j < |lines| && TrailerField(lines[j]).Success? && TrailerField(lines[j]).value.name == name
  {
    var last := |lines| - 1;
    if TrailerField(lines[last]).value.name == name {
      j := last;
    } else {
      j := FieldOrigin(lines[..last], text, name);
    }
  }

  // ---------------------------------------------------------------- headers

  function Get(headers: Headers, name: string): string {
    if name in headers then headers[name] else ""
  }

  const SHA256 := "x-amz-content-sha256"
  const ENCODING := "content-encoding"
  const DECODED_LENGTH := "x-amz-decoded-content-length"
  const TRAILER := "x-amz-trailer"

  predicate IsChunked(headers: Headers) {
    || StartsWith(Get(headers, SHA256), "STREAMING-")
    || Contains(Get(headers, ENCODING), "aws-chunked")
    || Get(headers, DECODED_LENGTH) != ""
  }

  /** The trailer names a request announces. */
  function Announced(headers: Headers): set<string> {
    set part <- SplitOn(Get(headers, TRAILER), ',') | Strip(part) != "" :: Lower(Strip(part))
  }

  /** `int` refuses longer decimal texts with a ValueError of its own, leading zeros included. */
  const MAX_DIGITS := 4300

  function CheckLength(headers: Headers, decoded: Bytes): Option<Error> {
    if DECODED_LENGTH !in headers then None
    else if Number(Strip(headers[DECODED_LENGTH]), 10).Some? && |Strip(headers[DECODED_LENGTH])| > MAX_DIGITS then
      Some(UnreadableLength)
    else
      match Number(Strip(headers[DECODED_LENGTH]), 10)
      case None => Some(InvalidDecodedLength)
      case Some(n) => if n == |decoded| then None else Some(LengthMismatch)
  }

  function OtherEncodings(encoding: string): seq<string> {
    DropChunked(SplitOn(encoding, ','))
  }

  function DropChunked(parts: seq<string>): seq<string> {
    if parts == [] then []
    else (if Strip(parts[0]) != "aws-chunked" then [Strip(parts[0])] else []) + DropChunked(parts[1..])
  }

  /** The headers once the body is decoded: trailers lifted in behind the request's own fields. */
  function LiftTrailers(headers: Headers, trailers: Headers): Headers {
    var lifted := trailers + headers;
    var encoding := Get(headers, ENCODING);
    if !Contains(encoding, "aws-chunked") then lifted
    else
      var others := OtherEncodings(encoding);
      if others != [] then lifted[ENCODING := JoinWith(others, ", ")] else lifted - {ENCODING}
  }

  // ---------------------------------------------------------------- the decoder

  datatype Decoded = Decoded(body: Bytes, headers: Headers)

  function Finish(p: Parts, lines: seq<Bytes>, headers: Headers, text: Bytes -> string): Result<Decoded, Error> {
    match Fields(lines, text)
    case Failure(e) => Failure(e)
    case Success(trailers) =>
      if !(Announced(headers) <= trailers.Keys) then Failure(MissingAnnouncedTrailer)
      else
        match CheckLength(headers, Payload(p.frames))
        case Some(e) => Failure(e)
        case None => Success(Decoded(Payload(p.frames), LiftTrailers(headers, trailers)))
  }

  /** Decoding by slicing: what `_decode_aws_chunked_body` returns and leaves in the headers. */
  function Decode(body: Bytes, headers: Headers, text: Bytes -> string): Result<Decoded, Error> {
    if !IsChunked(headers) then Success(Decoded(body, headers))
    else
      match ParseFrames(body)
      case Failure(e) => Failure(e)
      case Success(p) =>
        match TrailerLines(p.trailer)
        case Failure(e) => Failure(e)
        case Success(lines) => Finish(p, lines, headers, text)
  }

  /** `body` is frames, a zero frame and a complete trailer section of `name:value` lines. */
  ghost predicate Encodes(body: Bytes, p: Parts, lines: seq<Bytes>) {
    && ValidParts(p)
    && p.trailer == EncodeTrailers(lines)
    && body == Encode(p)
    && forall line <- lines :: OneLine(line) && TrailerField(line).Success?
  }

  lemma FieldLinesShape(lines: seq<Bytes>)
    requires forall line <- lines :: OneLine(line) && TrailerField(line).Success?
    ensures TrailerShape(lines)
  {
  }

  /** Decoding an encoded body gives back its data and lifts its trailers. */
  lemma DecodeEncoded(p: Parts, lines: seq<Bytes>, headers: Headers, text: Bytes -> string)
    requires IsChunked(headers) && Encodes(Encode(p), p, lines)
    ensures Decode(Encode(p), headers, text) == Finish(p, lines, headers, text)
    ensures Fields(lines, text).Success?
    ensures Decode(Encode(p), headers, text).Success?
       <==> Announced(headers) <= Fields(lines, text).value.Keys && CheckLength(headers, Payload(p.frames)).None?
    ensures Decode(Encode(p), headers, text).Success? ==> InOrder(p.frames, Decode(Encode(p), headers, text).value.body)
  {
    PayloadInOrder(p.frames);
    ParseEncode(p);
    FieldLinesShape(lines);
    TrailersParse(lines);
    FieldsIff(lines, text);
  }

  /** Whenever the decoder accepts, the whole body is such an encoding, of exactly the bytes returned. */
  lemma AcceptedIsEncoding(body: Bytes, headers: Headers, text: Bytes -> string) returns (p: Parts, lines: seq<Bytes>)
    requires IsChunked(headers) && Decode(body, headers, text).Success?
    ensures Encodes(body, p, lines)
    ensures Fields(lines, text).Success? && Announced(headers) <= Fields(lines, text).value.Keys
    ensures CheckLength(headers, Payload(p.frames)).None?
    ensures Decode(body, headers, text).value == Decoded(Payload(p.frames), LiftTrailers(headers, Fields(lines, text).value))
    ensures InOrder(p.frames, Decode(body, headers, text).value.body)
  {
    p := ParseFrames(body).value;
    lines := TrailerLines(p.trailer).value;
    PayloadInOrder(p.frames);
    EncodeParse(body);
    FieldsIff(lines, text);
    TrailersRead(p.trailer);
  }

  lemma TrailersRead(t: Bytes)
    requires TrailerLines(t).Success?
    ensures t == EncodeTrailers(TrailerLines(t).value)
    ensures forall line <- TrailerLines(t).value :: OneLine(line)
  {
    if t != CRLF {
      JoinSplit(t[..|t| - 4]);
      assert t == t[..|t| - 4] + CRLF + CRLF;
    }
  }

  /** Every strict prefix of an encoded body is rejected. */
  lemma PrefixRejected(p: Parts, lines: seq<Bytes>, headers: Headers, text: Bytes -> string, m: nat)
    requires IsChunked(headers) && Encodes(Encode(p), p, lines) && m < |Encode(p)|
    ensures Decode(Encode(p)[..m], headers, text).Failure?
  {
    ParsePrefix(p, m);
    FieldLinesShape(lines);
    var r := ParseFrames(Encode(p)[..m]);
    if r.Success? {
      var i: nat :| i < |p.trailer| && r == Success(p.(trailer := p.trailer[..i]));
      TrailersPrefix(lines, i);
    }
  }

  /** No trailer overrides a field of the request itself, other than the encoding the decoder removed. */
  lemma RequestHeadersWin(headers: Headers, trailers: Headers, name: string)
    requires name != ENCODING || !Contains(Get(headers, ENCODING), "aws-chunked")
    ensures name in headers ==> name in LiftTrailers(headers, trailers) && LiftTrailers(headers, trailers)[name] == headers[name]
    ensures name !in headers && name in trailers ==>
              name in LiftTrailers(headers, trailers) && LiftTrailers(headers, trailers)[name] == trailers[name]
    ensures name !in headers && name !in trailers ==> name !in LiftTrailers(headers, trailers)
  {
  }
}
