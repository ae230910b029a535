/** The decoder as it runs: the body is walked by index and the chunks are joined once. */
module AwsChunkedWalk {
  import opened Results
  import opened AwsChunked

  /** `b"".join(chunks)`. */
  function Joined(chunks: seq<Bytes>): Bytes {
    if chunks == [] then [] else chunks[0] + Joined(chunks[1..])
  }

  function Chunks(frames: seq<Frame>): (r: seq<Bytes>)
    ensures |r| == |frames|
  {
    if frames == [] then [] else Chunks(frames[..|frames| - 1]) + [frames[|frames| - 1].data]
  }

  lemma {:induction false} ChunksFront(frames: seq<Frame>)
    requires frames != []
    ensures Chunks(frames) == [frames[0].data] + Chunks(frames[1..])
  {
    var last := |frames| - 1;
    if last > 0 {
      ChunksFront(frames[..last]);
      assert frames[1..][..last - 1] == frames[..last][1..];
      assert frames[1..][last - 1] == frames[last];
    }
  }

  lemma {:induction false} JoinedChunks(frames: seq<Frame>)
    ensures Joined(Chunks(frames)) == Payload(frames)
  {
    if frames != [] {
      ChunksFront(frames);
      JoinedChunks(frames[1..]);
      assert Chunks(frames)[1..] == Chunks(frames[1..]);
    }
  }

  method FindCrlf(s: Bytes, from: nat) returns (r: Option<nat>)
    ensures FirstCrlf(s, from, r)
  {
    var j := from;
    while j + 2 <= |s|
      invariant from <= j
      invariant forall i :: from <= i < j ==> !CrlfAt(s, i)
    {
      if CrlfAt(s, j) {
        return Some(j);
      }
      j := j + 1;
    }
    return None;
  }

  /** Searching the body from `pos` is searching the unread tail. */
  lemma FindInTail(s: Bytes, pos: nat, r: Option<nat>)
    requires pos <= |s| && FirstCrlf(s, pos, r)
    ensures match r
            case None => Find(s[pos..], 0) == None
            case Some(k) => Find(s[pos..], 0) == Some(k - pos)
  {
    var t := s[pos..];
    assert forall j :: 0 <= j ==> (CrlfAt(t, j) <==> CrlfAt(s, pos + j));
    match r
    case None =>
    case Some(k) =>
      assert CrlfAt(t, k - pos);
  }

  /** One data frame at the front of the unread tail. */
  lemma DataStep(t: Bytes, k: nat, n: nat)
    requires Find(t, 0) == Some(k) && SizeOf(t[..k]) == Success(n) && n > 0
    ensures ParseFrames(t)
         == if k + 2 + n + 2 > |t| || !CrlfAt(t, k + 2 + n) then Failure(TruncatedData)
            else Prepend([Frame(t[..k], t[k + 2..k + 2 + n])], ParseFrames(t[k + 4 + n..]))
  {
    hide SizeOf, Prepend;
  }

  /** Reading one data frame at `pos`. */
  lemma FrameAt(s: Bytes, pos: nat, k: nat, n: nat)
    requires pos < |s| && FirstCrlf(s, pos, Some(k)) && SizeOf(s[pos..k]) == Success(n) && n > 0
    ensures k + 2 + n + 2 > |s| || !CrlfAt(s, k + 2 + n) ==> ParseFrames(s[pos..]) == Failure(TruncatedData)
    ensures k + 2 + n + 2 <= |s| && CrlfAt(s, k + 2 + n) ==>
              ParseFrames(s[pos..]) == Prepend([Frame(s[pos..k], s[k + 2..k + 2 + n])], ParseFrames(s[k + 4 + n..]))
  {
    hide SizeOf, ParseFrames;
    FindInTail(s, pos, Some(k));
    TailSlices(s, pos, k, n);
    DataStep(s[pos..], k - pos, n);
  }

  lemma TailSlices(s: Bytes, pos: nat, k: nat, n: nat)
    requires pos <= k && k + 2 <= |s|
    ensures s[pos..][..k - pos] == s[pos..k]
    ensures s[pos..][k - pos + 2..] == s[k + 2..]
    ensures CrlfAt(s[pos..], k - pos + 2 + n) <==> CrlfAt(s, k + 2 + n)
    ensures k + 2 + n + 2 <= |s| ==> s[pos..][k - pos + 2..k - pos + 2 + n] == s[k + 2..k + 2 + n]
    ensures k + 2 + n + 2 <= |s| ==> s[pos..][k - pos + 4 + n..] == s[k + 4 + n..]
  {
  }

  lemma HeaderAt(s: Bytes, pos: nat, r: Option<nat>)
    requires pos < |s| && FirstCrlf(s, pos, r)
    ensures match r
            case None => ParseFrames(s[pos..]) == Failure(TruncatedHeader)
            case Some(k) =>
              match SizeOf(s[pos..k])
              case Failure(e) => ParseFrames(s[pos..]) == Failure(e)
              case Success(n) => n == 0 ==> ParseFrames(s[pos..]) == Success(Parts([], s[pos..k], s[k + 2..]))
  {
    FindInTail(s, pos, r);
    assert s[pos..] != [];
    match r
    case None =>
    case Some(k) =>
      TailSlices(s, pos, k, 0);
  }

  lemma PrependFrames(a: seq<Frame>, b: seq<Frame>, r: Result<Parts, Error>)
    ensures Prepend(a, Prepend(b, r)) == Prepend(a + b, r)
  {
    if r.Success? {
      assert a + (b + r.value.frames) == a + b + r.value.frames;
    }
  }

  /** What one turn of the loop finds at its position. */
  datatype Turn =
    | Stop(error: Error)
    | Zero(trailer: Bytes)
    | Data(frame: Frame, next: nat)

  ghost predicate TurnAt(body: Bytes, pos: nat, t: Turn)
    requires pos < |body|
  {
    match t
    case Stop(e) => ParseFrames(body[pos..]) == Failure(e)
    case Zero(trailer) =>
      ParseFrames(body[pos..]).Success?
      && ParseFrames(body[pos..]).value.frames == [] && ParseFrames(body[pos..]).value.trailer == trailer
    case Data(f, next) =>
      pos < next <= |body|
      && ParseFrames(body[pos..]) == Prepend([f], ParseFrames(body[next..]))
  }

  method ReadFrame(body: Bytes, pos: nat) returns (t: Turn)
    requires pos < |body|
    ensures TurnAt(body, pos, t)
  {
    hide SizeOf, ParseFrames;
    var crlf := FindCrlf(body, pos);
    HeaderAt(body, pos, crlf);
    if crlf.None? {
      return Stop(TruncatedHeader);
    }
    var k := crlf.value;
    var size := SizeOf(body[pos..k]);
    if size.Failure? {
      return Stop(size.error);
    }
    if size.value == 0 {
      return Zero(body[k + 2..]);
    }
    t := ReadData(body, pos, k, size.value);
  }

  method ReadData(body: Bytes, pos: nat, k: nat, size: nat) returns (t: Turn)
    requires pos < |body| && FirstCrlf(body, pos, Some(k)) && SizeOf(body[pos..k]) == Success(size) && size > 0
    ensures TurnAt(body, pos, t)
  {
    hide SizeOf, ParseFrames;
    var dataStart := k + 2;
    var dataEnd := dataStart + size;
    FrameAt(body, pos, k, size);
    if dataEnd + 2 > |body| || !CrlfAt(body, dataEnd) {
      return Stop(TruncatedData);
    }
    return Data(Frame(body[pos..k], body[dataStart..dataEnd]), dataEnd + 2);
  }

  /** The frames read so far, and what the unread tail still parses to. */
  ghost predicate Walked(body: Bytes, pos: nat, frames: seq<Frame>, chunks: seq<Bytes>) {
    && pos <= |body|
    && ParseFrames(body) == Prepend(frames, ParseFrames(body[pos..]))
    && chunks == Chunks(frames)
  }

  lemma WalkStart(body: Bytes)
    ensures Walked(body, 0, [], [])
  {
    assert body[0..] == body;
    if ParseFrames(body).Success? {
      var p := ParseFrames(body).value;
      assert [] + p.frames == p.frames;
    }
  }

  lemma WalkTurn(body: Bytes, pos: nat, frames: seq<Frame>, chunks: seq<Bytes>, t: Turn)
    requires pos < |body| && Walked(body, pos, frames, chunks) && TurnAt(body, pos, t)
    ensures t.Stop? ==> ParseFrames(body) == Failure(t.error)
    ensures t.Zero? ==>
              ParseFrames(body).Success?
              && chunks == Chunks(ParseFrames(body).value.frames) && ParseFrames(body).value.trailer == t.trailer
    ensures t.Data? ==> Walked(body, t.next, frames + [t.frame], chunks + [t.frame.data])
  {
    match t
    case Stop(_) =>
    case Zero(_) =>
      assert frames + [] == frames;
    case Data(f, next) =>
      PrependFrames(frames, [f], ParseFrames(body[next..]));
      assert (frames + [f])[..|frames|] == frames;
  }

  /** What the walk returns on success: the chunks and the bytes after the zero frame. */
  method WalkFrames(body: Bytes) returns (r: Result<(seq<Bytes>, Bytes), Error>)
    ensures match ParseFrames(body)
            case Failure(e) => r == Failure(e)
            case Success(p) => r == Success((Chunks(p.frames), p.trailer))
  {
    var chunks: seq<Bytes> := [];
    ghost var frames: seq<Frame> := [];
    var pos := 0;
    WalkStart(body);
    while pos < |body|
      invariant Walked(body, pos, frames, chunks)
      decreases |body| - pos
    {
      var turn := ReadFrame(body, pos);
      WalkTurn(body, pos, frames, chunks, turn);
      match turn
      case Stop(e) =>
        return Failure(e);
      case Zero(trailer) =>
        return Success((chunks, trailer));
      case Data(f, next) =>
        chunks := chunks + [f.data];
        frames := frames + [f];
        pos := next;
    }
    return Failure(MissingTerminator);
  }

  method CollectFields(lines: seq<Bytes>, text: Bytes -> string) returns (r: Result<Headers, Error>)
    ensures r == Fields(lines, text)
  {
    var values: Headers := map[];
    var i := 0;
    while i < |lines|
      invariant 0 <= i <= |lines|
      invariant Fields(lines[..i], text) == Success(values)
    {
      assert lines[..i + 1][..i] == lines[..i];
      var field := TrailerField(lines[i]);
      if field.Failure? {
        FieldsFailure(lines, text, i + 1);
        return Failure(field.error);
      }
      if field.value.name !in values {
        values := values[field.value.name := text(field.value.value)];
      }
      i := i + 1;
    }
    assert lines[..i] == lines;
    return Success(values);
  }

  lemma {:induction false} FieldsFailure(lines: seq<Bytes>, text: Bytes -> string, m: nat)
    requires m <= |lines| && Fields(lines[..m], text).Failure?
    ensures Fields(lines, text) == Fields(lines[..m], text)
    decreases |lines|
  {
    if m < |lines| {
      assert lines[..|lines| - 1][..m] == lines[..m];
      FieldsFailure(lines[..|lines| - 1], text, m);
    } else {
      assert lines[..m] == lines;
    }
  }

  /** A request whose header dictionary the decoder edits in place. */
  class Request {
    var headers: Headers

    constructor (headers: Headers)
      ensures this.headers == headers
    {
      this.headers := headers;
    }

    /** The index walk agrees with the slicing parser; a rejected body leaves the headers alone. */
    method DecodeBody(body: Bytes, text: Bytes -> string) returns (r: Result<Bytes, Error>)
      modifies this
      ensures match Decode(body, old(headers), text)
              case Failure(e) => r == Failure(e) && headers == old(headers)
              case Success(d) => r == Success(d.body) && headers == d.headers
    {
      if !IsChunked(headers) {
        return Success(body);
      }
      var walked := WalkFrames(body);
      if walked.Failure? {
        return Failure(walked.error);
      }
      var (chunks, trailer) := walked.value;
      ghost var p := ParseFrames(body).value;
      var lines := TrailerLines(trailer);
      if lines.Failure? {
        return Failure(lines.error);
      }
      var trailers := CollectFields(lines.value, text);
      if trailers.Failure? {
        return Failure(trailers.error);
      }
      if !(Announced(headers) <= trailers.value.Keys) {
        return Failure(MissingAnnouncedTrailer);
      }
      var decoded := Joined(chunks);
      JoinedChunks(p.frames);
      var wrong := CheckLength(headers, decoded);
      if wrong.Some? {
        return Failure(wrong.value);
      }
      headers := LiftTrailers(headers, trailers.value);
      return Success(decoded);
    }
  }
}
