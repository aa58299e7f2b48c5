/**
 * The decoder inside `handleSend`'s reader loop. Each chunk read from the
 * response body is split on '\n' by itself (nothing is carried over to the
 * next chunk); every trimmed, non-empty line that starts with `data:` carries
 * a payload that is either the `[DONE]` marker or JSON whose
 * `choices[0].delta.content` is the next piece of the reply.
 * `JSON.parse` plus the optional chaining is an oracle `parse` from the
 * payload to the token: `None` when parsing throws, `Some("")` when the
 * token is missing or empty.
 */
module Stream {
  import opened Options
  import opened Text

  const DataPrefix: string := "data:"
  const DoneMarker: string := "[DONE]"

  /** What one line is to the loop. */
  datatype Frame = NotData | Sentinel | Skippable | Delta(text: string)

  /** One result of `reader.read()`: a decoded chunk, or a read that throws. */
  datatype Read = Chunk(text: string) | Broken

  /** The loop's two variables: `fullMessage` and `done`. */
  datatype Decoder = Decoder(text: string, done: bool)

  /** How the loop ends: it runs to its end, or a read throws (with the text so far). */
  datatype StreamEnd = Finished(text: string) | Failed(text: string)

  const Start: Decoder := Decoder("", false)

  /** `chunk.split("\n").map(l => l.trim()).filter(l => l !== "")`. */
  function Lines(chunk: string): seq<string> {
    NonEmptyTrims(Split(chunk, '\n'))
  }

  function NonEmptyTrims(pieces: seq<string>): seq<string> {
    if pieces == [] then [] else Kept(pieces[0]) + NonEmptyTrims(pieces[1..])
  }

  /** The trimmed piece, or nothing when it trims to the empty string. */
  function Kept(piece: string): seq<string> {
    var t := Trim(piece);
    if t == [] then [] else [t]
  }

  predicate LinesShaped(ls: seq<string>) {
    forall i :: 0 <= i < |ls| ==> ls[i] != [] && Trimmed(ls[i])
  }

  /** Every line the loop looks at is non-empty and has no white space at either end. */
  lemma {:induction false} NonEmptyTrimsShape(pieces: seq<string>)
    ensures LinesShaped(NonEmptyTrims(pieces))
  {
    if pieces != [] {
      NonEmptyTrimsShape(pieces[1..]);
      TrimShape(pieces[0]);
      var k, tail := Kept(pieces[0]), NonEmptyTrims(pieces[1..]);
      var all := NonEmptyTrims(pieces);
      assert all == k + tail;
      forall i | 0 <= i < |all| ensures all[i] != [] && Trimmed(all[i]) {
        if i >= |k| {
          assert all[i] == tail[i - |k|];
        } else {
          assert k == [Trim(pieces[0])] && all[i] == Trim(pieces[0]);
        }
      }
    }
  }

  /** `line.replace("data:", "").trim()` for a line that starts with `data:`. */
  function Payload(line: string): string
    requires StartsWith(line, DataPrefix)
  {
    Trim(line[|DataPrefix|..])
  }

  /** The loop body's decision for one line. */
  function Classify(line: string, parse: string -> Option<string>): (f: Frame)
    ensures f.Delta? ==> f.text != []
    ensures f != NotData <==> StartsWith(line, DataPrefix)
  {
    if !StartsWith(line, DataPrefix) then NotData
    else
      var data := Payload(line);
      if data == DoneMarker then Sentinel
      else match parse(data)
        case None => Skippable
        case Some(token) => if token == [] then Skippable else Delta(token)
  }

  /**
   * Every case of the loop body for one line: `[DONE]`, a payload that does
   * not parse or carries no token, and a token.
   */
  lemma ClassifyCases(line: string, parse: string -> Option<string>)
    ensures var f := Classify(line, parse);
      && (f == Sentinel <==> StartsWith(line, DataPrefix) && Payload(line) == DoneMarker)
      && (f == Skippable <==>
            StartsWith(line, DataPrefix) && Payload(line) != DoneMarker &&
            (parse(Payload(line)).None? || parse(Payload(line)) == Some("")))
      && (f.Delta? <==>
            StartsWith(line, DataPrefix) && Payload(line) != DoneMarker &&
            parse(Payload(line)).Some? && parse(Payload(line)).value != [])
      && (f.Delta? ==> parse(Payload(line)) == Some(f.text))
  {
  }

  /** The effect of one frame: `[DONE]` sets `done`, a token is appended to `fullMessage`. */
  function Step(d: Decoder, f: Frame): Decoder {
    match f
    case Sentinel => d.(done := true)
    case Delta(t) => d.(text := d.text + t)
    case _ => d
  }

  /** The inner `for` over the lines of one chunk, left with `break` once `done` is set. */
  function ScanFrom(d: Decoder, lines: seq<string>, parse: string -> Option<string>): (r: Decoder)
    ensures d.done ==> r == d
    ensures StartsWith(r.text, d.text)
    decreases |lines|
  {
    if d.done || lines == [] then d
    else
      var d' := Step(d, Classify(lines[0], parse));
      var r := ScanFrom(d', lines[1..], parse);
      StartsWithTrans(r.text, d'.text, d.text);
      r
  }

  /** One turn of the inner `for` on a decoder that is not done. */
  lemma ScanFromCons(d: Decoder, lines: seq<string>, parse: string -> Option<string>)
    requires !d.done && lines != []
    ensures ScanFrom(d, lines, parse) == ScanFrom(Step(d, Classify(lines[0], parse)), lines[1..], parse)
  {
  }

  /** The loop body for one chunk. */
  function Feed(d: Decoder, chunk: string, parse: string -> Option<string>): Decoder {
    ScanFrom(d, Lines(chunk), parse)
  }

  /**
   * `while (!done)`: reads until a `[DONE]` line, the end of the body (which
   * sets `done` and yields an empty chunk), or a read that throws.
   */
  function Drain(d: Decoder, body: seq<Read>, parse: string -> Option<string>): (r: StreamEnd)
    ensures StartsWith(r.text, d.text)
    decreases |body|
  {
    if d.done || body == [] then Finished(d.text)
    else match body[0]
      case Broken => Failed(d.text)
      case Chunk(c) =>
        var d' := Feed(d, c, parse);
        var r := Drain(d', body[1..], parse);
        StartsWithTrans(r.text, d'.text, d.text);
        r
  }

  // ---------------------------------------------------------------------------
  // An independent description: the frames of the body, in order

  function Frames(lines: seq<string>, parse: string -> Option<string>): (fs: seq<Frame>)
    ensures |fs| == |lines|
  {
    if lines == [] then [] else [Classify(lines[0], parse)] + Frames(lines[1..], parse)
  }

  /** All frames of the chunks read before the first read that throws. */
  function StreamFrames(body: seq<Read>, parse: string -> Option<string>): seq<Frame> {
    if body == [] then []
    else match body[0]
      case Broken => []
      case Chunk(c) => Frames(Lines(c), parse) + StreamFrames(body[1..], parse)
  }

  /** The tokens of the frames before the first `[DONE]`, in order. */
  function Deltas(fs: seq<Frame>): seq<string> {
    if fs == [] then []
    else match fs[0]
      case Sentinel => []
      case Delta(t) => [t] + Deltas(fs[1..])
      case _ => Deltas(fs[1..])
  }

  function Concat(ts: seq<string>): string {
    if ts == [] then [] else ts[0] + Concat(ts[1..])
  }

  lemma {:induction false} ConcatAppend(x: seq<string>, y: seq<string>)
    ensures Concat(x + y) == Concat(x) + Concat(y)
  {
    if x != [] {
      ConcatAppend(x[1..], y);
      assert (x + y)[1..] == x[1..] + y;
      assert Concat(x + y) == x[0] + Concat(x[1..] + y);
    } else {
      assert x + y == y;
    }
  }

  lemma {:induction false} DeltasAppend(a: seq<Frame>, b: seq<Frame>)
    ensures Sentinel !in a ==> Deltas(a + b) == Deltas(a) + Deltas(b)
    ensures Sentinel in a ==> Deltas(a + b) == Deltas(a)
  {
    if a != [] {
      DeltasAppend(a[1..], b);
      assert (a + b)[1..] == a[1..] + b;
      assert (a + b)[0] == a[0];
    } else {
      assert a + b == b;
    }
  }

  /**
   * After one chunk the accumulator is the old one followed by the tokens of
   * the chunk's frames before its first `[DONE]`, and `done` is set exactly
   * when the chunk has a `[DONE]` line.
   */
  lemma {:induction false} ScanSpec(a: string, lines: seq<string>, parse: string -> Option<string>)
    ensures var fs := Frames(lines, parse);
      ScanFrom(Decoder(a, false), lines, parse) == Decoder(a + Concat(Deltas(fs)), Sentinel in fs)
    decreases |lines|
  {
    var fs := Frames(lines, parse);
    if lines != [] {
      var f := Classify(lines[0], parse);
      assert fs == [f] + Frames(lines[1..], parse);
      assert fs[1..] == Frames(lines[1..], parse);
      match f
      case Sentinel =>
      case Delta(t) =>
        ScanSpec(a + t, lines[1..], parse);
        assert a + t + Concat(Deltas(fs[1..])) == a + (t + Concat(Deltas(fs[1..])));
      case NotData =>
        ScanSpec(a, lines[1..], parse);
      case Skippable =>
        ScanSpec(a, lines[1..], parse);
    }
  }

  lemma BrokenInTail(body: seq<Read>)
    requires body != [] && body[0].Chunk?
    ensures Broken in body <==> Broken in body[1..]
  {
    assert body == [body[0]] + body[1..];
  }

  /** One turn of the reader loop on a chunk, in terms of the chunk's frames. */
  lemma DrainChunk(a: string, body: seq<Read>, parse: string -> Option<string>)
    requires body != [] && body[0].Chunk?
    ensures var f1 := Frames(Lines(body[0].text), parse);
      var a' := a + Concat(Deltas(f1));
      && StreamFrames(body, parse) == f1 + StreamFrames(body[1..], parse)
      && Drain(Decoder(a, false), body, parse) ==
           if Sentinel in f1 then Finished(a') else Drain(Decoder(a', false), body[1..], parse)
  {
    ScanSpec(a, Lines(body[0].text), parse);
  }

  /**
   * The whole stream: the reply text is the concatenation, in order, of every
   * non-empty token the body carried before the first `[DONE]` and before the
   * first read that throws; the stream fails exactly when a read throws before
   * any `[DONE]` line was seen.
   */
  lemma {:induction false} DrainSpec(a: string, body: seq<Read>, parse: string -> Option<string>)
    ensures var fs := StreamFrames(body, parse);
      var t := a + Concat(Deltas(fs));
      Drain(Decoder(a, false), body, parse) ==
        if Sentinel in fs || Broken !in body then Finished(t) else Failed(t)
    decreases |body|
  {
    if body != [] && body[0].Chunk? {
      var f1 := Frames(Lines(body[0].text), parse);
      var rest := StreamFrames(body[1..], parse);
      var fs := f1 + rest;
      var a' := a + Concat(Deltas(f1));
      DrainChunk(a, body, parse);
      DeltasAppend(f1, rest);
      BrokenInTail(body);
      if Sentinel !in f1 {
        assert Sentinel in fs <==> Sentinel in rest;
        DrainSpec(a', body[1..], parse);
        var x, y := Concat(Deltas(f1)), Concat(Deltas(rest));
        assert Concat(Deltas(fs)) == x + y by {
          ConcatAppend(Deltas(f1), Deltas(rest));
        }
        AppendAssoc(a, x, y);
      }
    }
  }

  // ---------------------------------------------------------------------------
  // How lines and chunks compose

  lemma {:induction false} NonEmptyTrimsAppend(p: seq<string>, q: seq<string>)
    ensures NonEmptyTrims(p + q) == NonEmptyTrims(p) + NonEmptyTrims(q)
  {
    if p == [] {
      assert p + q == q;
    } else {
      NonEmptyTrimsAppend(p[1..], q);
      assert (p + q)[1..] == p[1..] + q && (p + q)[0] == p[0];
      var k := Kept(p[0]);
      assert NonEmptyTrims(p + q) == k + (NonEmptyTrims(p[1..]) + NonEmptyTrims(q));
      AppendAssoc(k, NonEmptyTrims(p[1..]), NonEmptyTrims(q));
    }
  }

  /** A newline inside a chunk separates its lines exactly as a chunk boundary after a newline would. */
  lemma LinesAtNewline(a: string, b: string)
    ensures Lines(a + "\n" + b) == Lines(a) + Lines(b)
  {
    SplitAtSep(a, b, '\n');
    NonEmptyTrimsAppend(Split(a, '\n'), Split(b, '\n'));
  }

  lemma {:induction false} ScanFromAppend(d: Decoder, p: seq<string>, q: seq<string>, parse: string -> Option<string>)
    ensures ScanFrom(d, p + q, parse) == ScanFrom(ScanFrom(d, p, parse), q, parse)
    decreases |p|
  {
    if p == [] {
      assert p + q == q;
    } else if !d.done {
      var d' := Step(d, Classify(p[0], parse));
      ScanFromAppend(d', p[1..], q, parse);
      assert (p + q)[1..] == p[1..] + q && (p + q)[0] == p[0];
      assert ScanFrom(d, p + q, parse) == ScanFrom(d', p[1..] + q, parse);
      assert ScanFrom(d, p, parse) == ScanFrom(d', p[1..], parse);
    }
  }

  /**
   * Feeding `a` and then `b` as two chunks is feeding `a + "\n" + b` as one:
   * splitting a body between chunks is harmless when the split falls right after a newline.
   */
  lemma FeedAtNewline(d: Decoder, a: string, b: string, parse: string -> Option<string>)
    ensures Feed(Feed(d, a, parse), b, parse) == Feed(d, a + "\n" + b, parse)
  {
    LinesAtNewline(a, b);
    ScanFromAppend(d, Lines(a), Lines(b), parse);
  }

  /**
   * A chunk that ends in a newline, followed by another chunk, decodes like
   * the two joined into one: a body cut right after a newline loses nothing.
   */
  lemma FeedAfterNewline(d: Decoder, a: string, b: string, parse: string -> Option<string>)
    ensures Feed(Feed(d, a + "\n", parse), b, parse) == Feed(d, a + "\n" + b, parse)
  {
    LinesAtNewline(a, "");
    assert a + "\n" + "" == a + "\n";
    assert Lines("") == [] by {
      assert Split("", '\n') == [""];
      assert Kept("") == [];
    }
    assert Lines(a) + [] == Lines(a);
    FeedAtNewline(d, a, b, parse);
  }

  /**
   * A line that is not a `data:` line, or whose payload does not parse or
   * carries no token, changes nothing and does not stop the scan.
   */
  lemma InertLine(d: Decoder, p: seq<string>, line: string, q: seq<string>, parse: string -> Option<string>)
    requires Classify(line, parse) == NotData || Classify(line, parse) == Skippable
    ensures ScanFrom(d, p + [line] + q, parse) == ScanFrom(d, p + q, parse)
  {
    ScanFromAppend(d, p + [line], q, parse);
    ScanFromAppend(d, p, [line], parse);
    ScanFromAppend(d, p, q, parse);
  }

  /** A `[DONE]` line ends the scan: nothing after it in the chunk is looked at. */
  lemma SentinelStops(d: Decoder, p: seq<string>, line: string, q: seq<string>, parse: string -> Option<string>)
    requires Classify(line, parse) == Sentinel
    ensures ScanFrom(d, p + [line] + q, parse).done
    ensures ScanFrom(d, p + [line] + q, parse) == ScanFrom(d, p + [line], parse)
  {
    ScanFromAppend(d, p + [line], q, parse);
    ScanFromAppend(d, p, [line], parse);
  }

  /** Once a chunk has set `done`, the loop ends: later reads, even failing ones, are never made. */
  lemma DoneEndsLoop(d: Decoder, c: string, rest: seq<Read>, parse: string -> Option<string>)
    requires !d.done && Feed(d, c, parse).done
    ensures Drain(d, [Chunk(c)] + rest, parse) == Finished(Feed(d, c, parse).text)
  {
  }

  // ---------------------------------------------------------------------------
  // Worked examples

  /** A chunk holding one `data: ` frame and the blank line that ends it, as the server sends it. */
  function FrameChunk(payload: string): string {
    "data: " + payload + "\n\n"
  }

  /** A `data: ` line with a non-blank, trimmed payload survives trimming and yields that payload. */
  lemma DataLine(payload: string)
    requires payload != [] && Trimmed(payload)
    ensures var line := "data: " + payload;
      Trim(line) == line && StartsWith(line, DataPrefix) && Payload(line) == payload
  {
    var line := "data: " + payload;
    assert line[0] == 'd' && line[|line| - 1] == payload[|payload| - 1];
    TrimOfTrimmed(line);
    assert line[..|DataPrefix|] == DataPrefix;
    assert line[|DataPrefix|..] == [' '] + payload;
    TrimAfterSpace(' ', payload);
  }

  /** The lines of a chunk that carries one `data: ` frame followed by a blank line. */
  lemma FrameChunkLines(payload: string)
    requires payload != [] && Trimmed(payload) && '\n' !in payload
    ensures Lines(FrameChunk(payload)) == ["data: " + payload]
  {
    var line := "data: " + payload;
    assert '\n' !in line by {
      assert forall i :: 6 <= i < |line| ==> line[i] == payload[i - 6];
    }
    assert FrameChunk(payload) == line + ['\n'] + "\n";
    SplitPieceThenSep(line, "\n", '\n');
    assert "\n" == [] + ['\n'] + [];
    SplitPieceThenSep([], [], '\n');
    assert Split([], '\n') == [""];
    var pieces := [line, "", ""];
    assert Split(FrameChunk(payload), '\n') == pieces;
    DataLine(payload);
    assert Kept("") == [] && Kept(line) == [line];
    assert pieces[1..] == ["", ""] && pieces[2..] == [""];
    assert NonEmptyTrims(pieces[2..]) == [];
    assert NonEmptyTrims(pieces[1..]) == [];
  }

  /** Feeding a one-frame chunk to a running decoder applies that frame's step. */
  lemma FeedFrame(d: Decoder, payload: string, parse: string -> Option<string>)
    requires !d.done && payload != [] && Trimmed(payload) && '\n' !in payload
    ensures Feed(d, FrameChunk(payload), parse) == Step(d, Classify("data: " + payload, parse))
    ensures Payload("data: " + payload) == payload
  {
    FrameChunkLines(payload);
    DataLine(payload);
    var d' := Step(d, Classify("data: " + payload, parse));
    var ls := Lines(FrameChunk(payload));
    assert ls[1..] == [];
    assert ScanFrom(d, ls, parse) == ScanFrom(d', ls[1..], parse);
  }

  /** A frame with a non-empty token appends the token and keeps the loop going. */
  lemma FeedToken(d: Decoder, payload: string, parse: string -> Option<string>, token: string)
    requires !d.done && payload != [] && Trimmed(payload) && '\n' !in payload && payload != DoneMarker
    requires parse(payload) == Some(token) && token != []
    ensures Feed(d, FrameChunk(payload), parse) == Decoder(d.text + token, false)
  {
    FeedFrame(d, payload, parse);
  }

  /** A frame whose payload does not parse, or parses to no token, is skipped. */
  lemma FeedSkip(d: Decoder, payload: string, parse: string -> Option<string>)
    requires !d.done && payload != [] && Trimmed(payload) && '\n' !in payload && payload != DoneMarker
    requires parse(payload).None? || parse(payload) == Some("")
    ensures Feed(d, FrameChunk(payload), parse) == d
  {
    FeedFrame(d, payload, parse);
  }

  lemma DoneFacts()
    ensures DoneMarker != [] && Trimmed(DoneMarker) && '\n' !in DoneMarker
  {
    assert DoneMarker[0] == '[' && DoneMarker[|DoneMarker| - 1] == ']';
  }

  /** The terminator frame ends the loop and leaves the text as it is. */
  lemma FeedDone(d: Decoder, parse: string -> Option<string>)
    requires !d.done
    ensures Feed(d, FrameChunk(DoneMarker), parse) == Decoder(d.text, true)
  {
    DoneFacts();
    FeedFrame(d, DoneMarker, parse);
  }

  /**
   * Two token frames and the terminator, one per chunk, assemble to the two
   * tokens in order; a body holding only the terminator gives an empty reply,
   * not an error.
   */
  lemma TokensThenDone(p1: string, t1: string, p2: string, t2: string, parse: string -> Option<string>)
    requires p1 != [] && Trimmed(p1) && '\n' !in p1 && p1 != DoneMarker && parse(p1) == Some(t1) && t1 != []
    requires p2 != [] && Trimmed(p2) && '\n' !in p2 && p2 != DoneMarker && parse(p2) == Some(t2) && t2 != []
    ensures Drain(Start, [Chunk(FrameChunk(p1)), Chunk(FrameChunk(p2)), Chunk(FrameChunk(DoneMarker))], parse)
            == Finished(t1 + t2)
    ensures Drain(Start, [Chunk(FrameChunk(DoneMarker))], parse) == Finished("")
  {
    var c1, c2, c3 := Chunk(FrameChunk(p1)), Chunk(FrameChunk(p2)), Chunk(FrameChunk(DoneMarker));
    FeedToken(Start, p1, parse, t1);
    assert "" + t1 == t1;
    FeedToken(Decoder(t1, false), p2, parse, t2);
    FeedDone(Decoder(t1 + t2, false), parse);
    FeedDone(Start, parse);
    assert [c3][1..] == [];
    assert Drain(Decoder(t1 + t2, false), [c3], parse) == Finished(t1 + t2);
    assert [c2, c3][1..] == [c3];
    assert Drain(Decoder(t1, false), [c2, c3], parse) == Finished(t1 + t2);
    assert [c1, c2, c3][1..] == [c2, c3];
  }
}
