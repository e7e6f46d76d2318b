/// What an encoding does to a sink, as values.
///
/// An encodable talks to its encoder only through `put_slice`, `put_byte`
/// and `put_str` (`src/lib.rs:105-138`), stopping at the first error with `?`.
/// So what it does is fully described by a `Trace`: the chunks it hands to the
/// encoder, in order, and the verdict it reaches itself if every write
/// succeeds. A `Sink` is the observable state of an encoder, `Put` is one
/// write, and `Run` plays a trace into a sink, stopping at the first write
/// that fails. The imperative encoders (module `Encoders`) are proved to move
/// exactly as `Put` says; everything else is proved about traces.
module Encoding {
  import opened Utf8
  import opened Errors

  /// One write: `put_slice`/`put_byte` hand over raw bytes, `put_str` text.
  datatype Chunk = Raw(bytes: seq<u8>) | Text(text: string)

  /// The bytes a chunk stands for. A byte encoder receives `put_str(s)` as
  /// `s.as_bytes()` written with `put_slice` (`src/lib.rs:164-172`).
  function ChunkBytes(c: Chunk): seq<u8>
  {
    match c
    case Raw(bytes) => bytes
    case Text(text) => Utf8.Encode(text)
  }

  /// The verdict of an encoding: `Ok(())` or `Err(e)`.
  datatype Outcome = Pass | Fail(error: Error)

  /// The writes an encoding performs and the verdict it reaches when none of
  /// them fails.
  datatype Trace = Trace(chunks: seq<Chunk>, stop: Outcome)

  /// Writes nothing and succeeds.
  function Done(): Trace
  {
    Trace([], Pass)
  }

  /// One write, then success.
  function Emit(c: Chunk): Trace
  {
    Trace([c], Pass)
  }

  /// Fails with `e` before writing anything.
  function Failed(e: Error): Trace
  {
    Trace([], Fail(e))
  }

  /// `p?; q`: run `p`, and only if it succeeds, run `q`.
  function Then(p: Trace, q: Trace): (r: Trace)
    ensures p.stop.Fail? ==> r == p
    ensures p.stop.Pass? ==> r.chunks == p.chunks + q.chunks && r.stop == q.stop
  {
    if p.stop.Fail? then p else Trace(p.chunks + q.chunks, q.stop)
  }

  /// All bytes of a sequence of writes, in order.
  function Output(cs: seq<Chunk>): seq<u8>
  {
    if cs == [] then [] else ChunkBytes(cs[0]) + Output(cs[1..])
  }

  predicate AllText(cs: seq<Chunk>)
  {
    forall i :: 0 <= i < |cs| ==> cs[i].Text?
  }

  /// All text of a sequence of `put_str` writes, in order.
  function TextOutput(cs: seq<Chunk>): string
    requires AllText(cs)
  {
    if cs == [] then [] else cs[0].text + TextOutput(cs[1..])
  }

  /// The observable state of each encoder in scope:
  /// `SizeEncoder`'s count (`src/encoders/size.rs:31-33`); a `&mut [u8]`
  /// window, as the whole underlying buffer and the bounds `[pos, end)` of the
  /// part still available (`src/encoders/slices.rs`); a `Vec<u8>`'s contents;
  /// a `String`'s text (`src/encoders/alloc.rs`); and `()`, which has none.
  datatype Sink =
    | SizeSink(count: nat)
    | WindowSink(buf: seq<u8>, pos: nat, end: nat)
    | VecSink(contents: seq<u8>)
    | TextSink(text: string)
    | UnitSink

  predicate SinkValid(s: Sink)
  {
    s.WindowSink? ==> s.pos <= s.end <= |s.buf|
  }

  /// A sink can take a sequence of writes: a `String` is only a `StrEncoder`,
  /// so everything written to it must be text.
  predicate CanTake(s: Sink, cs: seq<Chunk>)
  {
    SinkValid(s) && (s.TextSink? ==> AllText(cs))
  }

  /// A sink after a write, and the write's verdict.
  datatype Step = Step(sink: Sink, outcome: Outcome)

  /// One write into a sink.
  function Put(s: Sink, c: Chunk): (r: Step)
    requires CanTake(s, [c])
    ensures SinkValid(r.sink) && s.TextSink? == r.sink.TextSink?
  {
    var bytes := ChunkBytes(c);
    match s
    case SizeSink(count) =>
      Step(SizeSink(count + |bytes|), Pass)
    case WindowSink(buf, pos, end) =>
      if |bytes| <= end - pos then
        Step(WindowSink(buf[..pos] + bytes + buf[pos + |bytes|..], pos + |bytes|, end), Pass)
      else
        Step(WindowSink(buf, end, end), Fail(InsufficientSpace))
    case VecSink(contents) =>
      Step(VecSink(contents + bytes), Pass)
    case TextSink(text) =>
      assert c in [c];
      Step(TextSink(text + c.text), Pass)
    case UnitSink =>
      Step(UnitSink, Pass)
  }

  /// Writes the chunks one by one, stopping at the first that fails.
  function RunChunks(s: Sink, cs: seq<Chunk>): (r: Step)
    requires CanTake(s, cs)
    ensures SinkValid(r.sink) && s.TextSink? == r.sink.TextSink?
    decreases |cs|
  {
    if cs == [] then
      Step(s, Pass)
    else
      var st := Put(s, cs[0]);
      if st.outcome.Fail? then st else RunChunks(st.sink, cs[1..])
  }

  /// Plays a whole trace: its writes, then its own verdict if they all
  /// succeed, as `?` does. The run succeeds only if the encoding does, and an
  /// encoding that writes nothing leaves the sink as it was.
  function Run(s: Sink, t: Trace): (r: Step)
    requires CanTake(s, t.chunks)
    ensures SinkValid(r.sink) && s.TextSink? == r.sink.TextSink?
    ensures r.outcome.Pass? ==> t.stop.Pass?
    ensures t.chunks == [] ==> r == Step(s, t.stop)
  {
    var st := RunChunks(s, t.chunks);
    if st.outcome.Fail? then st else Step(st.sink, t.stop)
  }

  // ---- Properties of traces ----------------------------------------------

  lemma {:induction false} OutputAppend(a: seq<Chunk>, b: seq<Chunk>)
    ensures Output(a + b) == Output(a) + Output(b)
  {
    if a == [] {
      assert a + b == b;
    } else {
      assert (a + b)[1..] == a[1..] + b;
      OutputAppend(a[1..], b);
    }
  }

  lemma {:induction false} TextOutputAppend(a: seq<Chunk>, b: seq<Chunk>)
    requires AllText(a) && AllText(b)
    ensures AllText(a + b)
    ensures TextOutput(a + b) == TextOutput(a) + TextOutput(b)
  {
    if a == [] {
      assert a + b == b;
    } else {
      assert (a + b)[1..] == a[1..] + b;
      TextOutputAppend(a[1..], b);
    }
  }

  /// A `put_str` sequence gives a byte encoder the UTF-8 bytes of its text.
  lemma {:induction false} OutputOfText(cs: seq<Chunk>)
    requires AllText(cs)
    ensures Output(cs) == Utf8.Encode(TextOutput(cs))
  {
    if cs != [] {
      OutputOfText(cs[1..]);
      Utf8.EncodeAppend(cs[0].text, TextOutput(cs[1..]));
    }
  }

  /// `Then` is associative, so `(a, (b, c))` and `((a, b), c)` write alike.
  lemma ThenAssociative(p: Trace, q: Trace, r: Trace)
    ensures Then(Then(p, q), r) == Then(p, Then(q, r))
  {
    if p.stop.Pass? && q.stop.Pass? {
      assert (p.chunks + q.chunks) + r.chunks == p.chunks + (q.chunks + r.chunks);
    }
  }

  /// `Done` is neutral for `Then`.
  lemma ThenDone(p: Trace)
    ensures Then(Done(), p) == p
    ensures p.stop.Pass? ==> Then(p, Done()) == p
  {
    assert [] + p.chunks == p.chunks;
    assert p.chunks + [] == p.chunks;
  }

  // ---- Running a trace ----------------------------------------------------

  /// Running a prefix then a suffix is running the whole sequence.
  lemma {:induction false} RunChunksAppend(s: Sink, a: seq<Chunk>, b: seq<Chunk>)
    requires CanTake(s, a + b)
    ensures CanTake(s, a) && CanTake(s, b)
    ensures var st := RunChunks(s, a);
      CanTake(st.sink, b) &&
      RunChunks(s, a + b) == if st.outcome.Fail? then st else RunChunks(st.sink, b)
    decreases |a|
  {
    assert forall i :: 0 <= i < |a| ==> a[i] == (a + b)[i];
    assert forall i :: 0 <= i < |b| ==> b[i] == (a + b)[|a| + i];
    if a == [] {
      assert a + b == b;
    } else {
      assert (a + b)[0] == a[0];
      assert (a + b)[1..] == a[1..] + b;
      var st := Put(s, a[0]);
      if st.outcome.Pass? {
        RunChunksAppend(st.sink, a[1..], b);
      }
    }
  }

  /// Running `p?; q` runs `p`, then `q` on what `p` left, unless `p` or one
  /// of its writes failed: the sequencing every tuple, iterator and
  /// combinator in the library performs with `?`.
  lemma RunThen(s: Sink, p: Trace, q: Trace)
    requires CanTake(s, Then(p, q).chunks)
    ensures CanTake(s, p.chunks)
    ensures var st := Run(s, p);
      (st.outcome.Pass? ==> CanTake(st.sink, q.chunks)) &&
      Run(s, Then(p, q)) == if st.outcome.Fail? then st else Run(st.sink, q)
  {
    if p.stop.Pass? {
      RunChunksAppend(s, p.chunks, q.chunks);
    }
  }

  /// A method that is to end where `total` says is at sink `s` with the
  /// writes `t` still to perform.
  ghost predicate Resumes(total: Step, s: Sink, t: Trace)
  {
    CanTake(s, t.chunks) && total == Run(s, t)
  }

  /// One step of a method that performs `p?; q`: once the encoder has
  /// reached `after` with verdict `r` by performing `p`, the whole run either
  /// ended there (`r` failed) or goes on as `q` from `after`.
  lemma StepThen(total: Step, before: Sink, after: Sink, r: Outcome, p: Trace, q: Trace)
    requires CanTake(before, Then(p, q).chunks) && total == Run(before, Then(p, q))
    requires CanTake(before, p.chunks) && Step(after, r) == Run(before, p)
    ensures r.Fail? ==> total == Step(after, r)
    ensures r.Pass? ==> CanTake(after, q.chunks) && total == Run(after, q)
  {
    RunThen(before, p, q);
  }

  /// A single write is one `Put`.
  lemma RunEmit(s: Sink, c: Chunk)
    requires CanTake(s, [c])
    ensures Run(s, Emit(c)) == Put(s, c)
  {
    var st := Put(s, c);
    assert [c][0] == c && [c][1..] == [];
    assert RunChunks(s, [c]) == if st.outcome.Fail? then st else RunChunks(st.sink, []);
  }

  /// A `SizeEncoder` adds the number of bytes written and never fails: the
  /// verdict is the trace's own.
  lemma {:induction false} RunSize(n: nat, t: Trace)
    ensures Run(SizeSink(n), t) == Step(SizeSink(n + |Output(t.chunks)|), t.stop)
  {
    RunChunksSize(n, t.chunks);
  }

  lemma {:induction false} RunChunksSize(n: nat, cs: seq<Chunk>)
    ensures RunChunks(SizeSink(n), cs) == Step(SizeSink(n + |Output(cs)|), Pass)
    decreases |cs|
  {
    if cs != [] {
      RunChunksSize(n + |ChunkBytes(cs[0])|, cs[1..]);
    }
  }

  /// A `Vec<u8>` receives exactly the written bytes after its contents and
  /// never fails.
  lemma RunVec(v: seq<u8>, t: Trace)
    ensures Run(VecSink(v), t) == Step(VecSink(v + Output(t.chunks)), t.stop)
  {
    RunChunksVec(v, t.chunks);
  }

  lemma {:induction false} RunChunksVec(v: seq<u8>, cs: seq<Chunk>)
    ensures RunChunks(VecSink(v), cs) == Step(VecSink(v + Output(cs)), Pass)
    decreases |cs|
  {
    if cs != [] {
      RunChunksVec(v + ChunkBytes(cs[0]), cs[1..]);
      assert v + ChunkBytes(cs[0]) + Output(cs[1..]) == v + Output(cs);
    }
  }

  /// A `String` receives exactly the written text after its own.
  lemma RunText(x: string, t: Trace)
    requires AllText(t.chunks)
    ensures Run(TextSink(x), t) == Step(TextSink(x + TextOutput(t.chunks)), t.stop)
  {
    RunChunksText(x, t.chunks);
  }

  lemma {:induction false} RunChunksText(x: string, cs: seq<Chunk>)
    requires AllText(cs)
    ensures RunChunks(TextSink(x), cs) == Step(TextSink(x + TextOutput(cs)), Pass)
    decreases |cs|
  {
    if cs != [] {
      RunChunksText(x + cs[0].text, cs[1..]);
      assert x + cs[0].text + TextOutput(cs[1..]) == x + TextOutput(cs);
    }
  }

  /// `()` has no state and never fails: the verdict is the trace's own.
  lemma {:induction false} RunUnit(t: Trace)
    ensures Run(UnitSink, t) == Step(UnitSink, t.stop)
  {
    RunChunksUnit(t.chunks);
  }

  lemma {:induction false} RunChunksUnit(cs: seq<Chunk>)
    ensures RunChunks(UnitSink, cs) == Step(UnitSink, Pass)
    decreases |cs|
  {
    if cs != [] {
      RunChunksUnit(cs[1..]);
    }
  }

  /// The number of leading chunks whose bytes fit in `room` bytes together.
  function Fitting(cs: seq<Chunk>, room: nat): (k: nat)
    ensures k <= |cs| && |Output(cs[..k])| <= room
  {
    if cs == [] || |ChunkBytes(cs[0])| > room then
      assert cs[..0] == [];
      0
    else
      var k := Fitting(cs[1..], room - |ChunkBytes(cs[0])|);
      assert cs[..k + 1] == [cs[0]] + cs[1..][..k];
      OutputCons(cs[0], cs[1..][..k]);
      k + 1
  }

  lemma OutputCons(c: Chunk, cs: seq<Chunk>)
    ensures Output([c] + cs) == ChunkBytes(c) + Output(cs)
  {
    assert ([c] + cs)[1..] == cs;
  }

  /// `Fitting` is the longest prefix of the chunks whose bytes fit.
  lemma {:induction false} FittingIsLongest(cs: seq<Chunk>, room: nat)
    ensures var k := Fitting(cs, room);
      k < |cs| ==> |Output(cs[..k + 1])| > room
    decreases |cs|
  {
    var k := Fitting(cs, room);
    if cs == [] || |ChunkBytes(cs[0])| > room {
      assert cs[..0] == [];
      if cs != [] {
        assert cs[..1] == [cs[0]] + [];
        OutputCons(cs[0], []);
      }
    } else {
      var b := ChunkBytes(cs[0]);
      var rest := cs[1..];
      FittingIsLongest(rest, room - |b|);
      assert cs[..k] == [cs[0]] + rest[..k - 1];
      OutputCons(cs[0], rest[..k - 1]);
      if k < |cs| {
        assert cs[..k + 1] == [cs[0]] + rest[..k];
        OutputCons(cs[0], rest[..k]);
      }
    }
  }

  /// `buf` with `w` copied over it starting at `pos`.
  function Spliced(buf: seq<u8>, pos: nat, w: seq<u8>): (r: seq<u8>)
    requires pos + |w| <= |buf|
    ensures |r| == |buf| && r[pos..pos + |w|] == w
    ensures r[..pos] == buf[..pos] && r[pos + |w|..] == buf[pos + |w|..]
  {
    buf[..pos] + w + buf[pos + |w|..]
  }

  /// Where a window ends up after a sequence of writes, in closed form: the
  /// bytes of the chunks that fit are copied to the front of what remains of
  /// it. If every chunk fits, the window shrinks by their length. If one does
  /// not, the verdict is `InsufficientSpace`, the chunk that did not fit wrote
  /// nothing, and the window is left empty (`mem::take`).
  function WindowAfter(buf: seq<u8>, pos: nat, end: nat, cs: seq<Chunk>): Step
    requires pos <= end <= |buf|
  {
    var k := Fitting(cs, end - pos);
    var written := Output(cs[..k]);
    if k == |cs| then Step(WindowSink(Spliced(buf, pos, written), pos + |written|, end), Pass)
    else Step(WindowSink(Spliced(buf, pos, written), end, end), Fail(InsufficientSpace))
  }

  /// Running a trace into a window: `WindowAfter` its writes, and then the
  /// trace's own verdict if they all fit (`src/encoders/slices.rs:11-18`).
  lemma RunWindow(buf: seq<u8>, pos: nat, end: nat, t: Trace)
    requires pos <= end <= |buf|
    ensures var st := WindowAfter(buf, pos, end, t.chunks);
      Run(WindowSink(buf, pos, end), t) == if st.outcome.Fail? then st else Step(st.sink, t.stop)
  {
    RunChunksWindow(buf, pos, end, t.chunks);
  }

  lemma {:induction false} RunChunksWindow(buf: seq<u8>, pos: nat, end: nat, cs: seq<Chunk>)
    requires pos <= end <= |buf|
    ensures RunChunks(WindowSink(buf, pos, end), cs) == WindowAfter(buf, pos, end, cs)
    decreases |cs|
  {
    if cs == [] {
      WindowAfterNothing(buf, pos, end, cs);
    } else if |ChunkBytes(cs[0])| > end - pos {
      WindowAfterNothing(buf, pos, end, cs);
    } else {
      var b := ChunkBytes(cs[0]);
      RunChunksWindow(Spliced(buf, pos, b), pos + |b|, end, cs[1..]);
      WindowAfterStep(buf, pos, end, cs);
    }
  }

  /// No writes, or a first write that does not fit: the window keeps its
  /// bytes, and the failed write empties it.
  lemma WindowAfterNothing(buf: seq<u8>, pos: nat, end: nat, cs: seq<Chunk>)
    requires pos <= end <= |buf| && (cs == [] || |ChunkBytes(cs[0])| > end - pos)
    ensures RunChunks(WindowSink(buf, pos, end), cs) == WindowAfter(buf, pos, end, cs)
  {
    assert cs[..0] == [];
    assert Spliced(buf, pos, []) == buf;
  }

  /// A chunk that fits moves the window on by its length, and the rest of the
  /// writes continue from there.
  lemma WindowAfterStep(buf: seq<u8>, pos: nat, end: nat, cs: seq<Chunk>)
    requires pos <= end <= |buf| && cs != [] && |ChunkBytes(cs[0])| <= end - pos
    requires var b := ChunkBytes(cs[0]);
      RunChunks(WindowSink(Spliced(buf, pos, b), pos + |b|, end), cs[1..]) ==
      WindowAfter(Spliced(buf, pos, b), pos + |b|, end, cs[1..])
    ensures RunChunks(WindowSink(buf, pos, end), cs) == WindowAfter(buf, pos, end, cs)
  {
    WindowPut(buf, pos, end, cs[0]);
    WindowAfterCons(buf, pos, end, cs);
  }

  /// A chunk that fits is copied in at the window's front.
  lemma WindowPut(buf: seq<u8>, pos: nat, end: nat, c: Chunk)
    requires pos <= end <= |buf| && |ChunkBytes(c)| <= end - pos
    ensures Put(WindowSink(buf, pos, end), c) == Step(WindowSink(Spliced(buf, pos, ChunkBytes(c)), pos + |ChunkBytes(c)|, end), Pass)
  { }

  lemma WindowAfterCons(buf: seq<u8>, pos: nat, end: nat, cs: seq<Chunk>)
    requires pos <= end <= |buf| && cs != [] && |ChunkBytes(cs[0])| <= end - pos
    ensures var b := ChunkBytes(cs[0]);
      WindowAfter(buf, pos, end, cs) == WindowAfter(Spliced(buf, pos, b), pos + |b|, end, cs[1..])
  {
    var b := ChunkBytes(cs[0]);
    var rest := cs[1..];
    var k' := Fitting(rest, end - (pos + |b|));
    var w' := Output(rest[..k']);
    assert Fitting(cs, end - pos) == k' + 1;
    assert cs[..k' + 1] == [cs[0]] + rest[..k'];
    OutputCons(cs[0], rest[..k']);
    WindowSplice(buf, pos, b, w');
  }

  /// Writing `b` and then `w` just after it is writing `b + w`.
  lemma WindowSplice(buf: seq<u8>, pos: nat, b: seq<u8>, w: seq<u8>)
    requires pos + |b| + |w| <= |buf|
    ensures Spliced(Spliced(buf, pos, b), pos + |b|, w) == Spliced(buf, pos, b + w)
  {
    var mid := Spliced(buf, pos, b);
    assert mid[..pos + |b|] == buf[..pos] + b;
    assert mid[pos + |b| + |w|..] == buf[pos + |b| + |w|..];
  }

  /// After a failed write the window is empty, so every later non-empty
  /// write fails too and changes nothing (`src/encoders/slices.rs:12-14`).
  lemma EmptyWindowRefuses(buf: seq<u8>, end: nat, c: Chunk)
    requires end <= |buf| && ChunkBytes(c) != []
    ensures Put(WindowSink(buf, end, end), c) == Step(WindowSink(buf, end, end), Fail(InsufficientSpace))
  {
  }

  /// A window that is too small for a trace's bytes makes it fail, whatever
  /// the trace's own verdict.
  lemma WindowTooSmall(buf: seq<u8>, pos: nat, end: nat, t: Trace)
    requires pos <= end <= |buf| && |Output(t.chunks)| > end - pos
    ensures Run(WindowSink(buf, pos, end), t).outcome == Fail(InsufficientSpace)
  {
    RunWindow(buf, pos, end, t);
    assert t.chunks[..|t.chunks|] == t.chunks;
  }

  /// A window that is large enough behaves like a `Vec<u8>` over its front.
  lemma WindowLargeEnough(buf: seq<u8>, pos: nat, end: nat, t: Trace)
    requires pos <= end <= |buf| && |Output(t.chunks)| <= end - pos
    ensures var out := Output(t.chunks);
      Run(WindowSink(buf, pos, end), t) ==
        Step(WindowSink(Spliced(buf, pos, out), pos + |out|, end), t.stop)
  {
    RunWindow(buf, pos, end, t);
    FittingAll(t.chunks, end - pos);
    assert t.chunks[..|t.chunks|] == t.chunks;
  }

  /// When all the chunks' bytes fit, every chunk fits.
  lemma FittingAll(cs: seq<Chunk>, room: nat)
    requires |Output(cs)| <= room
    ensures Fitting(cs, room) == |cs|
  {
    var k := Fitting(cs, room);
    FittingIsLongest(cs, room);
    if k < |cs| {
      assert cs == cs[..k + 1] + cs[k + 1..];
      OutputAppend(cs[..k + 1], cs[k + 1..]);
    }
  }
}
