/** What the batching stream keeps over every run of polls: no byte of a frame is lost, added or split. */
module Conservation {
  import opened Wire
  import opened Encode

  /** The frame of the message an event brings, if it can be encoded. */
  function FrameOf<M>(b: Batching<M>, event: SourceEvent<M>): bytes {
    if event.Item? && b.frame(event.message).Success? then b.frame(event.message).value else []
  }

  /** The frames of the messages in `events` that can be encoded, in order. */
  function FramesOf<M>(b: Batching<M>, events: seq<SourceEvent<M>>): bytes {
    if events == [] then [] else FrameOf(b, events[0]) + FramesOf(b, events[1..])
  }

  lemma {:induction false} FramesOfConcat<M>(b: Batching<M>, left: seq<SourceEvent<M>>, right: seq<SourceEvent<M>>)
    ensures FramesOf(b, left + right) == FramesOf(b, left) + FramesOf(b, right)
  {
    if left == [] {
      assert left + right == right;
    } else {
      var first, more := FrameOf(b, left[0]), FramesOf(b, left[1..]);
      FramesOfConcat(b, left[1..], right);
      assert (left + right)[0] == left[0] && (left + right)[1..] == left[1..] + right;
      Regroup(first, more, FramesOf(b, right));
    }
  }

  /** A sequence of complete frames, each with the given flag and a length field that is exact. */
  predicate WholeFrames(flag: byte, b: bytes) {
    b == [] ||
    (&& |b| >= HEADER_SIZE && b[0] == flag && |b| >= HEADER_SIZE + GetU32(b[1..5])
     && WholeFrames(flag, b[HEADER_SIZE + GetU32(b[1..5])..]))
  }

  lemma {:induction false} WholeFramesConcat(flag: byte, a: bytes, b: bytes)
    requires WholeFrames(flag, a) && WholeFrames(flag, b)
    ensures WholeFrames(flag, a + b)
  {
    if a == [] {
      assert a + b == b;
    } else {
      var n := HEADER_SIZE + GetU32(a[1..5]);
      WholeFramesConcat(flag, a[n..], b);
      assert (a + b)[1..5] == a[1..5] && (a + b)[n..] == a[n..] + b;
    }
  }

  /** Every frame is non-empty and complete. */
  ghost predicate FramesAreWhole<M(!new)>(b: Batching<M>, flag: byte) {
    forall m :: b.frame(m).Success? ==> b.frame(m).value != [] && WholeFrames(flag, b.frame(m).value)
  }

  function Flag<M>(cfg: EncodeConfig<M>): byte {
    if cfg.compression.Some? then 1 else 0
  }

  lemma EncodedFramesAreWhole<M(!new)>(cfg: EncodeConfig<M>)
    ensures FramesAreWhole(BatchingOf(cfg), Flag(cfg))
  {
    forall m | Frame(cfg, m).Success?
      ensures Frame(cfg, m).value != [] && WholeFrames(Flag(cfg), Frame(cfg, m).value)
    {
      HeadedIsWhole(cfg.compression.Some?, PayloadOf(cfg, m).value);
    }
  }

  lemma HeadedIsWhole(compressed: bool, payload: bytes)
    requires |payload| < U32_LIMIT
    ensures WholeFrames(if compressed then 1 else 0, FrameHeader(compressed, |payload|) + payload)
  {
    var flag: byte := if compressed then 1 else 0;
    var f := FrameHeader(compressed, |payload|) + payload;
    assert f == [flag] + PutU32(|payload|) + payload;
    U32Exact(|payload|);
    WholeFrame(flag, PutU32(|payload|), payload);
  }

  lemma WholeFrame(flag: byte, length: bytes, payload: bytes)
    requires |length| == 4 && GetU32(length) == |payload|
    ensures WholeFrames(flag, [flag] + length + payload)
  {
    var f := [flag] + length + payload;
    assert f[1..5] == length && f[HEADER_SIZE + |payload|..] == [];
  }

  function Emitted(p: Polled): bytes {
    if p.Chunk? then p.data else []
  }

  function Consumed<M>(before: Enc<M>, after: Enc<M>): nat
    requires |after.source| <= |before.source|
  {
    |before.source| - |after.source|
  }

  ghost predicate Sound<M>(flag: byte, e: Enc<M>) {
    WholeFrames(flag, e.buf) && (e.error.Some? ==> e.buf == [])
  }

  ghost predicate SoundChunk(flag: byte, p: Polled) {
    p.Chunk? ==> p.data != [] && WholeFrames(flag, p.data)
  }

  /** What one poll may do: `p` and the new buffer account for the old buffer and the events taken. */
  ghost predicate Accounts<M>(b: Batching<M>, e: Enc<M>, after: Enc<M>, p: Polled) {
    && |after.source| <= |e.source|
    && after.source == e.source[Consumed(e, after)..]
    && Emitted(p) + after.buf == e.buf + FramesOf(b, e.source[..Consumed(e, after)])
  }

  lemma OneEvent<M>(b: Batching<M>, events: seq<SourceEvent<M>>)
    requires events != []
    ensures FramesOf(b, events[..1]) == FrameOf(b, events[0])
  {
    assert events[..1][1..] == [];
  }

  lemma OneEventMore<M>(b: Batching<M>, events: seq<SourceEvent<M>>, n: nat)
    requires n < |events|
    ensures FramesOf(b, events[..n + 1]) == FrameOf(b, events[0]) + FramesOf(b, events[1..][..n])
    ensures events[1..][n..] == events[n + 1..]
  {
    assert events[..n + 1][1..] == events[1..][..n];
  }

  lemma Regroup(a: bytes, b: bytes, c: bytes)
    ensures a + b + c == a + (b + c)
  {
  }

  /** Taking one event into the buffer and then accounting for the rest accounts for everything. */
  lemma AccountsAfterOne<M>(b: Batching<M>, e: Enc<M>, next: Enc<M>, after: Enc<M>, p: Polled)
    requires e.source != [] && next.source == e.source[1..] && next.buf == e.buf + FrameOf(b, e.source[0])
    requires Accounts(b, next, after, p)
    ensures Accounts(b, e, after, p)
  {
    var n := Consumed(next, after);
    OneEventMore(b, e.source, n);
    Regroup(e.buf, FrameOf(b, e.source[0]), FramesOf(b, next.source[..n]));
  }

  lemma {:induction false} FillAccounts<M>(b: Batching<M>, e: Enc<M>)
    ensures Accounts(b, e, Fill(b, e).0, Fill(b, e).1)
    decreases |e.source|
  {
    if e.source != [] {
      var event := e.source[0];
      OneEvent(b, e.source);
      if event.Item? && b.frame(event.message).Success? {
        var next := e.(source := e.source[1..], buf := e.buf + FrameOf(b, event));
        if |next.buf| < b.threshold {
          FillAccounts(b, next);
          AccountsAfterOne(b, e, next, Fill(b, next).0, Fill(b, next).1);
        }
      }
    }
  }

  lemma PollAccounts<M>(b: Batching<M>, e: Enc<M>)
    ensures Accounts(b, e, PollNext(b, e).0, PollNext(b, e).1)
  {
    if e.error.None? {
      FillAccounts(b, e);
    } else {
      assert e.source[0..] == e.source && e.source[..0] == [];
      assert [] + e.buf == e.buf + [];
    }
  }

  lemma {:induction false} FillIsSound<M(!new)>(b: Batching<M>, flag: byte, e: Enc<M>)
    requires FramesAreWhole(b, flag) && Sound(flag, e) && e.error.None?
    ensures Sound(flag, Fill(b, e).0) && SoundChunk(flag, Fill(b, e).1)
    decreases |e.source|
  {
    if e.source != [] && e.source[0].Item? && b.frame(e.source[0].message).Success? {
      var f := b.frame(e.source[0].message).value;
      WholeFramesConcat(flag, e.buf, f);
      if |e.buf + f| < b.threshold {
        FillIsSound(b, flag, e.(source := e.source[1..], buf := e.buf + f));
      }
    }
  }

  /** The state and the results after `n` polls, failures included. */
  function Polls<M>(b: Batching<M>, e: Enc<M>, n: nat): (r: (Enc<M>, seq<Polled>))
    ensures |r.1| == n
  {
    if n == 0 then (e, [])
    else
      var (before, results) := Polls(b, e, n - 1);
      var (after, p) := PollNext(b, before);
      (after, results + [p])
  }

  function AllEmitted(results: seq<Polled>): bytes {
    if results == [] then [] else AllEmitted(results[..|results| - 1]) + Emitted(results[|results| - 1])
  }

  lemma EmittedStep<M>(b: Batching<M>, start: Enc<M>, n: nat)
    requires n > 0
    ensures var (before, results) := Polls(b, start, n - 1);
            Polls(b, start, n).0 == PollNext(b, before).0
            && AllEmitted(Polls(b, start, n).1) == AllEmitted(results) + Emitted(PollNext(b, before).1)
  {
    var (before, results) := Polls(b, start, n - 1);
    assert (results + [PollNext(b, before).1])[..n - 1] == results;
  }

  lemma Slices<T>(s: seq<T>, k: nat, m: nat)
    requires k + m <= |s|
    ensures s[..k] + s[k..][..m] == s[..k + m]
    ensures s[k..][m..] == s[k + m..]
  {
  }

  lemma ConservedStep<M>(b: Batching<M>, start: Enc<M>, before: Enc<M>, after: Enc<M>, emitted: bytes, p: Polled)
    requires |before.source| <= |start.source| && before.source == start.source[Consumed(start, before)..]
    requires emitted + before.buf == FramesOf(b, start.source[..Consumed(start, before)])
    requires Accounts(b, before, after, p)
    ensures |after.source| <= |start.source| && after.source == start.source[Consumed(start, after)..]
    ensures emitted + Emitted(p) + after.buf == FramesOf(b, start.source[..Consumed(start, after)])
  {
    var k, m := Consumed(start, before), Consumed(before, after);
    FramesOfConcat(b, start.source[..k], before.source[..m]);
    Slices(start.source, k, m);
    Regroup(emitted, Emitted(p), after.buf);
    Regroup(emitted, before.buf, FramesOf(b, before.source[..m]));
  }

  /**
   * In every reachable state the emitted chunks followed by the buffer are the frames of the messages
   * encoded so far, in order.
   */
  lemma {:induction false} BytesAreConserved<M>(b: Batching<M>, source: seq<SourceEvent<M>>, n: nat)
    ensures var start := Enc(source, [], None);
            var (e, results) := Polls(b, start, n);
            && |e.source| <= |source| && e.source == source[Consumed(start, e)..]
            && AllEmitted(results) + e.buf == FramesOf(b, source[..Consumed(start, e)])
  {
    if n > 0 {
      BytesAreConserved(b, source, n - 1);
      var start := Enc(source, [], None);
      var (before, results) := Polls(b, start, n - 1);
      PollAccounts(b, before);
      ConservedStep(b, start, before, PollNext(b, before).0, AllEmitted(results), PollNext(b, before).1);
      EmittedStep(b, start, n);
    }
  }

  /** In every run, failures included, each chunk is a non-empty sequence of whole, correctly headed frames. */
  lemma {:induction false} ChunksAreWholeFrames<M(!new)>(cfg: EncodeConfig<M>, source: seq<SourceEvent<M>>, n: nat)
    ensures var (e, results) := Polls(BatchingOf(cfg), Enc(source, [], None), n);
            && (forall i :: 0 <= i < n ==> SoundChunk(Flag(cfg), results[i]))
            && Sound(Flag(cfg), e)
  {
    if n > 0 {
      ChunksAreWholeFrames(cfg, source, n - 1);
      EncodedFramesAreWhole(cfg);
      var before := Polls(BatchingOf(cfg), Enc(source, [], None), n - 1).0;
      if before.error.None? {
        FillIsSound(BatchingOf(cfg), Flag(cfg), before);
      }
    }
  }
}
