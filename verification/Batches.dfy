/** What the sender refuses, and when it emits what it has collected, in terms of its settings. */
module Batches {
  import opened Wire
  import opened Status
  import opened Encode
  import opened Conservation

  /** What is in the buffer was not worth emitting on its own. */
  predicate IsPartial<M>(cfg: EncodeConfig<M>, data: bytes) {
    data == [] || |data| < cfg.threshold
  }

  /** The chunk ends with the frame of `m`, reaches the threshold with it, and was short of it before. */
  predicate IsFull<M>(cfg: EncodeConfig<M>, data: bytes, m: M) {
    && |data| >= cfg.threshold
    && Frame(cfg, m).Success?
    && var f := Frame(cfg, m).value;
       && |f| <= |data| && data[|data| - |f|..] == f
       && IsPartial(cfg, data[..|data| - |f|])
  }

  /** The source has nothing more for now: it waits, it has failed, or it has ended. */
  predicate RunsDry<M>(e: Enc<M>, after: Enc<M>)
    requires |after.source| <= |e.source|
  {
    var n := Consumed(e, after);
    (n > 0 && !e.source[n - 1].Item?) || after.source == []
  }

  /** A poll emits as soon as a message fills the chunk, and otherwise only because the source runs dry. */
  predicate IsTimely<M>(cfg: EncodeConfig<M>, e: Enc<M>, after: Enc<M>, p: Polled)
    requires |after.source| <= |e.source|
  {
    var n := Consumed(e, after);
    && IsPartial(cfg, after.buf)
    && (p.NotReady? ==> after.buf == [])
    && (p.Chunk? && |p.data| >= cfg.threshold ==>
          n > 0 && e.source[n - 1].Item? && IsFull(cfg, p.data, e.source[n - 1].message))
    && (p.Chunk? && |p.data| < cfg.threshold ==> RunsDry(e, after))
  }

  lemma {:induction false} FillIsTimely<M>(cfg: EncodeConfig<M>, e: Enc<M>)
    requires e.error.None? && IsPartial(cfg, e.buf)
    ensures var (after, p) := Fill(BatchingOf(cfg), e); IsTimely(cfg, e, after, p)
    decreases |e.source|
  {
    if e.source != [] && e.source[0].Item? && Frame(cfg, e.source[0].message).Success? {
      var f := Frame(cfg, e.source[0].message).value;
      var next := e.(source := e.source[1..], buf := e.buf + f);
      if |next.buf| < cfg.threshold {
        FillIsTimely(cfg, next);
        var (after, p) := Fill(BatchingOf(cfg), next);
        if Consumed(next, after) > 0 {
          assert e.source[Consumed(e, after) - 1] == next.source[Consumed(next, after) - 1];
        }
      }
    }
  }

  /** In every run each poll is timely: chunks follow the configured threshold, failures included. */
  lemma {:induction false} ChunksAreTimely<M>(cfg: EncodeConfig<M>, source: seq<SourceEvent<M>>, n: nat)
    ensures var e := Polls(BatchingOf(cfg), Enc(source, [], None), n).0;
            var (after, p) := PollNext(BatchingOf(cfg), e);
            IsPartial(cfg, e.buf) && IsTimely(cfg, e, after, p)
  {
    var e := Polls(BatchingOf(cfg), Enc(source, [], None), n).0;
    if n > 0 {
      ChunksAreTimely(cfg, source, n - 1);
    }
    if e.error.None? {
      FillIsTimely(cfg, e);
    }
  }

  /** Two messages of twenty bytes and a threshold of ten: the first poll gives the first message alone. */
  lemma FirstFillsChunk<M>(cfg: EncodeConfig<M>, m: M, more: seq<SourceEvent<M>>)
    requires cfg.threshold == 10 && Frame(cfg, m).Success? && |Frame(cfg, m).value| == 20
    ensures var (after, p) := PollNext(BatchingOf(cfg), Enc([Item(m)] + more, [], None));
            p == Chunk(Frame(cfg, m).value) && after == Enc(more, [], None)
  {
    assert ([Item(m)] + more)[1..] == more;
    assert [] + Frame(cfg, m).value == Frame(cfg, m).value;
  }

  // ---- What is refused ---------------------------------------------------------------------------------

  /** The payload of a message that can be encoded and, if asked for, compressed. */
  ghost predicate IsPayload<M>(cfg: EncodeConfig<M>, item: M, payload: bytes) {
    var plain := cfg.encode(item);
    && plain.failure.None?
    && if cfg.compression.None? then payload == plain.out
       else
         var packed := cfg.compress(cfg.compression.value, plain.out);
         packed.failure.None? && payload == packed.out
  }

  /** A length above the configured limit, or, without one, above what a usize can hold. */
  predicate ExceedsLimit<M>(cfg: EncodeConfig<M>, len: nat) {
    len > if cfg.limit.Some? then cfg.limit.value else 0xFFFF_FFFF_FFFF_FFFF
  }

  /**
   * A message is framed if and only if it can be encoded, is within the configured limit and has a length
   * of 32 bits; the frame is flag, length and payload. Each refusal has its own code.
   */
  lemma FrameIsChecked<M>(cfg: EncodeConfig<M>, item: M)
    ensures var f := Frame(cfg, item);
            && (f.Failure? && f.error.code == Internal <==> !exists payload :: IsPayload(cfg, item, payload))
            && forall payload :: IsPayload(cfg, item, payload) ==>
                 var len := |payload|;
                 && (f.Failure? && f.error.code == OutOfRange <==> ExceedsLimit(cfg, len))
                 && (f.Failure? && f.error.code == ResourceExhausted
                     <==> !ExceedsLimit(cfg, len) && len >= 0x1_0000_0000)
                 && (f.Success? ==> f.value == [if cfg.compression.Some? then 1 else 0] + PutU32(len) + payload)
  {
    if PayloadOf(cfg, item).Success? {
      assert IsPayload(cfg, item, PayloadOf(cfg, item).value);
    }
  }
}
