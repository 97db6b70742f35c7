/** What a server body still yields to a consumer that polls on after the trailers. */
module AfterTrailers {
  import opened Wire
  import opened Status
  import opened Body
  import opened Encode
  import opened SendBody

  /** The sender after `n` polls. */
  function After<M>(b: Batching<M>, s: Sender<M>, n: nat): Sender<M>
    decreases n
  {
    if n == 0 then s else After(b, PollFrame(b, s).0, n - 1)
  }

  function PollAt<M>(b: Batching<M>, s: Sender<M>, n: nat): BodyEvent {
    PollFrame(b, After(b, s, n)).1
  }

  /** No poll ever gives anything but waits and ends. */
  ghost predicate Silent<M>(b: Batching<M>, s: Sender<M>) {
    forall n: nat :: PollAt(b, s, n).Pending? || PollAt(b, s, n).End?
  }

  predicate OnlyWaits<M>(source: seq<SourceEvent<M>>) {
    forall i :: 0 <= i < |source| ==> source[i].Waiting?
  }

  /** Nothing is buffered, held back or still to come. */
  predicate Spent<M>(e: Enc<M>) {
    e.buf == [] && e.error.None? && OnlyWaits(e.source)
  }

  lemma {:induction false} SpentIsSilent<M>(b: Batching<M>, s: Sender<M>, n: nat)
    requires s.role == Server && s.ended && Spent(s.inner)
    ensures PollAt(b, s, n).Pending? || PollAt(b, s, n).End?
    decreases n
  {
    if n > 0 {
      SpentIsSilent(b, PollFrame(b, s).0, n - 1);
    }
  }

  /** A buffer that is not empty comes out with the next poll, or an encode failure does. */
  lemma {:induction false} BufferSpeaks<M>(b: Batching<M>, e: Enc<M>)
    requires e.error.None? && e.buf != []
    ensures Fill(b, e).1.Chunk? || Fill(b, e).1.Error?
    decreases |e.source|
  {
    if e.source != [] && e.source[0].Item? && b.frame(e.source[0].message).Success? {
      BufferSpeaks(b, e.(source := e.source[1..], buf := e.buf + b.frame(e.source[0].message).value));
    }
  }

  lemma {:induction false} UnspentSpeaks<M(!new)>(b: Batching<M>, s: Sender<M>) returns (n: nat)
    requires FramesNonEmpty(b) && s.role == Server && s.ended && !Spent(s.inner)
    ensures PollAt(b, s, n).Data? || PollAt(b, s, n).Trailers?
    decreases |s.inner.source|
  {
    n := 0;
    var e := s.inner;
    if e.error.None? && e.buf == [] && e.source[0].Waiting? {
      var i := UnspentSpeaks(b, PollFrame(b, s).0);
      n := i + 1;
    } else if e.error.None? && e.buf != [] {
      BufferSpeaks(b, e);
    } else if e.error.None? && e.source[0].Item? && b.frame(e.source[0].message).Success? {
      var f := b.frame(e.source[0].message).value;
      if |e.buf + f| < b.threshold {
        BufferSpeaks(b, e.(source := e.source[1..], buf := e.buf + f));
      }
    }
  }

  /** A body that has given its trailers is silent if and only if it is spent. */
  lemma SilentIfSpent<M(!new)>(b: Batching<M>, s: Sender<M>)
    requires FramesNonEmpty(b) && s.role == Server && s.ended
    ensures Silent(b, s) <==> Spent(s.inner)
  {
    if Spent(s.inner) {
      forall n: nat
        ensures PollAt(b, s, n).Pending? || PollAt(b, s, n).End?
      {
        SpentIsSilent(b, s, n);
      }
    } else {
      var n := UnspentSpeaks(b, s);
    }
  }

  /**
   * Nothing but the end follows the trailers of a body if and only if no message was lost in the buffer
   * and the source has only waits behind the failure that the trailers report.
   */
  lemma NothingFollowsTrailers<M(!new)>(b: Batching<M>, source: seq<SourceEvent<M>>)
    requires FramesNonEmpty(b) && HeadersNeverFail(b)
    ensures Silent(b, RunAfter(b, NewSender(Server, source)))
       <==> Lost(b, source) == [] && OnlyWaits(Behind(b, source))
  {
    RunDelivers(b, Server, source);
    SilentIfSpent(b, RunAfter(b, NewSender(Server, source)));
    LostHaveFrames(b, source);
  }

  lemma LostHaveFrames<M(!new)>(b: Batching<M>, source: seq<SourceEvent<M>>)
    requires FramesNonEmpty(b)
    ensures Frames(b, Lost(b, source)) == [] <==> Lost(b, source) == []
  {
    LostAreLast(b, source);
    AcceptedAreFramed(b, source);
    if Lost(b, source) != [] {
      assert Lost(b, source)[0] == Accepted(b, source)[|Sent(b, source)|];
    }
  }

  /** A message behind the failure of a source comes out after the trailers. */
  lemma DataAfterTrailers<M(!new)>(b: Batching<M>, m: M, s: Status)
    requires b.frame(m).Success? && b.frame(m).value != []
    ensures var after := RunAfter(b, NewSender(Server, [Failed(s), Item(m)]));
            after.ended && PollFrame(b, after).1 == Data(b.frame(m).value)
  {
    var f := b.frame(m).value;
    var start := NewSender(Server, [Failed(s), Item(m)]);
    assert start.inner.source[1..] == [Item(m)] && [Item(m)][1..] == [] && [] + f == f;
    var after := PollFrame(b, start).0;
    assert after == RunAfter(b, start) == Sender(Enc([Item(m)], [], None), Server, true, None);
    assert Fill(b, Enc([], f, None)).1 == Chunk(f);
  }

  /** So does a message that was in the buffer when the next one could not be encoded. */
  lemma LostComesLate<M(!new)>(b: Batching<M>, m: M, bad: M)
    requires FramesNonEmpty(b) && HeadersNeverFail(b)
    requires b.frame(m).Success? && |b.frame(m).value| < b.threshold && b.frame(bad).Failure?
    ensures var after := RunAfter(b, NewSender(Server, [Item(m), Item(bad)]));
            after.ended && PollFrame(b, after).1 == Data(b.frame(m).value)
  {
    var source := [Item(m), Item(bad)];
    EncodeFailureLoses(b, m, bad);
    RunDelivers(b, Server, source);
    assert source[1..] == [Item(bad)] && [Item(bad)][1..] == [] && Behind(b, source) == [];
    assert Frames(b, [m]) == b.frame(m).value by {
      FramesOne(b, [], m);
      assert [] + [m] == [m];
    }
  }
}
