/** The SockJS read loop that assembles wrapped WebSocket frames (readLoop). */
module SockJsFrames {
  import opened ByteStreams

  const BUFFER_SIZE := 200000

  datatype FrameType = Text | Binary | Continuation

  datatype Frame = Frame(ftype: FrameType, data: seq<byte>, more: bool)

  class WSocket {
    var q: seq<Frame>

    method FramesAvailable() returns (n: nat)
      ensures n == |q|
    {
      n := |q|;
    }

    /** Reading from an empty queue is undefined in the original. */
    method ReadFrame() returns (f: Frame)
      requires q != []
      modifies this
      ensures f == old(q)[0] && q == old(q)[1..]
    {
      f, q := q[0], q[1..];
    }
  }

  class Session {
    var inBytes: int
    var inWrappedFrames: seq<Frame>
    var error: bool
  }

  /** A session and its socket at one moment. */
  datatype State = State(inBytes: int, wrapped: seq<Frame>, error: bool, queue: seq<Frame>)

  ghost function StateOf(s: Session, sock: WSocket): State
    reads s, sock
  {
    State(s.inBytes, s.inWrappedFrames, s.error, sock.q)
  }

  predicate Oversized(f: Frame) {
    |f.data| > BUFFER_SIZE * 2
  }

  ghost predicate AllMore(frames: seq<Frame>) {
    forall i :: 0 <= i < |frames| ==> frames[i].more
  }

  /** The loop has nothing to do: the buffer is full, or a whole message is waiting. */
  ghost predicate Blocked(st: State) {
    st.inBytes >= BUFFER_SIZE || !AllMore(st.wrapped)
  }

  /** The loop as a function of the state, one frame at a time. */
  ghost function Run(st: State): State
    decreases |st.queue|
  {
    if Blocked(st) || st.queue == [] then st
    else
      var f, rest := st.queue[0], st.queue[1..];
      if Oversized(f) then st.(error := true, queue := rest)
      else Run(st.(wrapped := st.wrapped + [f], queue := rest))
  }

  method ReadLoop(s: Session, sock: WSocket)
    modifies s, sock
    ensures StateOf(s, sock) == Run(old(StateOf(s, sock)))
  {
    while s.inBytes < BUFFER_SIZE
      invariant Run(StateOf(s, sock)) == Run(old(StateOf(s, sock)))
      decreases |sock.q|
    {
      var end := 0;
      while end < |s.inWrappedFrames|
        invariant 0 <= end <= |s.inWrappedFrames| && AllMore(s.inWrappedFrames[..end])
      {
        if !s.inWrappedFrames[end].more {
          break;
        }
        end := end + 1;
      }
      if end >= |s.inWrappedFrames| {
        assert s.inWrappedFrames[..end] == s.inWrappedFrames;
        var available := sock.FramesAvailable();
        if available == 0 {
          break;
        }
        var f := sock.ReadFrame();
        if |f.data| > BUFFER_SIZE * 2 {
          s.error := true;
          break;
        }
        s.inWrappedFrames := s.inWrappedFrames + [f];
        continue;
      }
      break;
    }
  }

  // -------------------------------------------------------- what a run moves

  /** A frame at which a run stops: the last one of a message, or one that is too large. */
  predicate Stops(f: Frame) {
    !f.more || Oversized(f)
  }

  function FirstStop(queue: seq<Frame>): (k: nat)
    ensures k <= |queue| && forall i :: 0 <= i < k ==> !Stops(queue[i])
    ensures k < |queue| ==> Stops(queue[k])
  {
    if queue == [] || Stops(queue[0]) then 0 else 1 + FirstStop(queue[1..])
  }

  predicate StopsOversized(queue: seq<Frame>) {
    FirstStop(queue) < |queue| && Oversized(queue[FirstStop(queue)])
  }

  /** How many frames leave the queue: all of them, or those up to and including the first stop. */
  function Taken(queue: seq<Frame>): (n: nat)
    ensures n <= |queue|
  {
    if FirstStop(queue) < |queue| then FirstStop(queue) + 1 else |queue|
  }

  /** How many of those reach the session: an oversized stop does not. */
  function Moved(queue: seq<Frame>): (n: nat)
    ensures n <= |queue|
  {
    if StopsOversized(queue) then FirstStop(queue) else Taken(queue)
  }

  lemma TakeStep(wrapped: seq<Frame>, queue: seq<Frame>, moved: nat, taken: nat)
    requires 1 <= moved <= |queue| && 1 <= taken <= |queue|
    ensures wrapped + queue[..moved] == wrapped + [queue[0]] + queue[1..][..moved - 1]
    ensures queue[taken..] == queue[1..][taken - 1..]
  {
  }

  /**
   * A run from an unblocked state moves, in order, everything up to the first stopping frame.
   * A final frame is moved as well; an oversized one is dropped with the error flag set.
   */
  lemma {:induction false} RunMoves(st: State)
    requires !Blocked(st)
    ensures Run(st) == State(st.inBytes, st.wrapped + st.queue[..Moved(st.queue)],
                             st.error || StopsOversized(st.queue), st.queue[Taken(st.queue)..])
    decreases |st.queue|
  {
    hide Run, Moved, Taken, StopsOversized, FirstStop, Oversized;
    RunStep(st);
    if st.queue == [] {
      NothingMoves();
    } else {
      var f := st.queue[0];
      var next := st.(wrapped := st.wrapped + [f], queue := st.queue[1..]);
      MovedStep(st.queue);
      if Oversized(f) {
        assert st.wrapped + st.queue[..0] == st.wrapped;
      } else {
        TakeStep(st.wrapped, st.queue, Moved(st.queue), Taken(st.queue));
        if f.more {
          RunMoves(next);
        } else {
          assert !next.wrapped[|st.wrapped|].more;
          RunStep(next);
        }
      }
    }
  }

  lemma RunStep(st: State)
    ensures Blocked(st) || st.queue == [] ==> Run(st) == st
    ensures !Blocked(st) && st.queue != [] ==>
              Run(st) == if Oversized(st.queue[0]) then st.(error := true, queue := st.queue[1..])
                         else Run(st.(wrapped := st.wrapped + [st.queue[0]], queue := st.queue[1..]))
  {
  }

  lemma NothingMoves()
    ensures Moved([]) == Taken([]) == 0 && !StopsOversized([])
  {
  }

  lemma MovedStep(queue: seq<Frame>)
    requires queue != []
    ensures Oversized(queue[0]) ==> Moved(queue) == 0 && Taken(queue) == 1 && StopsOversized(queue)
    ensures !Oversized(queue[0]) && !queue[0].more ==>
              Moved(queue) == 1 && Taken(queue) == 1 && !StopsOversized(queue)
    ensures !Oversized(queue[0]) && queue[0].more ==>
              Moved(queue) == 1 + Moved(queue[1..]) && Taken(queue) == 1 + Taken(queue[1..])
              && StopsOversized(queue) == StopsOversized(queue[1..])
  {
  }

  /** A full buffer or a waiting message stops the loop before it reads anything. */
  lemma BlockedStays(st: State)
    requires st.inBytes >= 200_000 || exists i :: 0 <= i < |st.wrapped| && !st.wrapped[i].more
    ensures Run(st) == st
  {
  }

  /**
   * In bytes: below 200,000 buffered ones and with no message waiting, the loop moves k frames
   * that are not final and have at most 400,000 bytes. Then it moves a final one of that size
   * as well, drops one that is larger, or finds the queue empty.
   */
  lemma RunInBytes(st: State, k: nat)
    requires st.inBytes < 200_000 && forall i :: 0 <= i < |st.wrapped| ==> st.wrapped[i].more
    requires k <= |st.queue| && forall i :: 0 <= i < k ==> st.queue[i].more && |st.queue[i].data| <= 400_000
    ensures k == |st.queue| ==> Run(st) == State(st.inBytes, st.wrapped + st.queue, st.error, [])
    ensures k < |st.queue| && |st.queue[k].data| > 400_000 ==>
              Run(st) == State(st.inBytes, st.wrapped + st.queue[..k], true, st.queue[k + 1..])
    ensures k < |st.queue| && |st.queue[k].data| <= 400_000 && !st.queue[k].more ==>
              Run(st) == State(st.inBytes, st.wrapped + st.queue[..k + 1], st.error, st.queue[k + 1..])
  {
    hide Run, FirstStop;
    if k == |st.queue| || Stops(st.queue[k]) {
      FirstStopIs(st.queue, k);
      RunMoves(st);
      assert st.queue[..|st.queue|] == st.queue && st.queue[|st.queue|..] == [];
    }
  }

  lemma FirstStopIs(queue: seq<Frame>, k: nat)
    requires k <= |queue| && (forall i :: 0 <= i < k ==> !Stops(queue[i])) && (k < |queue| ==> Stops(queue[k]))
    ensures FirstStop(queue) == k
  {
  }

  // ------------------------------------------------------- delivery in bursts

  ghost function Deliver(st: State, frames: seq<Frame>): State {
    st.(queue := st.queue + frames)
  }

  /** The run is going to drop an oversized frame. */
  ghost predicate Drops(st: State) {
    !Blocked(st) && StopsOversized(st.queue)
  }

  lemma {:induction false} RunThenDeliver(st: State, frames: seq<Frame>)
    requires !Drops(st)
    ensures Run(Deliver(Run(st), frames)) == Run(Deliver(st, frames))
    decreases |st.queue|
  {
    if Blocked(st) || st.queue == [] {
    } else {
      var next := st.(wrapped := st.wrapped + [st.queue[0]], queue := st.queue[1..]);
      assert (st.queue + frames)[0] == st.queue[0];
      assert (st.queue + frames)[1..] == st.queue[1..] + frames;
      assert !Oversized(st.queue[0]);
      assert !Drops(next) by {
        if !st.queue[0].more { assert !next.wrapped[|st.wrapped|].more; }
      }
      RunThenDeliver(next, frames);
    }
  }

  /** Everything but the dropped frame has been moved. */
  ghost predicate NothingBehind(queue: seq<Frame>) {
    FirstStop(queue) + 1 == |queue|
  }

  /**
   * Two bursts leave the same state as one delivery exactly when the first run drops no frame,
   * or drops the last frame there is. (The loop never looks at its error flag.)
   */
  lemma BurstsAgreeExactly(st: State, first: seq<Frame>, second: seq<Frame>)
    ensures Run(Deliver(Run(Deliver(st, first)), second)) == Run(Deliver(st, first + second)) <==>
            !Drops(Deliver(st, first)) || (NothingBehind(st.queue + first) && second == [])
  {
    var once := Deliver(st, first);
    assert st.queue + (first + second) == once.queue + second;
    assert Deliver(once, second) == Deliver(st, first + second);
    if Drops(once) {
      DropThenDeliver(once, second);
    } else {
      RunThenDeliver(once, second);
    }
  }

  lemma DropThenDeliver(st: State, frames: seq<Frame>)
    requires Drops(st)
    ensures Run(Deliver(Run(st), frames)) == Run(Deliver(st, frames)) <==> NothingBehind(st.queue) && frames == []
  {
    var left := st.queue[Taken(st.queue)..] + frames;
    FirstStopOfMore(st.queue, frames);
    RunMoves(st);
    RunMoves(Deliver(st, frames));
    SplitQueue(st.queue, frames, Moved(st.queue), Taken(st.queue));
    var again := Deliver(Run(st), frames);
    assert again == Run(Deliver(st, frames)) && again.queue == left;
    assert !Blocked(again) by { MovedAreMore(st); }
    if left != [] { RunMoves(again); }
  }

  lemma SplitQueue(queue: seq<Frame>, frames: seq<Frame>, moved: nat, taken: nat)
    requires moved <= |queue| && taken <= |queue|
    ensures (queue + frames)[..moved] == queue[..moved] && (queue + frames)[taken..] == queue[taken..] + frames
  {
  }

  lemma MovedAreMore(st: State)
    requires Drops(st)
    ensures AllMore(st.wrapped + st.queue[..Moved(st.queue)])
  {
  }

  lemma {:induction false} FirstStopOfMore(queue: seq<Frame>, frames: seq<Frame>)
    requires FirstStop(queue) < |queue|
    ensures FirstStop(queue + frames) == FirstStop(queue)
  {
    if Stops(queue[0]) {
    } else {
      assert (queue + frames)[1..] == queue[1..] + frames;
      FirstStopOfMore(queue[1..], frames);
    }
  }
}
