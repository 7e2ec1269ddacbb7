/** The two-buffer handoff between the camera callback and the display loop, shared by
    record.c (`f_frame`/`g_frame`, record.c:15-25, 66-73) and play.c (`f_depth`/`g_depth`,
    play.c:24-37, 586-594).  The camera side fills the buffer it owns and raises the
    ready flag; the display side, when the flag is up, swaps the two pointers and lowers
    the flag, so it reads the frame just produced while the camera side moves on to the
    other buffer.

    Only the sequence of steps is modelled: the mutex and condition variable that order
    them between the two threads are not. */
module Handoff {
  /** The two static arrays (`frame1`/`frame2`, `depth1`/`depth2`). */
  datatype Buffer = One | Two

  datatype State<T> = State(one: T, two: T, producer: Buffer, consumer: Buffer, ready: bool)

  function Contents<T>(st: State<T>, b: Buffer): T
  {
    if b == One then st.one else st.two
  }

  /** The frame the display side reads. */
  function Shown<T>(st: State<T>): T
  {
    Contents(st, st.consumer)
  }

  /** The frame the camera side would overwrite. */
  function Pending<T>(st: State<T>): T
  {
    Contents(st, st.producer)
  }

  /** The pointers name the two different buffers. */
  predicate Distinct<T>(st: State<T>)
  {
    st.producer != st.consumer
  }

  /** Program start: the camera side owns the first buffer, nothing is ready. */
  function Start<T>(a: T, b: T): (st: State<T>)
    ensures Distinct(st) && !st.ready && Pending(st) == a && Shown(st) == b
  {
    State(a, b, One, Two, false)
  }

  /** The camera side writes a frame into its own buffer and raises the flag. */
  function Produce<T>(st: State<T>, frame: T): (next: State<T>)
    requires Distinct(st)
    ensures Distinct(next) && next.ready
    ensures Pending(next) == frame
    ensures next.producer == st.producer && next.consumer == st.consumer
    ensures Shown(next) == Shown(st)
  {
    if st.producer == One then st.(one := frame, ready := true) else st.(two := frame, ready := true)
  }

  /** The display side: with a frame ready, `SWAP` the pointers and clear the flag; with
      none, nothing changes (record.c waits, play.c returns). */
  function Consume<T>(st: State<T>): (next: State<T>)
    requires Distinct(st)
    ensures Distinct(next) && !next.ready
    ensures next.one == st.one && next.two == st.two
    ensures st.ready ==> next.producer == st.consumer && next.consumer == st.producer
    ensures !st.ready ==> next == st
  {
    if st.ready then st.(producer := st.consumer, consumer := st.producer, ready := false) else st
  }

  /** The display side reads exactly the frame the camera side produced last. */
  lemma ConsumeShowsProduced<T>(st: State<T>, frame: T)
    requires Distinct(st)
    ensures Shown(Consume(Produce(st, frame))) == frame
  {}

  /** Of two frames produced before the display side looks, only the later is shown. */
  lemma LatestWins<T>(st: State<T>, first: T, second: T)
    requires Distinct(st)
    ensures Shown(Consume(Produce(Produce(st, first), second))) == second
  {}

  /** The state after any interleaving of productions and consumptions, starting from
      a state whose pointers differ: `Made(f)` produces f and `Taken` is one pass of the display loop. */
  datatype Event<T> = Made(frame: T) | Taken

  function Replay<T>(st: State<T>, events: seq<Event<T>>): State<T>
    requires Distinct(st)
    decreases |events|
  {
    if events == [] then st
    else
      var next := if events[0].Made? then Produce(st, events[0].frame) else Consume(st);
      Replay(next, events[1..])
  }

  /** Whatever the order of events, the two pointers keep naming the two buffers, and
      after a consumption the flag is down. */
  lemma {:induction false} ReplayKeepsBuffersApart<T>(st: State<T>, events: seq<Event<T>>)
    requires Distinct(st)
    ensures Distinct(Replay(st, events))
    ensures {Replay(st, events).producer, Replay(st, events).consumer} == {One, Two}
    ensures events != [] && events[|events| - 1].Taken? ==> !Replay(st, events).ready
    decreases |events|
  {
    if events != [] {
      var next := if events[0].Made? then Produce(st, events[0].frame) else Consume(st);
      ReplayKeepsBuffersApart(next, events[1..]);
      if |events| > 1 {
        assert events[1..][|events[1..]| - 1] == events[|events| - 1];
      }
    }
  }
}
