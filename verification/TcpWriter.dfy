/**
 The write pipeline of one TCP connection (plugins/connectors/tcp/tcp.cpp): senders append under a
 lock and whoever finds the writing flag clear starts a write; a completion starts the next one.
 */
module TcpWriter {
  import opened Bytes

  const WRITE_BATCH_SIZE: nat := 64

  /**
   starters counts threads that have been told to call start_write and have not entered it yet;
   inflight is the batch of the outstanding async_write; enqueued and written are histories; damaged
   is set once a write has ended in an error.
   */
  datatype Writer = Writer(queue: seq<Bytes>, writing: bool, starters: nat, inflight: Option<seq<Bytes>>,
                           enqueued: seq<Bytes>, written: seq<Bytes>, damaged: bool)

  datatype Action =
    | Enqueue(batch: seq<Bytes>)  // the closure posted by do_send (one frame) or do_send_gather
    | Start                       // start_write
    | Complete                    // completion without error
    | Abort                       // completion with operation_aborted: carries on as if written
    | Fail                        // completion with any other error

  predicate Enabled(w: Writer, a: Action) {
    match a
    case Enqueue(_) => true
    case Start => w.starters > 0
    case _ => w.inflight.Some?
  }

  function Step(w: Writer, a: Action): Writer
    requires Enabled(w, a)
  {
    match a
    case Enqueue(batch) =>
      var w' := w.(queue := w.queue + batch, enqueued := w.enqueued + batch);
      if w.writing then w' else w'.(writing := true, starters := w.starters + 1)
    case Start =>
      if w.queue == [] then w.(writing := false, starters := w.starters - 1)
      else
        var n := if |w.queue| < WRITE_BATCH_SIZE then |w.queue| else WRITE_BATCH_SIZE;
        w.(queue := w.queue[n..], inflight := Some(w.queue[..n]), starters := w.starters - 1)
    case Complete => Next(w.(written := w.written + w.inflight.value))
    case Abort => Next(w.(damaged := true))
    case Fail => w.(queue := [], writing := false, inflight := None, damaged := true)
  }

  /** The tail of the completion handler. */
  function Next(w: Writer): Writer {
    if w.queue == [] then w.(writing := false, inflight := None)
    else w.(starters := w.starters + 1, inflight := None)
  }

  const IDLE := Writer([], false, 0, None, [], [], false)

  function Run(actions: seq<Action>): Writer {
    if actions == [] then IDLE
    else
      var w := Run(actions[..|actions| - 1]);
      if Enabled(w, actions[|actions| - 1]) then Step(w, actions[|actions| - 1]) else w
  }

  function InFlight(w: Writer): seq<Bytes> { if w.inflight.Some? then w.inflight.value else [] }

  ghost predicate Inv(w: Writer) {
    // at most one writer, and the flag says whether there is one
    && w.starters + (if w.inflight.Some? then 1 else 0) == (if w.writing then 1 else 0)
    // no lost wakeup
    && (w.queue != [] ==> w.writing)
    // nothing lost, nothing reordered
    && (!w.damaged ==> w.written + InFlight(w) + w.queue == w.enqueued)
    // a write carries at least one frame and at most a batch
    && (w.inflight.Some? ==> 0 < |w.inflight.value| <= WRITE_BATCH_SIZE)
  }

  lemma StepKeepsInv(w: Writer, a: Action)
    requires Inv(w) && Enabled(w, a)
    ensures Inv(Step(w, a))
  {
    var w' := Step(w, a);
    match a {
      case Enqueue(batch) =>
        assert w.written + InFlight(w) + (w.queue + batch) == w.written + InFlight(w) + w.queue + batch;
      case Start =>
        if w.queue != [] {
          var n := if |w.queue| < WRITE_BATCH_SIZE then |w.queue| else WRITE_BATCH_SIZE;
          assert w.queue == w.queue[..n] + w.queue[n..];
        }
      case _ =>
    }
  }

  /**
   Under any interleaving of sends and completions: at most one write is under way, of 1 to 64 frames,
   a non-empty queue always has an active writer, and absent errors the frames written are a prefix of
   those enqueued.
   */
  lemma {:induction false} RunKeepsInv(actions: seq<Action>)
    ensures Inv(Run(actions))
    ensures !Run(actions).damaged ==> Run(actions).written <= Run(actions).enqueued
    decreases |actions|
  {
    if actions != [] {
      var n := |actions| - 1;
      RunKeepsInv(actions[..n]);
      var w := Run(actions[..n]);
      if Enabled(w, actions[n]) {
        StepKeepsInv(w, actions[n]);
      }
    }
    WrittenIsPrefix(Run(actions));
  }

  lemma WrittenIsPrefix(w: Writer)
    requires Inv(w)
    ensures !w.damaged ==> w.written <= w.enqueued
  {
    assert w.written + InFlight(w) + w.queue == w.written + (InFlight(w) + w.queue);
  }

  /** What has been written, is under way or is queued. */
  function Kept(w: Writer): multiset<Bytes> { multiset(w.written) + multiset(InFlight(w)) + multiset(w.queue) }

  lemma StepAccounts(w: Writer, a: Action)
    requires Inv(w) && Enabled(w, a)
    ensures Kept(Step(w, a)) <= Kept(w) + if a.Enqueue? then multiset(a.batch) else multiset{}
  {
    if a.Start? && w.queue != [] {
      TakingAccounts(w);
    }
  }

  lemma TakingAccounts(w: Writer)
    requires Inv(w) && Enabled(w, Start) && w.queue != []
    ensures Kept(Step(w, Start)) == Kept(w)
  {
    var w' := Step(w, Start);
    assert w.queue == InFlight(w') + w'.queue;
    assert multiset(w.queue) == multiset(InFlight(w')) + multiset(w'.queue);
  }

  /** Errors or not, no frame is written more often than it was enqueued, and none is made up. */
  lemma {:induction false} NothingTwice(actions: seq<Action>)
    ensures Kept(Run(actions)) <= multiset(Run(actions).enqueued)
    decreases |actions|
  {
    if actions != [] {
      var n := |actions| - 1;
      NothingTwice(actions[..n]);
      RunKeepsInv(actions[..n]);
      var w := Run(actions[..n]);
      if Enabled(w, actions[n]) {
        StepAccounts(w, actions[n]);
        EnqueuedGrows(w, actions[n]);
      }
    }
  }

  lemma EnqueuedGrows(w: Writer, a: Action)
    requires Enabled(w, a)
    ensures multiset(Step(w, a).enqueued) == multiset(w.enqueued) + if a.Enqueue? then multiset(a.batch) else multiset{}
  {
  }

  // ---- The writer finishes its work ----

  /** Steps the writer still owes: three per queued frame is more than enough. */
  ghost function Work(w: Writer): nat {
    3 * |w.queue| + (if w.inflight.Some? then 2 else 0) + w.starters
  }

  /**
   Left alone and without further errors, the writer writes what is under way and then the queue, in
   order, and clears its flag; if there never was an error, that is everything enqueued.
   */
  lemma {:induction false} WriterDrains(w: Writer) returns (turns: seq<Action>, end: Writer)
    requires Inv(w)
    ensures end == Follow(w, turns) && forall i :: 0 <= i < |turns| ==> turns[i] in {Start, Complete}
    ensures !end.writing && end.queue == [] && end.inflight.None?
    ensures end.enqueued == w.enqueued && end.written == w.written + InFlight(w) + w.queue
    ensures !w.damaged ==> end.written == w.enqueued
    decreases Work(w)
  {
    if !w.writing {
      assert w.written + [] + [] == w.written;
      return [], w;
    }
    var a := if w.starters > 0 then Start else Complete;
    var w' := Step(w, a);
    StepKeepsInv(w, a);
    var more;
    more, end := WriterDrains(w');
    turns := [a] + more;
    assert turns[1..] == more;
  }

  /** A failed write empties the queue and leaves an idle writer, which the next send starts again. */
  lemma FailureClears(w: Writer, batch: seq<Bytes>)
    requires Inv(w) && w.inflight.Some?
    ensures var w' := Step(w, Fail);
            && w'.queue == [] && !w'.writing && w'.inflight.None? && w'.starters == 0 && w'.written == w.written
            && var w'' := Step(w', Enqueue(batch)); w''.queue == batch && w''.starters == 1 && Inv(w'')
  {
    StepKeepsInv(w, Fail);
    StepKeepsInv(Step(w, Fail), Enqueue(batch));
  }

  /** An aborted write is taken as done: its frames are neither written nor sent again, and the next ones follow. */
  lemma AbortSkips(w: Writer)
    requires Inv(w) && w.inflight.Some?
    ensures var w' := Step(w, Abort);
            w'.queue == w.queue && w'.written == w.written && w'.inflight.None? && (w'.starters == 1 <==> w.queue != []) && Inv(w')
  {
    StepKeepsInv(w, Abort);
  }

  /** Taking a list of steps, each of them possible. */
  function Follow(w: Writer, actions: seq<Action>): Writer
    decreases |actions|
  {
    if actions == [] then w
    else if Enabled(w, actions[0]) then Follow(Step(w, actions[0]), actions[1..])
    else w
  }

  // ---- The connection object: each locked region, as the step it is ----

  class TcpConnection {
    var writeQueue: seq<Bytes>
    var writing: bool

    constructor ()
      ensures Is(IDLE)
    {
      writeQueue, writing := [], false;
    }

    /** The fields are those of the state w. */
    ghost predicate Is(w: Writer)
      reads this
    {
      writeQueue == w.queue && writing == w.writing
    }

    /** The closure posted by do_send and do_send_gather; the caller runs start_write when told to. */
    method Post(batch: seq<Bytes>, ghost w: Writer) returns (shouldStart: bool)
      requires Is(w)
      modifies this
      ensures Is(Step(w, Enqueue(batch)))
      ensures Step(w, Enqueue(batch)).starters == w.starters + if shouldStart then 1 else 0
    {
      for i := 0 to |batch|
        invariant writeQueue == w.queue + batch[..i] && writing == w.writing
      {
        assert batch[..i + 1] == batch[..i] + [batch[i]];
        writeQueue := writeQueue + [batch[i]];
      }
      assert batch[..|batch|] == batch;
      shouldStart := !writing;
      writing := true;
    }

    /** start_write: the frames handed to async_write, or None when there was nothing to write. */
    method StartWrite(ghost w: Writer) returns (frames: Option<seq<Bytes>>)
      requires Is(w) && Enabled(w, Start) && w.inflight.None?
      modifies this
      ensures Is(Step(w, Start)) && frames == Step(w, Start).inflight
    {
      if writeQueue == [] {
        writing := false;
        return None;
      }
      var n := if |writeQueue| < WRITE_BATCH_SIZE then |writeQueue| else WRITE_BATCH_SIZE;
      var taken: seq<Bytes> := [];
      for i := 0 to n
        invariant n <= |w.queue| && writeQueue == w.queue[i..] && taken == w.queue[..i] && writing == w.writing
      {
        taken := taken + [writeQueue[0]];
        writeQueue := writeQueue[1..];
      }
      return Some(taken);
    }

    /** The completion handler; aborted writes carry on like finished ones. */
    method Completed(error: bool, aborted: bool, ghost w: Writer) returns (more: bool)
      requires Is(w) && w.inflight.Some?
      modifies this
      ensures var a := if !error then Complete else if aborted then Abort else Fail;
              Is(Step(w, a)) && Step(w, a).starters == w.starters + if more then 1 else 0
    {
      if error && !aborted {
        writeQueue := [];
        writing := false;
        return false;
      }
      more := writeQueue != [];
      if !more {
        writing := false;
      }
    }
  }
}
