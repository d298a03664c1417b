/**
 PerConnQueue of core/cm/impl.hpp under any interleaving: try_push reserves bytes with an atomic
 add before it takes the lock, drain_batch removes frames under the lock and subtracts afterwards.
 One atomic operation or one locked region is one step.
 */
module SendQueue {
  import opened Bytes

  const MAX_BYTES: nat := 8 * 1024 * 1024
  const SIZES: nat := 0x1_0000_0000_0000_0000

  /** Where a thread stands inside try_push or drain_batch. */
  datatype Thread =
    | Idle
    | Added(frame: Bytes, prev: nat)     // fetch_add done, the sum not yet tested
    | Refused(frame: Bytes)              // over the limit, fetch_sub still to come
    | Admitted(frame: Bytes)             // within the limit, push still to come
    | Removed(batch: seq<Bytes>)         // frames taken out, lock held, fetch_sub still to come

  datatype Action = Reserve(frame: Bytes) | Test | Rollback | Push | Remove(max: nat) | Subtract

  /** pushed and drained record the order in which frames entered and left the queue. */
  datatype Queue = Queue(frames: seq<Bytes>, pending: nat, lock: Option<nat>, threads: seq<Thread>,
                         pushed: seq<Bytes>, drained: seq<Bytes>)

  function Total(fs: seq<Bytes>): nat {
    if fs == [] then 0 else |fs[0]| + Total(fs[1..])
  }

  function Sum(ts: seq<Thread>, f: Thread -> nat): nat {
    if ts == [] then 0 else f(ts[0]) + Sum(ts[1..], f)
  }

  /** Bytes of a thread that the counter carries but the queue does not. */
  function Held(t: Thread): nat {
    match t
    case Idle => 0
    case Added(f, _) => |f|
    case Refused(f) => |f|
    case Admitted(f) => |f|
    case Removed(batch) => Total(batch)
  }

  /** Bytes of a thread that are bound to enter the queue. */
  function Granted(t: Thread): nat {
    match t
    case Added(f, prev) => if prev + |f| <= MAX_BYTES then |f| else 0
    case Admitted(f) => |f|
    case _ => 0
  }

  function Live(q: Queue): nat { Total(q.frames) + Sum(q.threads, Held) }

  /**
   When a step can be taken. Frames occupy memory, so all live bytes together stay below 2^64;
   that is the one fact about the environment.
   */
  predicate Enabled(q: Queue, t: nat, a: Action) {
    t < |q.threads| &&
    match a
    case Reserve(f) => q.threads[t].Idle? && Live(q) + |f| < SIZES
    case Test => q.threads[t].Added?
    case Rollback => q.threads[t].Refused?
    case Push => q.threads[t].Admitted? && q.lock.None?
    case Remove(_) => q.threads[t].Idle? && q.lock.None?
    case Subtract => q.threads[t].Removed? && q.lock == Some(t)
  }

  function Step(q: Queue, t: nat, a: Action): Queue
    requires Enabled(q, t, a)
  {
    match a
    case Reserve(f) =>
      q.(pending := (q.pending + |f|) % SIZES, threads := q.threads[t := Added(f, q.pending)])
    case Test =>
      var f := q.threads[t].frame;
      var over := (q.threads[t].prev + |f|) % SIZES > MAX_BYTES;
      q.(threads := q.threads[t := if over then Refused(f) else Admitted(f)])
    case Rollback =>
      q.(pending := (q.pending - |q.threads[t].frame|) % SIZES, threads := q.threads[t := Idle])
    case Push =>
      var f := q.threads[t].frame;
      q.(frames := q.frames + [f], pushed := q.pushed + [f], threads := q.threads[t := Idle])
    case Remove(max) =>
      var n := if |q.frames| < max then |q.frames| else max;
      q.(frames := q.frames[n..], drained := q.drained + q.frames[..n], lock := Some(t),
         threads := q.threads[t := Removed(q.frames[..n])])
    case Subtract =>
      q.(pending := (q.pending - Total(q.threads[t].batch)) % SIZES, lock := None,
         threads := q.threads[t := Idle])
  }

  function Start(threads: nat): Queue {
    Queue([], 0, None, seq(threads, i => Idle), [], [])
  }

  /** A schedule: which thread takes which step. Steps that cannot be taken are skipped. */
  function RunOn(q: Queue, schedule: seq<(nat, Action)>): Queue {
    if schedule == [] then q
    else
      var q' := RunOn(q, schedule[..|schedule| - 1]);
      var (t, a) := schedule[|schedule| - 1];
      if Enabled(q', t, a) then Step(q', t, a) else q'
  }

  function Run(threads: nat, schedule: seq<(nat, Action)>): Queue { RunOn(Start(threads), schedule) }

  // ---- Sums ----

  lemma {:induction false} SumUpdate(ts: seq<Thread>, i: nat, x: Thread, f: Thread -> nat)
    requires i < |ts|
    ensures Sum(ts[i := x], f) + f(ts[i]) == Sum(ts, f) + f(x)
    decreases |ts|
  {
    if i > 0 {
      SumUpdate(ts[1..], i - 1, x, f);
      assert ts[i := x][1..] == ts[1..][i - 1 := x];
    } else {
      assert ts[i := x][1..] == ts[1..];
    }
  }

  lemma {:induction false} TotalAppend(a: seq<Bytes>, b: seq<Bytes>)
    ensures Total(a + b) == Total(a) + Total(b)
    decreases |a|
  {
    if a == [] {
      assert a + b == b;
    } else {
      assert (a + b)[1..] == a[1..] + b;
      TotalAppend(a[1..], b);
    }
  }

  lemma {:induction false} SumIdle(ts: seq<Thread>, f: Thread -> nat)
    requires f(Idle) == 0 && forall i :: 0 <= i < |ts| ==> ts[i] == Idle
    ensures Sum(ts, f) == 0
    decreases |ts|
  {
    if ts != [] {
      SumIdle(ts[1..], f);
    }
  }

  // ---- What every step keeps ----

  ghost predicate Inv(q: Queue) {
    && q.pending == Live(q) < SIZES
    && Total(q.frames) + Sum(q.threads, Granted) <= MAX_BYTES
    && q.pushed == q.drained + q.frames
    && (forall t :: 0 <= t < |q.threads| ==> (q.threads[t].Removed? <==> q.lock == Some(t)))
    && (forall t :: 0 <= t < |q.threads| && q.threads[t].Added? ==> q.threads[t].prev + |q.threads[t].frame| < SIZES)
  }

  lemma {:induction false} GrantedWithinHeld(ts: seq<Thread>)
    ensures Sum(ts, Granted) <= Sum(ts, Held)
    decreases |ts|
  {
    if ts != [] {
      GrantedWithinHeld(ts[1..]);
    }
  }

  /** The counter never underflows: what a step subtracts, the counter holds. */
  lemma NoUnderflow(q: Queue, t: nat)
    requires Inv(q) && t < |q.threads|
    ensures Held(q.threads[t]) <= q.pending
  {
    SumUpdate(q.threads, t, Idle, Held);
  }

  lemma StepKeepsPending(q: Queue, t: nat, a: Action)
    requires Inv(q) && Enabled(q, t, a)
    ensures var q' := Step(q, t, a);
            q'.pending == Live(q') < SIZES
  {
    var q' := Step(q, t, a);
    SumUpdate(q.threads, t, q'.threads[t], Held);
    NoUnderflow(q, t);
    if a.Push? {
      TotalAppend(q.frames, [q.threads[t].frame]);
    } else if a.Remove? {
      var n := if |q.frames| < a.max then |q.frames| else a.max;
      assert q.frames == q.frames[..n] + q.frames[n..];
      TotalAppend(q.frames[..n], q.frames[n..]);
    }
  }

  lemma StepKeepsBound(q: Queue, t: nat, a: Action)
    requires Inv(q) && Enabled(q, t, a)
    ensures var q' := Step(q, t, a);
            Total(q'.frames) + Sum(q'.threads, Granted) <= MAX_BYTES
  {
    var q' := Step(q, t, a);
    SumUpdate(q.threads, t, q'.threads[t], Granted);
    if a.Reserve? {
      GrantedWithinHeld(q.threads);
    } else if a.Push? {
      TotalAppend(q.frames, [q.threads[t].frame]);
    } else if a.Remove? {
      var n := if |q.frames| < a.max then |q.frames| else a.max;
      assert q.frames == q.frames[..n] + q.frames[n..];
      TotalAppend(q.frames[..n], q.frames[n..]);
    }
  }

  lemma StepKeepsOrder(q: Queue, t: nat, a: Action)
    requires Inv(q) && Enabled(q, t, a)
    ensures var q' := Step(q, t, a);
            q'.pushed == q'.drained + q'.frames
  {
    if a.Remove? {
      var n := if |q.frames| < a.max then |q.frames| else a.max;
      assert q.frames == q.frames[..n] + q.frames[n..];
    }
  }

  lemma StepKeepsThreads(q: Queue, t: nat, a: Action)
    requires Inv(q) && Enabled(q, t, a)
    ensures var q' := Step(q, t, a);
            && (forall u :: 0 <= u < |q'.threads| ==> (q'.threads[u].Removed? <==> q'.lock == Some(u)))
            && (forall u :: 0 <= u < |q'.threads| && q'.threads[u].Added? ==>
                  q'.threads[u].prev + |q'.threads[u].frame| < SIZES)
  {
  }

  lemma StepKeepsInv(q: Queue, t: nat, a: Action)
    requires Inv(q) && Enabled(q, t, a)
    ensures Inv(Step(q, t, a))
  {
    StepKeepsPending(q, t, a);
    StepKeepsBound(q, t, a);
    StepKeepsOrder(q, t, a);
    StepKeepsThreads(q, t, a);
  }

  /**
   Under every schedule of every number of threads: the counter equals queued, reserved, refused and
   just-removed bytes; queued and admitted bytes never exceed 8 MB; and what has been drained followed
   by what is queued is what was pushed, in order.
   */
  lemma {:induction false} RunKeepsInv(threads: nat, schedule: seq<(nat, Action)>)
    ensures Inv(Run(threads, schedule))
    decreases |schedule|
  {
    if schedule == [] {
      SumIdle(Start(threads).threads, Held);
      SumIdle(Start(threads).threads, Granted);
    } else {
      RunKeepsInv(threads, schedule[..|schedule| - 1]);
      var q := Run(threads, schedule[..|schedule| - 1]);
      var (t, a) := schedule[|schedule| - 1];
      if Enabled(q, t, a) {
        StepKeepsInv(q, t, a);
      }
    }
  }

  /** With no push or drain under way the counter is exactly the queue, and the queue is within its limit. */
  lemma QuietQueue(threads: nat, schedule: seq<(nat, Action)>)
    requires forall t :: 0 <= t < |Run(threads, schedule).threads| ==> Run(threads, schedule).threads[t].Idle?
    ensures Run(threads, schedule).pending == Total(Run(threads, schedule).frames) <= MAX_BYTES
  {
    RunKeepsInv(threads, schedule);
    SumIdle(Run(threads, schedule).threads, Held);
  }

  /** Other threads do not touch a thread that has reserved and not yet tested. */
  lemma OthersKeep(q: Queue, t: nat, u: nat, a: Action)
    requires Enabled(q, u, a) && t != u && t < |q.threads|
    ensures |Step(q, u, a).threads| == |q.threads| && Step(q, u, a).threads[t] == q.threads[t]
  {
  }

  /** A schedule in which the thread takes no step. */
  predicate Without(schedule: seq<(nat, Action)>, t: nat) { forall i :: 0 <= i < |schedule| ==> schedule[i].0 != t }

  lemma {:induction false} OthersRun(q: Queue, t: nat, schedule: seq<(nat, Action)>)
    requires t < |q.threads| && Without(schedule, t)
    ensures |RunOn(q, schedule).threads| == |q.threads| && RunOn(q, schedule).threads[t] == q.threads[t]
    decreases |schedule|
  {
    if schedule != [] {
      var front := schedule[..|schedule| - 1];
      OthersRun(q, t, front);
      var q' := RunOn(q, front);
      var (u, a) := schedule[|schedule| - 1];
      assert schedule[|schedule| - 1].0 != t;
      if Enabled(q', u, a) {
        OthersKeep(q', t, u, a);
      }
    }
  }

  /**
   What a refusal means. In any run, however many steps of other threads lie between its reservation
   and its test, a push is refused exactly when the bytes live at the reservation plus its own exceed
   8 MB.
   */
  lemma RefusedIff(threads: nat, before: seq<(nat, Action)>, t: nat, frame: Bytes, between: seq<(nat, Action)>)
    requires Enabled(Run(threads, before), t, Reserve(frame)) && Without(between, t)
    ensures var q := Run(threads, before);
            var later := RunOn(Step(q, t, Reserve(frame)), between);
            && Enabled(later, t, Test)
            && Step(later, t, Test).threads[t] == if Live(q) + |frame| > MAX_BYTES then Refused(frame) else Admitted(frame)
  {
    RunKeepsInv(threads, before);
    OthersRun(Step(Run(threads, before), t, Reserve(frame)), t, between);
  }

  /**
   A refusal is not proof of a full queue: while an oversized push has reserved but not yet rolled
   back, a push of any size into an empty queue is refused.
   */
  lemma RefusedWhileEmpty(big: Bytes, small: Bytes)
    requires MAX_BYTES < |big| && |big| + |small| < SIZES
    ensures var q := Run(2, [(0, Reserve(big)), (1, Reserve(small)), (1, Test)]);
            |q.threads| == 2 && q.threads[1] == Refused(small) && q.frames == []
  {
    var s: seq<(nat, Action)> := [(0, Reserve(big)), (1, Reserve(small)), (1, Test)];
    assert s[..2] == [(0, Reserve(big)), (1, Reserve(small))] && s[..2][..1] == [(0, Reserve(big))];
    assert s[..2][..1][..0] == [];
    SumIdle(Start(2).threads, Held);
    assert Run(2, s[..2][..1][..0]) == Start(2) && Enabled(Start(2), 0, Reserve(big));
    var q1 := Run(2, s[..2][..1]);
    assert q1 == Step(Start(2), 0, Reserve(big));
    SumUpdate(Start(2).threads, 0, Added(big, 0), Held);
    var q2 := Run(2, s[..2]);
    assert Enabled(q1, 1, Reserve(small)) && q2 == Step(q1, 1, Reserve(small));
    assert Enabled(q2, 1, Test) && Run(2, s) == Step(q2, 1, Test);
  }

  // ---- What is admitted leaves again ----

  /** A whole try_push without interruption: within the limit the frame is the newest of the queue, beyond it nothing is changed. */
  lemma PushOutcome(q: Queue, t: nat, frame: Bytes)
    requires Inv(q) && Enabled(q, t, Reserve(frame)) && q.lock.None?
    ensures var q1 := Step(q, t, Reserve(frame));
            var q2 := Step(q1, t, Test);
            if Live(q) + |frame| > MAX_BYTES then Enabled(q2, t, Rollback) && Step(q2, t, Rollback) == q
            else Enabled(q2, t, Push) &&
                 Step(q2, t, Push) == q.(frames := q.frames + [frame], pushed := q.pushed + [frame], pending := q.pending + |frame|)
  {
    assert q.threads[t] == Idle;
    var q2 := Step(Step(q, t, Reserve(frame)), t, Test);
    assert q2.threads[t := Idle] == q.threads;
  }

  /** A whole drain_batch takes the oldest frames, as many as there are up to the maximum. */
  lemma DrainOutcome(q: Queue, t: nat, max: nat)
    requires Inv(q) && Enabled(q, t, Remove(max))
    ensures var q' := Step(Step(q, t, Remove(max)), t, Subtract);
            var taken := q'.drained[|q.drained|..];
            && |q'.drained| >= |q.drained| && q'.drained == q.drained + taken && q.frames == taken + q'.frames
            && |taken| <= max && (q'.frames == [] || |taken| == max)
            && q'.pending + Total(taken) == q.pending
            && q' == q.(frames := q'.frames, drained := q'.drained, pending := q'.pending)
    ensures Inv(Step(Step(q, t, Remove(max)), t, Subtract))
  {
    StepKeepsInv(q, t, Remove(max));
    var q1 := Step(q, t, Remove(max));
    StepKeepsInv(q1, t, Subtract);
    var q' := Step(q1, t, Subtract);
    NoUnderflow(q1, t);
    var n := if |q.frames| < max then |q.frames| else max;
    assert q'.drained[|q.drained|..] == q.frames[..n];
    assert q.threads[t] == Idle && q'.threads == q.threads;
  }

  function Drain(q: Queue, t: nat, max: nat): (q': Queue)
    requires Enabled(q, t, Remove(max))
    ensures Enabled(q', t, Remove(max))
  {
    Step(Step(q, t, Remove(max)), t, Subtract)
  }

  /** The queue after that many whole drains by one thread. */
  function Drains(q: Queue, t: nat, max: nat, rounds: nat): Queue
    requires Enabled(q, t, Remove(max))
    decreases rounds
  {
    if rounds == 0 then q else Drains(Drain(q, t, max), t, max, rounds - 1)
  }

  lemma DrainKeeps(q: Queue, t: nat, max: nat)
    requires Inv(q) && Enabled(q, t, Remove(max))
    ensures var q' := Drain(q, t, max);
            && Inv(q') && q'.pushed == q.pushed && q'.drained + q'.frames == q.drained + q.frames
            && (|q.frames| <= max ==> q'.frames == []) && (|q.frames| > max ==> |q'.frames| == |q.frames| - max)
  {
    DrainOutcome(q, t, max);
    var q' := Drain(q, t, max);
    var taken := q'.drained[|q.drained|..];
    assert q.drained + taken + q'.frames == q.drained + (taken + q'.frames);
  }

  /** Drains empty the queue, in order, once they allow for as many frames as it holds. */
  lemma {:induction false} DrainsEmpty(q: Queue, t: nat, max: nat, rounds: nat)
    requires Inv(q) && Enabled(q, t, Remove(max)) && |q.frames| <= max * rounds
    ensures var q' := Drains(q, t, max, rounds);
            Inv(q') && q'.frames == [] && q'.drained == q.drained + q.frames && q'.pushed == q.pushed
    decreases rounds
  {
    if rounds == 0 {
      assert q.drained + [] == q.drained;
    } else {
      DrainKeeps(q, t, max);
      OneRound(|q.frames|, max, rounds);
      DrainsEmpty(Drain(q, t, max), t, max, rounds - 1);
    }
  }

  lemma OneRound(n: nat, max: nat, rounds: nat)
    requires rounds > 0 && n <= max * rounds
    ensures (n > max ==> n - max <= max * (rounds - 1)) && 0 <= max * (rounds - 1)
  {
    assert max * rounds == max + max * (rounds - 1);
  }

  // ---- The queue object: each atomic operation and each locked region, as the step it is ----

  class PerConnQueue {
    var frames: seq<Bytes>
    var pendingBytes: nat

    constructor ()
      ensures frames == [] && pendingBytes == 0
    {
      frames, pendingBytes := [], 0;
    }

    /** The fields are those of the state q. */
    ghost predicate Is(q: Queue)
      reads this
    {
      frames == q.frames && pendingBytes == q.pending
    }

    /** The fetch_add of try_push; the caller's thread keeps the value it returns. */
    method Reserve(frame: Bytes, ghost q: Queue, ghost t: nat) returns (prev: nat)
      requires Is(q) && Enabled(q, t, Action.Reserve(frame))
      modifies this
      ensures Is(Step(q, t, Action.Reserve(frame))) && Step(q, t, Action.Reserve(frame)).threads[t] == Added(frame, prev)
    {
      prev := pendingBytes;
      pendingBytes := (pendingBytes + |frame|) % SIZES;
    }

    /** The fetch_sub of a refused push: thanks to the invariant no wrap-around is involved. */
    method Rollback(frame: Bytes, ghost q: Queue, ghost t: nat)
      requires Is(q) && Inv(q) && Enabled(q, t, Action.Rollback) && q.threads[t].frame == frame
      modifies this
      ensures Is(Step(q, t, Action.Rollback)) && pendingBytes == old(pendingBytes) - |frame|
    {
      NoUnderflow(q, t);
      pendingBytes := pendingBytes - |frame|;
    }

    method PushBack(frame: Bytes, ghost q: Queue, ghost t: nat)
      requires Is(q) && Enabled(q, t, Push) && q.threads[t].frame == frame
      modifies this
      ensures Is(Step(q, t, Push))
    {
      frames := frames + [frame];
    }

    /** The locked region of drain_batch up to its fetch_sub. */
    method TakeOut(max: nat, ghost q: Queue, ghost t: nat) returns (batch: seq<Bytes>, bytes: nat)
      requires Is(q) && Enabled(q, t, Remove(max))
      modifies this
      ensures Is(Step(q, t, Remove(max))) && Step(q, t, Remove(max)).threads[t] == Removed(batch)
      ensures bytes == Total(batch)
    {
      var n := if |frames| < max then |frames| else max;
      batch := frames[..n];
      frames := frames[n..];
      bytes := 0;
      for i := 0 to |batch|
        invariant bytes == Total(batch[..i]) && frames == q.frames[n..] && pendingBytes == q.pending
      {
        assert batch[..i + 1] == batch[..i] + [batch[i]];
        TotalAppend(batch[..i], [batch[i]]);
        bytes := bytes + |batch[i]|;
      }
      assert batch[..|batch|] == batch;
    }

    method SubtractDrained(bytes: nat, ghost q: Queue, ghost t: nat)
      requires Is(q) && Inv(q) && Enabled(q, t, Subtract) && bytes == Total(q.threads[t].batch)
      modifies this
      ensures Is(Step(q, t, Subtract)) && pendingBytes == old(pendingBytes) - bytes
    {
      NoUnderflow(q, t);
      pendingBytes := pendingBytes - bytes;
    }
  }
}
