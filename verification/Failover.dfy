/** flush_queue of core/cm/transport.cpp: a batch goes to the best path that takes all of it. */
module Failover {
  import opened Bytes

  const MAX_ERRORS: nat := 3

  datatype Path = Path(tid: nat, priority: nat, active: bool, errors: nat)

  /** How a path's connector will answer this batch. */
  datatype Link =
    | Absent                                  // no connector for the scheme
    | Connector(gathers: bool, accepts: nat -> bool, gathered: bool, partly: nat)
    // gathers: it has send_gather; accepts: its send_to per frame; gathered: its send_gather,
    // which on failure may already have sent the first partly frames

  /** Frames of the batch that one attempt hands to the connector, and whether all went through. */
  function Attempt(link: Link, batch: seq<Bytes>): (bool, seq<Bytes>)
    requires !link.Absent?
  {
    if link.gathers && |batch| > 1 then
      (link.gathered, if link.gathered then batch else batch[..if link.partly < |batch| then link.partly else |batch|])
    else EachTaken(link.accepts, batch)
  }

  function EachTaken(accepts: nat -> bool, batch: seq<Bytes>): (bool, seq<Bytes>) {
    if batch == [] then (true, [])
    else
      var n := |batch| - 1;
      var (ok, taken) := EachTaken(accepts, batch[..n]);
      if accepts(n) then (ok, taken + [batch[n]]) else (false, taken)
  }

  function Worked(p: Path): Path { p.(errors := 0) }

  function Failed(p: Path): Path { p.(errors := p.errors + 1, active := p.active && p.errors + 1 < MAX_ERRORS) }

  /** sends: attempts in order, as (path, frames taken); winner: the path that took the whole batch. */
  datatype Outcome = Outcome(paths: seq<Path>, sends: seq<(nat, seq<Bytes>)>, winner: Option<nat>)

  /** What is owed: try the paths in the given order until one takes everything. */
  function Try(paths: seq<Path>, order: seq<nat>, links: seq<Link>, batch: seq<Bytes>): Outcome
    requires |links| == |paths| && forall k :: 0 <= k < |order| ==> order[k] < |paths|
    decreases |order|
  {
    if order == [] then Outcome(paths, [], None)
    else
      var i := order[0];
      if links[i].Absent? then Try(paths, order[1..], links, batch)
      else
        var (ok, taken) := Attempt(links[i], batch);
        if ok then Outcome(paths[i := Worked(paths[i])], [(i, taken)], Some(i))
        else
          var r := Try(paths[i := Failed(paths[i])], order[1..], links, batch);
          r.(sends := [(i, taken)] + r.sends)
  }

  /** What std::sort leaves: the active paths, each once, best priority first, ties in any order. */
  ghost predicate ByPriority(order: seq<nat>, paths: seq<Path>) {
    && (forall k :: 0 <= k < |order| ==> order[k] < |paths| && paths[order[k]].active)
    && (forall i :: 0 <= i < |paths| && paths[i].active ==> i in order)
    && (forall j, k :: 0 <= j < k < |order| ==> order[j] != order[k] && paths[order[j]].priority <= paths[order[k]].priority)
  }

  /** Some frame of the batch is one the connector does not accept on its own. */
  ghost predicate Balks(accepts: nat -> bool, n: nat) { exists i: nat :: i < n && !accepts(i) }

  lemma {:induction false} EachTakenFacts(accepts: nat -> bool, batch: seq<Bytes>)
    ensures var (ok, taken) := EachTaken(accepts, batch);
            && (ok <==> !Balks(accepts, |batch|)) && (ok ==> taken == batch)
            && (forall f :: f in taken <==> exists i :: 0 <= i < |batch| && accepts(i) && batch[i] == f)
    decreases |batch|
  {
    if batch != [] {
      var n := |batch| - 1;
      EachTakenFacts(accepts, batch[..n]);
      assert batch == batch[..n] + [batch[n]];
      var (ok, taken) := EachTaken(accepts, batch[..n]);
      if !ok {
        var i: nat :| i < n && !accepts(i);
        assert Balks(accepts, |batch|);
      }
      forall f
        ensures f in EachTaken(accepts, batch).1 <==> exists i :: 0 <= i < |batch| && accepts(i) && batch[i] == f
      {
        if f in taken {
          var i :| 0 <= i < n && accepts(i) && batch[..n][i] == f;
          assert batch[i] == f;
        }
        if i :| 0 <= i < |batch| && accepts(i) && batch[i] == f {
          if i < n {
            assert batch[..n][i] == f;
          } else {
            assert f in EachTaken(accepts, batch).1;
          }
        }
        if f in EachTaken(accepts, batch).1 && f !in taken {
          assert accepts(n) && batch[n] == f;
        }
      }
    }
  }

  /**
   The path cannot take the whole batch: it has no connector, or the one gathered call fails, or one
   of the single frames is not accepted.
   */
  ghost predicate Missed(link: Link, batch: seq<Bytes>) {
    link.Absent? || if link.gathers && |batch| > 1 then !link.gathered else Balks(link.accepts, |batch|)
  }

  /**
   An attempt succeeds exactly when the connector can take the batch, and then sends exactly the
   batch. A failing one sends what was accepted frame by frame, or a beginning of the batch.
   */
  lemma AttemptFacts(link: Link, batch: seq<Bytes>)
    requires !link.Absent?
    ensures var (ok, taken) := Attempt(link, batch);
            && (ok <==> !Missed(link, batch)) && (ok ==> taken == batch) && (forall f :: f in taken ==> f in batch)
            && (if link.gathers && |batch| > 1 then taken <= batch
                else forall f :: f in taken <==> exists i :: 0 <= i < |batch| && link.accepts(i) && batch[i] == f)
  {
    EachTakenFacts(link.accepts, batch);
  }

  /**
   Failover. Whatever reaches a connector belongs to the batch, so resending on the next path only
   ever repeats frames. The batch is lost only if every path fails; otherwise the winner got all of
   it, in order, and every path placed before it in the order had failed.
   */
  lemma {:induction false} TryFacts(paths: seq<Path>, order: seq<nat>, links: seq<Link>, batch: seq<Bytes>)
    requires |links| == |paths| && forall k :: 0 <= k < |order| ==> order[k] < |paths|
    ensures var r := Try(paths, order, links, batch);
            && (forall s :: 0 <= s < |r.sends| ==> forall f :: f in r.sends[s].1 ==> f in batch)
            && (r.winner.None? ==> forall k :: 0 <= k < |order| ==> Missed(links[order[k]], batch))
            && (r.winner.Some? ==>
                  && r.sends != [] && r.sends[|r.sends| - 1] == (r.winner.value, batch)
                  && exists k :: 0 <= k < |order| && order[k] == r.winner.value && !Missed(links[order[k]], batch)
                                 && forall j :: 0 <= j < k ==> Missed(links[order[j]], batch))
    decreases |order|
  {
    if order != [] {
      var i := order[0];
      if links[i].Absent? {
        TryFacts(paths, order[1..], links, batch);
        LiftWinner(paths, order, links, batch, Try(paths, order[1..], links, batch));
      } else {
        AttemptFacts(links[i], batch);
        if !Attempt(links[i], batch).0 {
          TryFacts(paths[i := Failed(paths[i])], order[1..], links, batch);
          LiftWinner(paths, order, links, batch, Try(paths[i := Failed(paths[i])], order[1..], links, batch));
        } else {
          assert order[0] == i;
        }
      }
    }
  }

  /** A fact about the tail of the order, restated of the whole order. */
  lemma LiftWinner(paths: seq<Path>, order: seq<nat>, links: seq<Link>, batch: seq<Bytes>, r: Outcome)
    requires |links| == |paths| && order != [] && forall k :: 0 <= k < |order| ==> order[k] < |paths|
    requires Missed(links[order[0]], batch)
    requires r.winner.None? ==> forall k :: 0 <= k < |order[1..]| ==> Missed(links[order[1..][k]], batch)
    requires r.winner.Some? ==>
               exists k :: 0 <= k < |order[1..]| && order[1..][k] == r.winner.value && !Missed(links[order[1..][k]], batch)
                           && forall j :: 0 <= j < k ==> Missed(links[order[1..][j]], batch)
    ensures r.winner.None? ==> forall k :: 0 <= k < |order| ==> Missed(links[order[k]], batch)
    ensures r.winner.Some? ==>
              exists k :: 0 <= k < |order| && order[k] == r.winner.value && !Missed(links[order[k]], batch)
                          && forall j :: 0 <= j < k ==> Missed(links[order[j]], batch)
  {
    if r.winner.None? {
      forall k | 0 <= k < |order|
        ensures Missed(links[order[k]], batch)
      {
        if k > 0 {
          assert order[1..][k - 1] == order[k];
        }
      }
    } else {
      var k :| 0 <= k < |order[1..]| && order[1..][k] == r.winner.value && !Missed(links[order[1..][k]], batch)
               && forall j :: 0 <= j < k ==> Missed(links[order[1..][j]], batch);
      assert order[k + 1] == r.winner.value;
      forall j | 0 <= j < k + 1
        ensures Missed(links[order[j]], batch)
      {
        if j > 0 {
          assert order[1..][j - 1] == order[j];
        }
      }
    }
  }

  /** No active path of better priority than the winner could have taken the batch. */
  lemma WinnerIsBest(paths: seq<Path>, order: seq<nat>, links: seq<Link>, batch: seq<Bytes>, i: nat)
    requires |links| == |paths| && ByPriority(order, paths)
    requires Try(paths, order, links, batch).winner.Some?
    requires i < |paths| && paths[i].active && !Missed(links[i], batch)
    ensures var w := Try(paths, order, links, batch).winner.value;
            w < |paths| && paths[w].active && paths[w].priority <= paths[i].priority
  {
    TryFacts(paths, order, links, batch);
    var w := Try(paths, order, links, batch).winner.value;
    var k :| 0 <= k < |order| && order[k] == w && !Missed(links[order[k]], batch)
             && forall j :: 0 <= j < k ==> Missed(links[order[j]], batch);
    assert i in order;
    var m :| 0 <= m < |order| && order[m] == i;
    assert k <= m;
  }

  // ---- One path over many flushes ----

  /** A path's history: true for a batch it took, false for one it could not. Inactive paths are skipped. */
  function Replay(p: Path, log: seq<bool>): Path {
    if log == [] then p
    else
      var q := Replay(p, log[..|log| - 1]);
      if !q.active then q else if log[|log| - 1] then Worked(q) else Failed(q)
  }

  /** Three failures in a row ending at position k. */
  predicate Triple(log: seq<bool>, k: nat) {
    2 <= k < |log| && !log[k] && !log[k - 1] && !log[k - 2]
  }

  ghost predicate Trailing(log: seq<bool>, n: nat) {
    n <= |log| && (forall i :: |log| - n <= i < |log| ==> !log[i]) && (n < |log| ==> log[|log| - n - 1])
  }

  /** A path is switched off exactly by three consecutive failures, and stays off. */
  lemma {:induction false} InactiveIffTriple(p: Path, log: seq<bool>)
    requires p.active && p.errors == 0
    ensures !Replay(p, log).active <==> exists k :: Triple(log, k)
    ensures Replay(p, log).active ==> Replay(p, log).errors < MAX_ERRORS && Trailing(log, Replay(p, log).errors)
    decreases |log|
  {
    if log != [] {
      var n := |log| - 1;
      var front := log[..n];
      InactiveIffTriple(p, front);
      var q := Replay(p, front);
      if !q.active {
        var k :| Triple(front, k);
        assert Triple(log, k);
      } else {
        forall k: nat | Triple(log, k)
          ensures k == n && q.errors == 2 && !log[n]
        {
          if k < n {
            assert Triple(front, k);
          } else {
            assert front[n - 1] == log[n - 1] && front[n - 2] == log[n - 2];
          }
        }
        if !log[n] && q.errors == 2 {
          assert !front[n - 1] && !front[n - 2];
          assert Triple(log, n);
        }
        forall i | 0 <= i < n
          ensures log[i] == front[i]
        {
        }
      }
    }
  }

  // ---- The history a run of flushes gives a path ----

  /** The attempts on path i during one flush, in order. */
  function Attempts(paths: seq<Path>, order: seq<nat>, links: seq<Link>, batch: seq<Bytes>, i: nat): seq<bool>
    requires |links| == |paths| && forall k :: 0 <= k < |order| ==> order[k] < |paths|
    decreases |order|
  {
    if order == [] then []
    else
      var j := order[0];
      if links[j].Absent? then Attempts(paths, order[1..], links, batch, i)
      else
        var ok := Attempt(links[j], batch).0;
        (if j == i then [ok] else []) +
        if ok then [] else Attempts(paths[j := Failed(paths[j])], order[1..], links, batch, i)
  }

  ghost predicate Once(order: seq<nat>) { forall j, k :: 0 <= j < k < |order| ==> order[j] != order[k] }

  /** A path that is not in the order is not touched. */
  lemma {:induction false} NotTried(paths: seq<Path>, order: seq<nat>, links: seq<Link>, batch: seq<Bytes>, i: nat)
    requires |links| == |paths| && forall k :: 0 <= k < |order| ==> order[k] < |paths|
    requires i < |paths| && i !in order
    ensures Attempts(paths, order, links, batch, i) == []
    ensures var r := Try(paths, order, links, batch).paths; |r| == |paths| && r[i] == paths[i]
    decreases |order|
  {
    if order != [] {
      var j := order[0];
      assert j in order;
      NotTried(if links[j].Absent? then paths else paths[j := Failed(paths[j])], order[1..], links, batch, i);
    }
  }

  /** Some path before the k-th of the order can take the batch. */
  ghost predicate Forestalled(order: seq<nat>, links: seq<Link>, batch: seq<Bytes>, k: nat)
    requires k <= |order| && forall j :: 0 <= j < |order| ==> order[j] < |links|
  {
    exists j :: 0 <= j < k && !Missed(links[order[j]], batch)
  }

  /** A path is attempted once if it has a connector and no path before it can take the batch, else not at all. */
  lemma {:induction false} AttemptedIff(paths: seq<Path>, order: seq<nat>, links: seq<Link>, batch: seq<Bytes>, k: nat)
    requires |links| == |paths| && Once(order) && k < |order| && forall j :: 0 <= j < |order| ==> order[j] < |paths|
    ensures Attempts(paths, order, links, batch, order[k])
            == if links[order[k]].Absent? || Forestalled(order, links, batch, k) then [] else [!Missed(links[order[k]], batch)]
    decreases |order|
  {
    var j, rest := order[0], order[1..];
    var after := if links[j].Absent? then paths else paths[j := Failed(paths[j])];
    if !links[j].Absent? {
      AttemptFacts(links[j], batch);
    }
    if k == 0 {
      assert order[0] !in rest;
      NotTried(after, rest, links, batch, order[0]);
    } else if Missed(links[j], batch) {
      AttemptedIff(after, rest, links, batch, k - 1);
      assert rest[k - 1] == order[k];
      ForestalledTail(order, links, batch, k);
    } else {
      assert order[0] == j;
      assert Forestalled(order, links, batch, k);
    }
  }

  lemma ForestalledTail(order: seq<nat>, links: seq<Link>, batch: seq<Bytes>, k: nat)
    requires 0 < k < |order| && (forall j :: 0 <= j < |order| ==> order[j] < |links|) && Missed(links[order[0]], batch)
    ensures Forestalled(order, links, batch, k) <==> Forestalled(order[1..], links, batch, k - 1)
  {
    if j :| 0 <= j < k && !Missed(links[order[j]], batch) {
      assert order[1..][j - 1] == order[j];
    }
    if j :| 0 <= j < k - 1 && !Missed(links[order[1..][j]], batch) {
      assert order[1..][j] == order[j + 1];
    }
  }

  /** During a flush a path changes as its own attempts say. */
  lemma {:induction false} TryReplays(paths: seq<Path>, order: seq<nat>, links: seq<Link>, batch: seq<Bytes>, i: nat)
    requires |links| == |paths| && Once(order) && forall k :: 0 <= k < |order| ==> order[k] < |paths|
    requires i < |paths| && (i in order ==> paths[i].active)
    ensures var r := Try(paths, order, links, batch).paths;
            |r| == |paths| && r[i] == Replay(paths[i], Attempts(paths, order, links, batch, i))
    decreases |order|
  {
    if order != [] {
      var j, rest := order[0], order[1..];
      if links[j].Absent? {
        TryReplays(paths, rest, links, batch, i);
      } else if j == i {
        assert i !in rest;
        NotTried(paths[j := Failed(paths[j])], rest, links, batch, i);
        var ok := Attempt(links[j], batch).0;
        assert Replay(paths[i], [ok]) == if ok then Worked(paths[i]) else Failed(paths[i]) by {
          assert [ok][..0] == [];
        }
        assert [ok] + [] == [ok];
      } else if !Attempt(links[j], batch).0 {
        TryReplays(paths[j := Failed(paths[j])], rest, links, batch, i);
        var more := Attempts(paths[j := Failed(paths[j])], rest, links, batch, i);
        assert [] + more == more;
      }
    }
  }

  /** One flush: the order the sort left, how each connector answers, and the batch. */
  datatype Flushing = Flushing(order: seq<nat>, links: seq<Link>, own: Link, batch: seq<Bytes>)

  ghost predicate CanFlush(paths: seq<Path>, f: Flushing) { |f.links| == |paths| && ByPriority(f.order, paths) }

  function AfterFlush(paths: seq<Path>, f: Flushing): seq<Path>
    requires |f.links| == |paths| && forall k :: 0 <= k < |f.order| ==> f.order[k] < |paths|
  {
    Flush(paths, f.order, f.links, f.own, f.batch).tried.paths
  }

  /** A run of flushes: each sorts the paths as the one before left them. */
  ghost predicate CanRun(paths: seq<Path>, run: seq<Flushing>)
    decreases |run|
  {
    run == [] || (CanFlush(paths, run[0]) && CanRun(AfterFlush(paths, run[0]), run[1..]))
  }

  ghost function AfterRun(paths: seq<Path>, run: seq<Flushing>): seq<Path>
    requires CanRun(paths, run)
    decreases |run|
  {
    if run == [] then paths else AfterRun(AfterFlush(paths, run[0]), run[1..])
  }

  function Tries(paths: seq<Path>, f: Flushing, i: nat): seq<bool>
    requires |f.links| == |paths| && forall k :: 0 <= k < |f.order| ==> f.order[k] < |paths|
  {
    if f.batch == [] then [] else Attempts(paths, f.order, f.links, f.batch, i)
  }

  /** All attempts on path i over a run. */
  ghost function History(paths: seq<Path>, run: seq<Flushing>, i: nat): seq<bool>
    requires CanRun(paths, run)
    decreases |run|
  {
    if run == [] then [] else Tries(paths, run[0], i) + History(AfterFlush(paths, run[0]), run[1..], i)
  }

  lemma {:induction false} ReplayAppend(p: Path, a: seq<bool>, b: seq<bool>)
    ensures Replay(p, a + b) == Replay(Replay(p, a), b)
    decreases |b|
  {
    if b == [] {
      assert a + b == a;
    } else {
      ReplayAppend(p, a, b[..|b| - 1]);
      assert (a + b)[..|a + b| - 1] == a + b[..|b| - 1];
    }
  }

  lemma {:induction false} RunReplays(paths: seq<Path>, run: seq<Flushing>, i: nat)
    requires CanRun(paths, run) && i < |paths|
    ensures var after := AfterRun(paths, run);
            |after| == |paths| && after[i] == Replay(paths[i], History(paths, run, i))
    decreases |run|
  {
    if run != [] {
      var f := run[0];
      if f.batch != [] {
        TryReplays(paths, f.order, f.links, f.batch, i);
      }
      RunReplays(AfterFlush(paths, f), run[1..], i);
      ReplayAppend(paths[i], Tries(paths, f, i), History(AfterFlush(paths, f), run[1..], i));
    }
  }

  /** Over any run of flushes a path is switched off exactly by three failed attempts on it in a row. */
  lemma SwitchedOffIff(paths: seq<Path>, run: seq<Flushing>, i: nat)
    requires CanRun(paths, run) && i < |paths| && paths[i].active && paths[i].errors == 0
    ensures var after := AfterRun(paths, run);
            |after| == |paths| && (!after[i].active <==> exists k :: Triple(History(paths, run, i), k))
  {
    RunReplays(paths, run, i);
    InactiveIffTriple(paths[i], History(paths, run, i));
  }

  // ---- The loops ----

  /** ConnectionRecord::best_path: the active path of least priority number, the first of equals. */
  method BestPath(paths: seq<Path>) returns (best: Option<nat>)
    ensures best.None? <==> forall i :: 0 <= i < |paths| ==> !paths[i].active
    ensures best.Some? ==>
              && best.value < |paths| && paths[best.value].active
              && (forall i :: 0 <= i < |paths| && paths[i].active ==> paths[best.value].priority <= paths[i].priority)
              && (forall i :: 0 <= i < best.value && paths[i].active ==> paths[best.value].priority < paths[i].priority)
  {
    best := None;
    for i := 0 to |paths|
      invariant best.None? <==> forall j :: 0 <= j < i ==> !paths[j].active
      invariant best.Some? ==>
                  && best.value < i && paths[best.value].active
                  && (forall j :: 0 <= j < i && paths[j].active ==> paths[best.value].priority <= paths[j].priority)
                  && (forall j :: 0 <= j < best.value && paths[j].active ==> paths[best.value].priority < paths[j].priority)
    {
      if paths[i].active && (best.None? || paths[i].priority < paths[best.value].priority) {
        best := Some(i);
      }
    }
  }

  /** flush_frames_to_connector: one gathered call when the connector has it and there are several frames. */
  method FlushFrames(link: Link, batch: seq<Bytes>) returns (ok: bool, taken: seq<Bytes>)
    requires !link.Absent?
    ensures (ok, taken) == Attempt(link, batch)
  {
    if link.gathers && |batch| > 1 {
      ok := link.gathered;
      taken := if ok then batch else batch[..if link.partly < |batch| then link.partly else |batch|];
    } else {
      ok, taken := true, [];
      for i := 0 to |batch|
        invariant (ok, taken) == EachTaken(link.accepts, batch[..i])
      {
        assert batch[..i + 1][..i] == batch[..i];
        if link.accepts(i) {
          taken := taken + [batch[i]];
        } else {
          ok := false;
        }
      }
      assert batch[..|batch|] == batch;
    }
  }

  // ---- The whole of flush_queue ----

  /** tried: the paths; fallback: frames taken by the connector used without paths; dropped: a drop is reported. */
  datatype Flushed = Flushed(tried: Outcome, fallback: Option<seq<Bytes>>, dropped: bool)

  /** An empty batch does nothing; without any active path the connection's own scheme is tried once. */
  function Flush(paths: seq<Path>, order: seq<nat>, links: seq<Link>, own: Link, batch: seq<Bytes>): Flushed
    requires |links| == |paths| && forall k :: 0 <= k < |order| ==> order[k] < |paths|
  {
    if batch == [] then Flushed(Outcome(paths, [], None), None, false)
    else
      var r := Try(paths, order, links, batch);
      if r.winner.Some? then Flushed(r, None, false)
      else if order == [] && !own.Absent? then Flushed(r, Some(Attempt(own, batch).1), false)
      else Flushed(r, None, true)
  }

  /** Some connector has been handed the whole batch. */
  predicate HandedOver(f: Flushed, batch: seq<Bytes>) {
    batch == [] || f.tried.winner.Some? || f.fallback == Some(batch)
  }

  /**
   A batch is handed over in full if some active path can take it, or if no path is active and the
   connection's own connector can; a drop is reported only for a batch that no connector got in full.
   What the own connector refuses is lost without a report.
   */
  lemma FlushFacts(paths: seq<Path>, order: seq<nat>, links: seq<Link>, own: Link, batch: seq<Bytes>)
    requires |links| == |paths| && ByPriority(order, paths)
    ensures var f := Flush(paths, order, links, own, batch);
            && (f.dropped <==> batch != [] && (forall k :: 0 <= k < |order| ==> Missed(links[order[k]], batch)) &&
                               (order != [] || own.Absent?))
            && (f.dropped ==> !HandedOver(f, batch))
            && ((exists k :: 0 <= k < |order| && !Missed(links[order[k]], batch)) ==> HandedOver(f, batch))
            && (order == [] && !Missed(own, batch) ==> HandedOver(f, batch))
            && (f.fallback.Some? ==> order == [] && forall x :: x in f.fallback.value ==> x in batch)
  {
    if batch != [] {
      TryFacts(paths, order, links, batch);
      if !own.Absent? {
        AttemptFacts(own, batch);
      }
    }
  }

  class Connection {
    var paths: seq<Path>

    constructor (ps: seq<Path>)
      ensures paths == ps
    {
      paths := ps;
    }

    /** order is what sorting the active paths produced, own the connector of the connection's scheme. */
    method FlushQueue(order: seq<nat>, links: seq<Link>, own: Link, batch: seq<Bytes>) returns (f: Flushed)
      requires |links| == |paths| && ByPriority(order, paths)
      modifies this
      ensures f == Flush(old(paths), order, links, own, batch) && f.tried.paths == paths
    {
      if batch == [] {
        return Flushed(Outcome(paths, [], None), None, false);
      }
      var winner, sends := TryPaths(order, links, batch);
      if winner.Some? {
        return Flushed(Outcome(paths, sends, winner), None, false);
      }
      if order == [] && !own.Absent? {
        var _, taken := FlushFrames(own, batch);
        return Flushed(Outcome(paths, sends, winner), Some(taken), false);
      }
      return Flushed(Outcome(paths, sends, winner), None, true);
    }

    /** The loop over the sorted paths. */
    method TryPaths(order: seq<nat>, links: seq<Link>, batch: seq<Bytes>)
      returns (winner: Option<nat>, sends: seq<(nat, seq<Bytes>)>)
      requires |links| == |paths| && ByPriority(order, paths)
      modifies this
      ensures Outcome(paths, sends, winner) == Try(old(paths), order, links, batch)
    {
      sends := [];
      ghost var whole := Try(paths, order, links, batch);
      assert order[0..] == order && [] + whole.sends == whole.sends;
      var k := 0;
      while k < |order|
        invariant 0 <= k <= |order| && |paths| == |links|
        invariant var r := Try(paths, order[k..], links, batch);
                  whole == r.(sends := sends + r.sends)
      {
        var i := order[k];
        assert order[k..][1..] == order[k + 1..];
        k := k + 1;
        if links[i].Absent? {
          continue;
        }
        var ok, taken := FlushFrames(links[i], batch);
        ghost var before := sends;
        sends := sends + [(i, taken)];
        if ok {
          paths := paths[i := Worked(paths[i])];
          return Some(i), sends;
        }
        paths := paths[i := Failed(paths[i])];
        ghost var r := Try(paths, order[k..], links, batch);
        assert before + ([(i, taken)] + r.sends) == sends + r.sends;
      }
      winner := None;
    }
  }
}
