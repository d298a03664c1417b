/** What each event must bring about in an ICE session: which end is nominated, what is sent, what fails. */
module IceOutcomes {
  import opened Bytes
  import opened Stun
  import opened IceCandidates
  import opened IceSession
  import opened IceSafety

  // ---- Nomination ----

  /** Pair i is being checked under this transaction id. */
  predicate Answers(s: Session, i: nat, txn: TransactionId) {
    i < |s.list| && s.list[i].status == InProgress && s.list[i].txn == txn
  }

  ghost predicate SomeAnswered(s: Session, txn: TransactionId) { exists i: nat :: Answers(s, i, txn) }

  lemma FoundIff(s: Session, txn: TransactionId)
    ensures FirstAnswered(s.list, txn, 0) < |s.list| <==> SomeAnswered(s, txn)
  {
    var i := FirstAnswered(s.list, txn, 0);
    if i < |s.list| {
      assert Answers(s, i, txn);
    }
    if SomeAnswered(s, txn) {
      var j: nat :| Answers(s, j, txn);
      assert i <= j;
    }
  }

  /**
   A controlling agent without a nomination is nominated by a response exactly when it answers a check
   in progress; the pair that was answered has then succeeded, and its remote end is the one in use.
   */
  lemma ResponseNominatesIff(s: Session, answers: TransactionId, txn: TransactionId)
    requires s.controlling && !s.nominated
    ensures var t := HandleResponse(s, answers, txn).0;
            && (t.nominated <==> SomeAnswered(s, answers))
            && (t.nominated ==>
                  exists i: nat :: Answers(s, i, answers) && i < |t.list| && t.list[i].status == Succeeded &&
                                   t.remoteEp == s.list[i].pair.theirs.endpoint && t.state == Connected)
  {
    FoundIff(s, answers);
    var i := FirstAnswered(s.list, answers, 0);
    if i < |s.list| {
      assert Answers(s, i, answers);
    }
  }

  /** An answered check succeeds, in either role, and no other pair is touched. */
  lemma AnsweredSucceeds(s: Session, answers: TransactionId, txn: TransactionId)
    requires SomeAnswered(s, answers) && !(s.nominated && answers == s.keepaliveTxn)
    ensures var t := HandleResponse(s, answers, txn).0;
            |t.list| == |s.list| &&
            exists i: nat :: Answers(s, i, answers) && t.list[i] == s.list[i].(status := Succeeded) &&
                             forall j :: 0 <= j < |s.list| && j != i ==> t.list[j] == s.list[j]
  {
    FoundIff(s, answers);
    var i := FirstAnswered(s.list, answers, 0);
    assert Answers(s, i, answers);
  }

  /**
   A controlled agent without a nomination is nominated by a request exactly when it carries
   USE-CANDIDATE, and then the sender's address is the end in use and that of a pair that succeeded.
   */
  lemma RequestNominatesIff(s: Session, from: Mapped, useCandidate: bool, priority: nat, txn: TransactionId)
    requires !s.controlling && !s.nominated
    ensures var t := HandleRequest(s, from, useCandidate, priority, txn).0;
            && (t.nominated <==> useCandidate)
            && (t.nominated ==>
                  t.remoteEp == from && t.state == Connected &&
                  exists i :: 0 <= i < |t.list| && t.list[i].pair.theirs.endpoint == from && t.list[i].status == Succeeded)
  {
    if useCandidate {
      var t := HandleRequest(s, from, useCandidate, priority, txn).0;
      var i := FirstTo(s.list, from, 0);
      assert i < |t.list| && t.list[i].pair.theirs.endpoint == from && t.list[i].status == Succeeded;
    }
  }

  /** The end an event nominates. */
  ghost predicate NominatedBy(s: Session, e: Event, ep: Mapped) {
    match e
    case Response(answers, _) =>
      s.controlling && exists i: nat :: Answers(s, i, answers) && s.list[i].pair.theirs.endpoint == ep
    case Request(from, useCandidate, _, _) => !s.controlling && useCandidate && from == ep
    case _ => false
  }

  lemma OthersNeverNominate(c: Config, s: Session, e: Event)
    requires !e.Response? && !e.Request? && !s.nominated
    ensures !Step(c, s, e).0.nominated
  {
    match e
    case Gathered(reflexive, txn) =>
      BeginAims(c, if reflexive.Some? then s.(locals := s.locals + [reflexive.value]) else s, txn);
    case SetRemote(candidates, txn) => BeginAims(c, s.(remotes := candidates), txn);
    case StartChecks(txn) => BeginAims(c, s, txn);
    case CheckTimer(txn) => SendNextCheckAims(s, txn);
    case _ =>
  }

  /** Whatever the event, a session that becomes nominated uses the end that was answered or that asked. */
  lemma NominationSource(c: Config, s: Session, e: Event)
    requires !s.nominated && Step(c, s, e).0.nominated
    ensures NominatedBy(s, e, Step(c, s, e).0.remoteEp)
  {
    match e
    case Response(answers, txn) =>
      if s.controlling {
        ResponseNominatesIff(s, answers, txn);
      } else {
        assert false;
      }
    case Request(from, useCandidate, priority, txn) =>
      if !s.controlling {
        RequestNominatesIff(s, from, useCandidate, priority, txn);
      } else {
        assert false;
      }
    case _ => OthersNeverNominate(c, s, e);
  }

  /** Over any run: the end a session reports and uses is one that a response or a request of the run nominated. */
  lemma {:induction false} JoinedRightly(c: Config, controlling: bool, events: seq<Event>)
    requires Run(c, Initial(controlling), events).0.nominated
    ensures exists k :: 0 <= k < |events| &&
                        NominatedBy(Run(c, Initial(controlling), events[..k]).0, events[k],
                                    Run(c, Initial(controlling), events).0.remoteEp)
    decreases |events|
  {
    var n := |events| - 1;
    var s := Run(c, Initial(controlling), events[..n]).0;
    if s.nominated {
      JoinedRightly(c, controlling, events[..n]);
      var k :| 0 <= k < n && NominatedBy(Run(c, Initial(controlling), events[..n][..k]).0, events[..n][k], s.remoteEp);
      NominationKept(c, s, events[n]);
      assert events[..n][..k] == events[..k] && events[..n][k] == events[k];
      assert NominatedBy(Run(c, Initial(controlling), events[..k]).0, events[k], Run(c, Initial(controlling), events).0.remoteEp);
    } else {
      NominationSource(c, s, events[n]);
      assert NominatedBy(Run(c, Initial(controlling), events[..n]).0, events[n], Run(c, Initial(controlling), events).0.remoteEp);
    }
  }

  // ---- Consent ----

  /** Nomination of an open session sends a keepalive there at once, under the new transaction id. */
  lemma NominateKeepsAlive(s: Session, i: nat, txn: TransactionId)
    requires !s.nominated && i < |s.list| && !s.closed
    ensures var (t, log) := Nominate(s, i, txn);
            var ep := s.list[i].pair.theirs.endpoint;
            log == [Kept(ep), Joined(ep)] && t.keepaliveTxn == txn && t.missed == 1 && t.armed
  {
  }

  /**
   When the timer fires on a session in use: consent is lost exactly when the limit of unanswered
   keepalives is reached, and otherwise one more goes to the end in use.
   */
  lemma TimerLosesIff(c: Config, s: Session, log: Log, txn: TransactionId)
    requires Consent(c, s, log) && s.armed && s.nominated && s.state == Connected && !s.closed
    ensures var (t, out) := KeepaliveFired(c, s, txn);
            if Quiet(log) >= c.maxFailures then t.state == Failed && out == [Lost]
            else t.state == Connected && out == [Kept(s.remoteEp)] && t.keepaliveTxn == txn && t.armed
  {
  }

  /** A nominated session takes a response for the answer to its last keepalive exactly by its id. */
  lemma HeardIff(s: Session, answers: TransactionId, txn: TransactionId)
    requires s.nominated
    ensures var (t, out) := HandleResponse(s, answers, txn);
            (Heard in out <==> answers == s.keepaliveTxn) && (Heard in out ==> t.missed == 0)
  {
  }

  /** The session timer fails a session exactly when it is still checking without a nomination. */
  lemma TimeoutIff(c: Config, s: Session)
    ensures var (t, out) := Step(c, s, SessionTimer);
            (out == [GaveUp] <==> s.state == Checking && !s.nominated) &&
            t.state == if s.state == Checking && !s.nominated then Failed else s.state
  {
  }

  /** Something goes out to a peer. */
  predicate Sends(out: Log) { exists i :: 0 <= i < |out| && (out[i].Checked? || out[i].Kept?) }

  /** A closed session stays closed and sends no check and no keepalive, whatever still reaches it. */
  lemma ClosedSilent(c: Config, s: Session, e: Event)
    requires s.closed || e.Close?
    ensures Step(c, s, e).0.closed && !Sends(Step(c, s, e).1)
  {
  }

  /** Over any run: nothing is sent behind a close. */
  lemma {:induction false} SilentAfterClose(c: Config, s: Session, events: seq<Event>)
    requires s.closed
    ensures Run(c, s, events).0.closed && !Sends(Run(c, s, events).1)
    decreases |events|
  {
    if events != [] {
      SilentAfterClose(c, s, events[..|events| - 1]);
      ClosedSilent(c, Run(c, s, events[..|events| - 1]).0, events[|events| - 1]);
    }
  }

  // ---- Starting to check ----

  /** The event starts the checks. */
  predicate StartsChecks(s: Session, e: Event) {
    match e
    case Gathered(_, _) => s.state == Gathering && s.remotes != []
    case SetRemote(_, _) => s.state == WaitingRemote
    case StartChecks(_) => s.state == WaitingRemote && s.remotes != []
    case _ => false
  }

  /** The candidates the list is then formed of. */
  function Ours(s: Session, e: Event): seq<Candidate> {
    if e.Gathered? && e.reflexive.Some? then s.locals + [e.reflexive.value] else s.locals
  }

  function Theirs(s: Session, e: Event): seq<Candidate> { if e.SetRemote? then e.candidates else s.remotes }

  function PairsOf(list: seq<Check>): (r: seq<Pair>)
    ensures |r| == |list| && forall i :: 0 <= i < |list| ==> r[i] == list[i].pair
  {
    if list == [] then [] else PairsOf(list[..|list| - 1]) + [list[|list| - 1].pair]
  }

  lemma FormedPairs(c: Config, s: Session)
    requires Sorts(c)
    ensures IsCheckList(PairsOf(FormedList(c, s)), s.locals, s.remotes, s.controlling)
  {
    var sorted := c.sort(AllPairs(s.locals, s.remotes, s.controlling));
    assert Descending(sorted) && multiset(sorted) == multiset(AllPairs(s.locals, s.remotes, s.controlling));
    assert PairsOf(FormedList(c, s)) == sorted;
  }

  lemma SamePairs(a: seq<Check>, b: seq<Check>)
    requires |a| == |b| && forall i :: 0 <= i < |a| ==> a[i].pair == b[i].pair
    ensures PairsOf(a) == PairsOf(b)
  {
  }

  /** A check changes a pair's status and nothing of the pairs. */
  lemma SendNextCheckPairs(s: Session, txn: TransactionId)
    requires s.next <= |s.list|
    ensures PairsOf(SendNextCheck(s, txn).0.list) == PairsOf(s.list)
  {
    CheckOneIs(s, txn);
    SamePairs(CheckOne(s, txn).0.list, s.list);
    assert SendNextCheck(s, txn).0.list == s.list || SendNextCheck(s, txn).0.list == CheckOne(s, txn).0.list;
  }

  /**
   Checks start, from a state before them, exactly by these events; the list is then every pair of one
   address family, best first, and of an open session the best pair is checked at once.
   */
  lemma StartIff(c: Config, s: Session, e: Event)
    requires Sorts(c) && Early(s) && !s.closed && !s.nominated && !e.Request? && !e.Response? && !e.KeepaliveTimer?
    ensures var (t, out) := Step(c, s, e);
            && (!Early(t) <==> StartsChecks(s, e))
            && (StartsChecks(s, e) ==> IsCheckList(PairsOf(t.list), Ours(s, e), Theirs(s, e), s.controlling))
            && (StartsChecks(s, e) && t.list != [] ==>
                  t.state == Checking && t.list[0].status == InProgress && out == [Checked(0, t.list[0].pair.priority)])
  {
    if StartsChecks(s, e) {
      var u := s.(locals := Ours(s, e), remotes := Theirs(s, e));
      assert Step(c, s, e) == Begin(c, u, e.txn);
      BeginForms(c, u, e.txn);
    }
  }

  /** The first turn over a list of waiting pairs. */
  lemma FirstTurn(u: Session, txn: TransactionId)
    requires u.state == Checking && !u.closed && !u.nominated && u.next == 0
    requires forall i :: 0 <= i < |u.list| ==> u.list[i].status == Waiting
    ensures var (t, out) := SendNextCheck(u, txn);
            !Early(t) && |t.list| == |u.list| &&
            (u.list != [] ==> t.state == Checking && t.list[0].status == InProgress &&
                              t.list[0].pair == u.list[0].pair && out == [Checked(0, u.list[0].pair.priority)])
  {
    if u.list != [] {
      var t := CheckOne(u, txn).0;
      assert t.list == u.list[0 := u.list[0].(status := InProgress, txn := txn)];
      assert t.list[0].status == InProgress;
    }
  }

  lemma BeginForms(c: Config, s: Session, txn: TransactionId)
    requires Sorts(c) && !s.closed && !s.nominated
    ensures var (t, out) := Begin(c, s, txn);
            && IsCheckList(PairsOf(t.list), s.locals, s.remotes, s.controlling) && !Early(t)
            && (t.list != [] ==>
                  t.state == Checking && t.list[0].status == InProgress && out == [Checked(0, t.list[0].pair.priority)])
  {
    var u := s.(state := Checking, list := FormedList(c, s), next := 0);
    FormedPairs(c, s);
    SendNextCheckPairs(u, txn);
    FirstTurn(u, txn);
  }

  // ---- The scheduler gets through the list ----

  function Waitings(list: seq<Check>): nat {
    if list == [] then 0
    else Waitings(list[..|list| - 1]) + if list[|list| - 1].status == Waiting then 1 else 0
  }

  lemma {:induction false} OneLess(list: seq<Check>, i: nat, x: Check)
    requires i < |list| && list[i].status == Waiting && x.status != Waiting
    ensures Waitings(list[i := x]) == Waitings(list) - 1
    decreases |list|
  {
    var n := |list| - 1;
    if i < n {
      OneLess(list[..n], i, x);
      assert list[i := x][..n] == list[..n][i := x];
    } else {
      assert list[i := x][..n] == list[..n];
    }
  }

  lemma {:induction false} NoneWaiting(list: seq<Check>)
    ensures Waitings(list) == 0 <==> forall i :: 0 <= i < |list| ==> list[i].status != Waiting
    decreases |list|
  {
    if list != [] {
      NoneWaiting(list[..|list| - 1]);
      assert forall i :: 0 <= i < |list| - 1 ==> list[..|list| - 1][i] == list[i];
    }
  }

  /** As long as a pair is waiting, the scheduler finds one, and no waiting one is better. */
  lemma BestWaiting(s: Session) returns (i: nat)
    requires Shape(s) && s.state == Checking && Waitings(s.list) > 0
    ensures s.next <= |s.list| && i == FirstWaiting(s.list, s.next) < |s.list| && s.list[i].status == Waiting
    ensures forall j :: 0 <= j < |s.list| && s.list[j].status == Waiting ==> s.list[j].pair.priority <= s.list[i].pair.priority
  {
    NoneWaiting(s.list);
    i := FirstWaiting(s.list, s.next);
    var j :| 0 <= j < |s.list| && s.list[j].status == Waiting;
    assert i <= j;
  }

  /** A turn of the scheduler checks one more pair as long as one is waiting, and it is the best of those. */
  lemma TurnChecksBest(s: Session, txn: TransactionId)
    requires Shape(s) && s.state == Checking && !s.closed && Waitings(s.list) > 0
    ensures var (t, out) := SendNextCheck(s, txn);
            && t.state == Checking && Waitings(t.list) == Waitings(s.list) - 1 && |out| == 1 && out[0].Checked?
            && Answers(t, out[0].index, txn)
            && (forall j :: 0 <= j < |s.list| && s.list[j].status == Waiting ==> s.list[j].pair.priority <= out[0].priority)
  {
    var i := BestWaiting(s);
    TurnAt(s, i, txn);
  }

  lemma TurnAt(s: Session, i: nat, txn: TransactionId)
    requires s.state == Checking && !s.closed && s.next <= |s.list|
    requires i == FirstWaiting(s.list, s.next) < |s.list| && s.list[i].status == Waiting
    ensures var (t, out) := SendNextCheck(s, txn);
            && t.state == Checking && Waitings(t.list) == Waitings(s.list) - 1 && Answers(t, i, txn)
            && out == [Checked(i, s.list[i].pair.priority)]
  {
    var x := s.list[i].(status := InProgress, txn := txn);
    OneLess(s.list, i, x);
    var t := CheckOne(s, txn).0;
    assert t.list == s.list[i := x] && t.list[i].status == InProgress;
    assert Pending(t.list);
  }

  /** Left to its timer, an open session that is checking has every pair checked after that many turns. */
  lemma {:induction false} EveryPairChecked(c: Config, s: Session, turns: seq<Event>)
    requires Shape(s) && s.state == Checking && !s.closed && |turns| <= Waitings(s.list)
    requires forall i :: 0 <= i < |turns| ==> turns[i].CheckTimer?
    ensures var t := Run(c, s, turns).0;
            Shape(t) && t.state == Checking && !t.closed && Waitings(t.list) == Waitings(s.list) - |turns|
    decreases |turns|
  {
    if turns != [] {
      var n := |turns| - 1;
      EveryPairChecked(c, s, turns[..n]);
      var t := Run(c, s, turns[..n]).0;
      TurnChecksBest(t, turns[n].txn);
      SendNextCheckShape(t, turns[n].txn);
    }
  }
}
