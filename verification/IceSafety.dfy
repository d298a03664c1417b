/** What holds of an ICE session after any run of events, in any order. */
module IceSafety {
  import opened Bytes
  import opened Stun
  import opened IceCandidates
  import opened IceSession

  // ---- Reading a log ----

  /** Keepalives sent since the last one answered. */
  function Quiet(log: Log): nat {
    if log == [] then 0
    else match log[|log| - 1]
      case Kept(_) => Quiet(log[..|log| - 1]) + 1
      case Heard => 0
      case _ => Quiet(log[..|log| - 1])
  }

  /** The ends the session reported to be connected to. */
  function Joins(log: Log): seq<Mapped> {
    if log == [] then []
    else Joins(log[..|log| - 1]) + match log[|log| - 1] case Joined(to) => [to] case _ => []
  }

  function Checks(log: Log): (cs: Log)
    ensures forall k :: 0 <= k < |cs| ==> cs[k].Checked?
  {
    if log == [] then []
    else Checks(log[..|log| - 1]) + if log[|log| - 1].Checked? then [log[|log| - 1]] else []
  }

  lemma Snoc(log: Log, x: Entry)
    ensures Quiet(log + [x]) == match x case Kept(_) => Quiet(log) + 1 case Heard => 0 case _ => Quiet(log)
    ensures Joins(log + [x]) == Joins(log) + match x case Joined(to) => [to] case _ => []
  {
    assert (log + [x])[..|log|] == log;
  }

  lemma SnocChecks(log: Log, x: Entry)
    ensures Checks(log + [x]) == Checks(log) + if x.Checked? then [x] else []
  {
    assert (log + [x])[..|log|] == log;
  }

  // ---- The session alone ----

  predicate Early(s: Session) { s.state == New || s.state == Gathering || s.state == WaitingRemote }

  /** Connected implies nominated, nominated implies connected or failed, and no list before Checking. */
  ghost predicate Phases(s: Session) {
    (s.state == Connected ==> s.nominated) && (s.nominated ==> s.state == Connected || s.state == Failed) &&
    (Early(s) ==> s.list == [] && s.next == 0)
  }

  /** No waiting pair lies below next, and a waiting pair has nothing worse before it. */
  ghost predicate Scheduled(s: Session) {
    s.next <= |s.list| &&
    (forall i :: 0 <= i < s.next ==> s.list[i].status != Waiting) &&
    (forall i, j :: 0 <= i < j < |s.list| && s.list[j].status == Waiting ==>
                      s.list[i].pair.priority >= s.list[j].pair.priority)
  }

  /** A controlling agent nominates on its first success. */
  ghost predicate FirstSuccess(s: Session) {
    s.controlling && !s.nominated ==> forall i :: 0 <= i < |s.list| ==> s.list[i].status != Succeeded
  }

  ghost predicate Shape(s: Session) { Phases(s) && Scheduled(s) && FirstSuccess(s) }

  lemma CheckOneShape(s: Session, txn: TransactionId)
    requires Shape(s) && s.state == Checking
    ensures Shape(CheckOne(s, txn).0) && CheckOne(s, txn).0.state == Checking
  {
  }

  lemma SendNextCheckShape(s: Session, txn: TransactionId)
    requires Shape(s)
    ensures Shape(SendNextCheck(s, txn).0)
  {
    if s.state == Checking && !s.closed {
      CheckOneShape(s, txn);
    }
  }

  lemma FormedShape(c: Config, s: Session)
    requires Sorts(c) && Shape(s) && Early(s)
    ensures Shape(s.(state := Checking, list := FormedList(c, s), next := 0))
  {
    var sorted := c.sort(AllPairs(s.locals, s.remotes, s.controlling));
    assert Descending(sorted);
  }

  lemma BeginShape(c: Config, s: Session, txn: TransactionId)
    requires Sorts(c) && Shape(s) && Early(s)
    ensures Shape(Begin(c, s, txn).0)
  {
    FormedShape(c, s);
    SendNextCheckShape(s.(state := Checking, list := FormedList(c, s), next := 0), txn);
  }

  lemma NominateShape(s: Session, i: nat, txn: TransactionId)
    requires Phases(s) && Scheduled(s) && i < |s.list|
    ensures Shape(Nominate(s, i, txn).0)
  {
  }

  lemma ResponseShape(s: Session, answers: TransactionId, txn: TransactionId)
    requires Shape(s)
    ensures Shape(HandleResponse(s, answers, txn).0)
  {
    var i := FirstAnswered(s.list, answers, 0);
    if i < |s.list| {
      var t := s.(list := s.list[i := s.list[i].(status := Succeeded)]);
      assert Scheduled(t);
      if s.controlling && !s.nominated {
        NominateShape(t, i, txn);
      }
    }
  }

  lemma NominatedShape(s: Session, list: seq<Check>, i: nat, txn: TransactionId)
    requires Shape(s) && !s.nominated && i < |list| && Scheduled(s.(list := list))
    ensures Shape(Nominate(s.(list := list), i, txn).0)
  {
  }

  lemma RequestShape(s: Session, from: Mapped, useCandidate: bool, priority: nat, txn: TransactionId)
    requires Shape(s)
    ensures Shape(HandleRequest(s, from, useCandidate, priority, txn).0)
  {
    if useCandidate && !s.controlling && !s.nominated {
      var i := FirstTo(s.list, from, 0);
      if i < |s.list| {
        NominatedShape(s, s.list[i := s.list[i].(status := Succeeded)], i, txn);
      } else {
        NominatedShape(s, s.list + [Reflexive(s, from, priority)], |s.list|, txn);
      }
    }
  }

  lemma GatheredShape(c: Config, s: Session, txn: TransactionId)
    requires Sorts(c) && Shape(s)
    ensures Shape(GatheringComplete(c, s, txn).0)
  {
    if s.state == Gathering && s.remotes != [] {
      BeginShape(c, s, txn);
    }
  }

  lemma SetRemoteShape(c: Config, s: Session, candidates: seq<Candidate>, txn: TransactionId)
    requires Sorts(c) && Shape(s)
    ensures Shape(Step(c, s, SetRemote(candidates, txn)).0)
  {
    if s.state == WaitingRemote {
      BeginShape(c, s.(remotes := candidates), txn);
    }
  }

  lemma StartChecksShape(c: Config, s: Session, txn: TransactionId)
    requires Sorts(c) && Shape(s)
    ensures Shape(Step(c, s, StartChecks(txn)).0)
  {
    if s.state == WaitingRemote && s.remotes != [] {
      BeginShape(c, s, txn);
    }
  }

  lemma KeepaliveShape(c: Config, s: Session, txn: TransactionId)
    requires Shape(s)
    ensures Shape(KeepaliveFired(c, s, txn).0)
  {
  }

  /** Events that touch nothing but the state, the local candidates or the closed flag. */
  lemma PlainShape(c: Config, s: Session, e: Event)
    requires Shape(s) && (e.Gather? || e.SessionTimer? || e.Close?)
    ensures Shape(Step(c, s, e).0)
  {
  }

  lemma StepShape(c: Config, s: Session, e: Event)
    requires Sorts(c) && Shape(s)
    ensures Shape(Step(c, s, e).0)
  {
    match e
    case Gathered(reflexive, txn) =>
      var t := if reflexive.Some? then s.(locals := s.locals + [reflexive.value]) else s;
      assert Shape(t);
      GatheredShape(c, t, txn);
    case SetRemote(candidates, txn) => SetRemoteShape(c, s, candidates, txn);
    case StartChecks(txn) => StartChecksShape(c, s, txn);
    case CheckTimer(txn) => SendNextCheckShape(s, txn);
    case Response(answers, txn) => ResponseShape(s, answers, txn);
    case Request(from, useCandidate, priority, txn) => RequestShape(s, from, useCandidate, priority, txn);
    case KeepaliveTimer(txn) => KeepaliveShape(c, s, txn);
    case _ => PlainShape(c, s, e);
  }

  // ---- The checks sent ----

  /** Checks go to ever later places of the list, each place once, and never to a better pair than before. */
  ghost predicate ChecksOk(s: Session, cs: Log)
    requires forall k :: 0 <= k < |cs| ==> cs[k].Checked?
  {
    (Early(s) ==> cs == []) &&
    (forall k :: 0 <= k < |cs| ==> cs[k].index < s.next <= |s.list| && cs[k].priority == s.list[cs[k].index].pair.priority) &&
    (forall k, m :: 0 <= k < m < |cs| ==> cs[k].index < cs[m].index && cs[k].priority >= cs[m].priority)
  }

  /** The next check is at a later place, and no better than those before. */
  lemma OneMoreCheck(s: Session, t: Session, cs: Log, i: nat)
    requires (forall k :: 0 <= k < |cs| ==> cs[k].Checked?) && Scheduled(s) && ChecksOk(s, cs)
    requires s.next <= i < |s.list| && s.list[i].status == Waiting && !Early(t) && t.next == i + 1
    requires |t.list| == |s.list| && forall j :: 0 <= j < |s.list| ==> t.list[j].pair == s.list[j].pair
    ensures ChecksOk(t, cs + [Checked(i, s.list[i].pair.priority)])
  {
    var cs' := cs + [Checked(i, s.list[i].pair.priority)];
    forall k | 0 <= k < |cs|
      ensures cs'[k].index < i && cs'[k].priority >= s.list[i].pair.priority
    {
      assert cs'[k] == cs[k];
    }
  }

  lemma LaterNext(s: Session, t: Session, cs: Log)
    requires (forall k :: 0 <= k < |cs| ==> cs[k].Checked?) && ChecksOk(s, cs)
    requires s.next <= t.next <= |t.list| && t.list == s.list && !Early(t)
    ensures ChecksOk(t, cs)
  {
  }

  /** What CheckOne does, without the search. */
  lemma CheckOneIs(s: Session, txn: TransactionId)
    requires s.next <= |s.list|
    ensures var (t, more) := CheckOne(s, txn);
            var i := FirstWaiting(s.list, s.next);
            t.state == s.state && |t.list| == |s.list| && (forall j :: 0 <= j < |s.list| ==> t.list[j].pair == s.list[j].pair) &&
            if i == |s.list| then t.list == s.list && t.next == i && more == []
            else t.next == i + 1 && more == [Checked(i, s.list[i].pair.priority)]
  {
  }

  lemma CheckOneChecks(s: Session, log: Log, txn: TransactionId)
    requires Scheduled(s) && !Early(s) && ChecksOk(s, Checks(log))
    ensures var (t, more) := CheckOne(s, txn); ChecksOk(t, Checks(log + more)) && !Early(t) && t.next <= |t.list|
  {
    CheckOneIs(s, txn);
    var (t, more) := CheckOne(s, txn);
    var i := FirstWaiting(s.list, s.next);
    if i == |s.list| {
      assert log + more == log;
      LaterNext(s, t, Checks(log));
    } else {
      SnocChecks(log, Checked(i, s.list[i].pair.priority));
      OneMoreCheck(s, t, Checks(log), i);
    }
  }

  lemma GaveUpNoCheck(log: Log, more: Log)
    ensures Checks(log + (more + [GaveUp])) == Checks(log + more)
  {
    assert log + (more + [GaveUp]) == log + more + [GaveUp];
    SnocChecks(log + more, GaveUp);
  }

  lemma GaveUpChecks(t: Session, cs: Log, cs': Log)
    requires (forall k :: 0 <= k < |cs| ==> cs[k].Checked?) && ChecksOk(t, cs) && cs == cs'
    requires !Early(t) && t.next <= |t.list|
    ensures ChecksOk(t.(state := Failed), cs')
  {
    LaterNext(t, t.(state := Failed), cs);
  }

  lemma SendNextCheckChecks(s: Session, log: Log, txn: TransactionId)
    requires Scheduled(s) && ChecksOk(s, Checks(log))
    ensures ChecksOk(SendNextCheck(s, txn).0, Checks(log + SendNextCheck(s, txn).1))
  {
    if s.state != Checking || s.closed {
      assert log + [] == log;
    } else {
      CheckOneChecks(s, log, txn);
      var u := CheckOne(s, txn);
      GaveUpNoCheck(log, u.1);
      GaveUpChecks(u.0, Checks(log + u.1), Checks(log + (u.1 + [GaveUp])));
      assert SendNextCheck(s, txn) == u || SendNextCheck(s, txn) == (u.0.(state := Failed), u.1 + [GaveUp]);
    }
  }

  lemma BeginChecks(c: Config, s: Session, log: Log, txn: TransactionId)
    requires Sorts(c) && Shape(s) && Early(s) && ChecksOk(s, Checks(log))
    ensures var (t, more) := Begin(c, s, txn); ChecksOk(t, Checks(log + more))
  {
    FormedShape(c, s);
    SendNextCheckChecks(s.(state := Checking, list := FormedList(c, s), next := 0), log, txn);
  }

  /** A log without further checks, over a list with the same priorities where checks went. */
  lemma {:induction false} NoFurtherChecks(log: Log, more: Log)
    requires forall k :: 0 <= k < |more| ==> !more[k].Checked?
    ensures Checks(log + more) == Checks(log)
    decreases |more|
  {
    if more == [] {
      assert log + more == log;
    } else {
      var front, x := more[..|more| - 1], more[|more| - 1];
      NoFurtherChecks(log, front);
      SnocChecks(log + front, x);
      assert log + more == log + front + [x];
    }
  }

  /** The list keeps its pairs, perhaps with one more at the end. */
  predicate Extends(s: Session, t: Session) {
    s.next == t.next && |s.list| <= |t.list| && forall i :: 0 <= i < |s.list| ==> s.list[i].pair == t.list[i].pair
  }

  lemma ExtendsKeepsChecks(s: Session, t: Session, log: Log, more: Log)
    requires Extends(s, t) && (Early(t) ==> Early(s)) && ChecksOk(s, Checks(log))
    requires forall k :: 0 <= k < |more| ==> !more[k].Checked?
    ensures ChecksOk(t, Checks(log + more))
  {
    NoFurtherChecks(log, more);
  }

  predicate Starts(s: Session, e: Event) {
    match e
    case Gathered(_, _) => s.state == Gathering && s.remotes != []
    case SetRemote(_, _) => s.state == WaitingRemote
    case StartChecks(_) => s.state == WaitingRemote && s.remotes != []
    case CheckTimer(_) => true
    case _ => false
  }

  /** t is s with the same pairs, perhaps one more, and the log has no check. */
  predicate Elsewhere(s: Session, t: Session, more: Log) {
    Extends(s, t) && (Early(t) ==> Early(s)) && forall k :: 0 <= k < |more| ==> !more[k].Checked?
  }

  lemma NominateElsewhere(s: Session, i: nat, txn: TransactionId)
    ensures Elsewhere(s, Nominate(s, i, txn).0, Nominate(s, i, txn).1)
  {
  }

  lemma ResponseElsewhere(s: Session, answers: TransactionId, txn: TransactionId)
    ensures Elsewhere(s, HandleResponse(s, answers, txn).0, HandleResponse(s, answers, txn).1)
  {
    var i := FirstAnswered(s.list, answers, 0);
    if i < |s.list| {
      NominateElsewhere(s.(list := s.list[i := s.list[i].(status := Succeeded)]), i, txn);
    }
  }

  lemma RequestElsewhere(s: Session, from: Mapped, useCandidate: bool, priority: nat, txn: TransactionId)
    ensures Elsewhere(s, HandleRequest(s, from, useCandidate, priority, txn).0,
                      HandleRequest(s, from, useCandidate, priority, txn).1)
  {
    var i := FirstTo(s.list, from, 0);
    if i < |s.list| {
      NominateElsewhere(s.(list := s.list[i := s.list[i].(status := Succeeded)]), i, txn);
    } else {
      NominateElsewhere(s.(list := s.list + [Reflexive(s, from, priority)]), |s.list|, txn);
    }
  }

  lemma OtherSteps(c: Config, s: Session, e: Event)
    requires !Starts(s, e)
    ensures Elsewhere(s, Step(c, s, e).0, Step(c, s, e).1)
  {
    match e
    case Response(answers, txn) => ResponseElsewhere(s, answers, txn);
    case Request(from, useCandidate, priority, txn) => RequestElsewhere(s, from, useCandidate, priority, txn);
    case _ =>
  }

  lemma StepChecks(c: Config, s: Session, log: Log, e: Event)
    requires Sorts(c) && Shape(s) && ChecksOk(s, Checks(log))
    ensures var (t, more) := Step(c, s, e); ChecksOk(t, Checks(log + more))
  {
    if !Starts(s, e) {
      OtherSteps(c, s, e);
      var (t, more) := Step(c, s, e);
      ExtendsKeepsChecks(s, t, log, more);
    } else {
      match e
      case Gathered(reflexive, txn) =>
        BeginChecks(c, if reflexive.Some? then s.(locals := s.locals + [reflexive.value]) else s, log, txn);
      case SetRemote(candidates, txn) => BeginChecks(c, s.(remotes := candidates), log, txn);
      case StartChecks(txn) => BeginChecks(c, s, log, txn);
      case CheckTimer(txn) => SendNextCheckChecks(s, log, txn);
    }
  }

  // ---- Nomination and consent ----

  ghost predicate LostLate(c: Config, log: Log) {
    forall k :: 0 <= k < |log| && log[k] == Lost ==> Quiet(log[..k]) >= c.maxFailures
  }

  ghost predicate KeptThere(s: Session, log: Log) {
    forall k :: 0 <= k < |log| && log[k].Kept? ==> s.nominated && log[k].to == s.remoteEp
  }

  /** One join, to the fixed end; keepalives go there; missed counts the unanswered ones. */
  ghost predicate Consent(c: Config, s: Session, log: Log) {
    Joins(log) == (if s.nominated then [s.remoteEp] else []) && s.missed == Quiet(log) &&
    (!s.nominated ==> s.missed == 0) && LostLate(c, log) && KeptThere(s, log)
  }

  lemma LostSnoc(c: Config, log: Log, x: Entry)
    requires LostLate(c, log) && (x == Lost ==> Quiet(log) >= c.maxFailures)
    ensures LostLate(c, log + [x])
  {
    assert forall k :: 0 <= k < |log| ==> (log + [x])[..k] == log[..k];
    assert (log + [x])[..|log|] == log;
  }

  lemma ConsentSnoc(c: Config, s: Session, t: Session, log: Log, x: Entry)
    requires Consent(c, s, log) && s.nominated == t.nominated && s.remoteEp == t.remoteEp
    requires match x
             case Kept(to) => s.nominated && to == s.remoteEp && t.missed == s.missed + 1
             case Heard => t.missed == 0
             case Joined(_) => false
             case Lost => t.missed == s.missed >= c.maxFailures
             case _ => t.missed == s.missed
    ensures Consent(c, t, log + [x])
  {
    Snoc(log, x);
    LostSnoc(c, log, x);
    KeptSnoc(s, t, log, x);
  }

  lemma KeptSnoc(s: Session, t: Session, log: Log, x: Entry)
    requires KeptThere(s, log) && s.nominated == t.nominated && s.remoteEp == t.remoteEp
    requires x.Kept? ==> s.nominated && x.to == s.remoteEp
    ensures KeptThere(t, log + [x])
  {
  }

  lemma SameConsent(c: Config, s: Session, t: Session, log: Log)
    requires Consent(c, s, log) && s.nominated == t.nominated && s.remoteEp == t.remoteEp && s.missed == t.missed
    ensures Consent(c, t, log) && log + [] == log
  {
  }

  lemma CheckOneConsent(c: Config, s: Session, log: Log, txn: TransactionId)
    requires Consent(c, s, log)
    ensures Consent(c, CheckOne(s, txn).0, log + CheckOne(s, txn).1)
  {
    var (t, more) := CheckOne(s, txn);
    CheckOneOut(s, txn);
    SameConsent(c, s, t, log);
    if more != [] {
      ConsentSnoc(c, s, t, log, more[0]);
    }
  }

  lemma CheckOneOut(s: Session, txn: TransactionId)
    ensures var (t, more) := CheckOne(s, txn);
            t.nominated == s.nominated && t.remoteEp == s.remoteEp && t.missed == s.missed &&
            (more == [] || (more == [more[0]] && more[0].Checked?))
  {
  }

  lemma GaveUpConsent(c: Config, t: Session, log: Log, more: Log)
    requires Consent(c, t, log + more)
    ensures Consent(c, t.(state := Failed), log + (more + [GaveUp]))
  {
    ConsentSnoc(c, t, t.(state := Failed), log + more, GaveUp);
    assert log + more + [GaveUp] == log + (more + [GaveUp]);
  }

  lemma SendNextCheckConsent(c: Config, s: Session, log: Log, txn: TransactionId)
    requires Consent(c, s, log)
    ensures Consent(c, SendNextCheck(s, txn).0, log + SendNextCheck(s, txn).1)
  {
    if s.state == Checking && !s.closed {
      CheckOneConsent(c, s, log, txn);
      var u := CheckOne(s, txn);
      GaveUpConsent(c, u.0, log, u.1);
      assert SendNextCheck(s, txn) == u || SendNextCheck(s, txn) == (u.0.(state := Failed), u.1 + [GaveUp]);
    } else {
      SameConsent(c, s, s, log);
    }
  }

  lemma SendKeepaliveConsent(c: Config, s: Session, log: Log, txn: TransactionId)
    requires Consent(c, s, log)
    ensures Consent(c, SendKeepalive(s, txn).0, log + SendKeepalive(s, txn).1)
  {
    var (t, more) := SendKeepalive(s, txn);
    if more == [] {
      assert log + more == log;
    } else {
      ConsentSnoc(c, s, t, log, Kept(s.remoteEp));
    }
  }

  /** Everything but the report that the session is connected. */
  ghost predicate Unreported(c: Config, v: Session, log: Log) {
    v.nominated && Joins(log) == [] && v.missed == Quiet(log) && LostLate(c, log) && KeptThere(v, log)
  }

  lemma Reported(c: Config, v: Session, log: Log)
    requires Unreported(c, v, log)
    ensures Consent(c, v, log + [Joined(v.remoteEp)])
  {
    Snoc(log, Joined(v.remoteEp));
    assert Joins(log + [Joined(v.remoteEp)]) == [v.remoteEp] && Quiet(log + [Joined(v.remoteEp)]) == v.missed;
    LostSnoc(c, log, Joined(v.remoteEp));
    KeptSnoc(v, v, log, Joined(v.remoteEp));
  }

  /** Before nomination the log has no keepalive, so the count may start anew. */
  lemma FirstKeepalive(c: Config, u: Session, log: Log, txn: TransactionId)
    requires Unreported(c, u, log)
    ensures Unreported(c, SendKeepalive(u, txn).0, log + SendKeepalive(u, txn).1)
  {
    var (v, kept) := SendKeepalive(u, txn);
    if kept == [] {
      assert log + kept == log;
    } else {
      Snoc(log, Kept(u.remoteEp));
      LostSnoc(c, log, Kept(u.remoteEp));
    }
  }

  lemma NominateConsent(c: Config, s: Session, i: nat, log: Log, txn: TransactionId)
    requires Consent(c, s, log)
    ensures Consent(c, Nominate(s, i, txn).0, log + Nominate(s, i, txn).1)
  {
    if s.nominated || i >= |s.list| {
      SameConsent(c, s, s, log);
    } else {
      var u := s.(nominated := true, remoteEp := s.list[i].pair.theirs.endpoint, state := Connected, missed := 0);
      assert Unreported(c, u, log);
      FirstKeepalive(c, u, log, txn);
      var (v, kept) := SendKeepalive(u, txn);
      Reported(c, v, log + kept);
      assert log + (kept + [Joined(u.remoteEp)]) == log + kept + [Joined(u.remoteEp)];
    }
  }

  lemma ResponseConsent(c: Config, s: Session, log: Log, answers: TransactionId, txn: TransactionId)
    requires Consent(c, s, log)
    ensures Consent(c, HandleResponse(s, answers, txn).0, log + HandleResponse(s, answers, txn).1)
  {
    if s.nominated && answers == s.keepaliveTxn {
      ConsentSnoc(c, s, s.(missed := 0), log, Heard);
    } else {
      var i := FirstAnswered(s.list, answers, 0);
      SameConsent(c, s, s, log);
      if i < |s.list| {
        var t := s.(list := s.list[i := s.list[i].(status := Succeeded)]);
        SameConsent(c, s, t, log);
        NominateConsent(c, t, i, log, txn);
      }
    }
  }

  lemma RequestConsent(c: Config, s: Session, log: Log, from: Mapped, useCandidate: bool, priority: nat, txn: TransactionId)
    requires Consent(c, s, log)
    ensures Consent(c, HandleRequest(s, from, useCandidate, priority, txn).0, log + HandleRequest(s, from, useCandidate, priority, txn).1)
  {
    SameConsent(c, s, s, log);
    if useCandidate && !s.controlling && !s.nominated {
      var i := FirstTo(s.list, from, 0);
      if i < |s.list| {
        var t := s.(list := s.list[i := s.list[i].(status := Succeeded)]);
        SameConsent(c, s, t, log);
        NominateConsent(c, t, i, log, txn);
      } else {
        var t := s.(list := s.list + [Reflexive(s, from, priority)]);
        SameConsent(c, s, t, log);
        NominateConsent(c, t, |s.list|, log, txn);
      }
    }
  }

  lemma BeginConsent(c: Config, s: Session, log: Log, txn: TransactionId)
    requires Consent(c, s, log)
    ensures Consent(c, Begin(c, s, txn).0, log + Begin(c, s, txn).1)
  {
    var t := s.(state := Checking, list := FormedList(c, s), next := 0);
    SameConsent(c, s, t, log);
    SendNextCheckConsent(c, t, log, txn);
  }

  lemma KeepaliveFiredConsent(c: Config, s: Session, log: Log, txn: TransactionId)
    requires Consent(c, s, log)
    ensures Consent(c, KeepaliveFired(c, s, txn).0, log + KeepaliveFired(c, s, txn).1)
  {
    SameConsent(c, s, s, log);
    if s.armed && s.missed >= c.maxFailures {
      ConsentSnoc(c, s, s.(state := Failed, armed := false), log, Lost);
    } else if s.armed {
      SameConsent(c, s, s.(armed := false), log);
      SendKeepaliveConsent(c, s.(armed := false), log, txn);
    }
  }

  lemma GatheredConsent(c: Config, s: Session, log: Log, txn: TransactionId)
    requires Consent(c, s, log)
    ensures Consent(c, GatheringComplete(c, s, txn).0, log + GatheringComplete(c, s, txn).1)
  {
    if s.state == Gathering && s.remotes != [] {
      BeginConsent(c, s, log, txn);
    } else {
      SameConsent(c, s, GatheringComplete(c, s, txn).0, log);
    }
  }

  lemma SetRemoteConsent(c: Config, s: Session, log: Log, candidates: seq<Candidate>, txn: TransactionId)
    requires Consent(c, s, log)
    ensures Consent(c, Step(c, s, SetRemote(candidates, txn)).0, log + Step(c, s, SetRemote(candidates, txn)).1)
  {
    var t := s.(remotes := candidates);
    SameConsent(c, s, t, log);
    if s.state == WaitingRemote {
      BeginConsent(c, t, log, txn);
      assert Step(c, s, SetRemote(candidates, txn)) == Begin(c, t, txn);
    }
  }

  lemma StartChecksConsent(c: Config, s: Session, log: Log, txn: TransactionId)
    requires Consent(c, s, log)
    ensures Consent(c, Step(c, s, StartChecks(txn)).0, log + Step(c, s, StartChecks(txn)).1)
  {
    if s.state == WaitingRemote && s.remotes != [] {
      BeginConsent(c, s, log, txn);
    } else {
      SameConsent(c, s, s, log);
    }
  }

  /** Events that touch nothing but the state, the local candidates or the closed flag. */
  lemma PlainConsent(c: Config, s: Session, log: Log, e: Event)
    requires Consent(c, s, log) && (e.Gather? || e.SessionTimer? || e.Close?)
    ensures Consent(c, Step(c, s, e).0, log + Step(c, s, e).1)
  {
    if Step(c, s, e).1 == [] {
      SameConsent(c, s, Step(c, s, e).0, log);
    } else {
      ConsentSnoc(c, s, s.(state := Failed), log, GaveUp);
    }
  }

  lemma StepConsent(c: Config, s: Session, log: Log, e: Event)
    requires Consent(c, s, log)
    ensures Consent(c, Step(c, s, e).0, log + Step(c, s, e).1)
  {
    match e
    case Gathered(reflexive, txn) =>
      var t := if reflexive.Some? then s.(locals := s.locals + [reflexive.value]) else s;
      SameConsent(c, s, t, log);
      GatheredConsent(c, t, log, txn);
    case SetRemote(candidates, txn) => SetRemoteConsent(c, s, log, candidates, txn);
    case StartChecks(txn) => StartChecksConsent(c, s, log, txn);
    case CheckTimer(txn) => SendNextCheckConsent(c, s, log, txn);
    case Response(answers, txn) => ResponseConsent(c, s, log, answers, txn);
    case Request(from, useCandidate, priority, txn) => RequestConsent(c, s, log, from, useCandidate, priority, txn);
    case KeepaliveTimer(txn) => KeepaliveFiredConsent(c, s, log, txn);
    case _ => PlainConsent(c, s, log, e);
  }

  // ---- Over whole runs ----

  ghost predicate Inv(c: Config, s: Session, log: Log) { Shape(s) && ChecksOk(s, Checks(log)) && Consent(c, s, log) }

  lemma StepInv(c: Config, s: Session, log: Log, e: Event)
    requires Sorts(c) && Inv(c, s, log)
    ensures Inv(c, Step(c, s, e).0, log + Step(c, s, e).1)
  {
    StepShape(c, s, e);
    StepChecks(c, s, log, e);
    StepConsent(c, s, log, e);
  }

  /** Every run of a session, whatever the order of its events. */
  lemma {:induction false} RunKeepsInv(c: Config, controlling: bool, events: seq<Event>)
    requires Sorts(c)
    ensures var (s, log) := Run(c, Initial(controlling), events); Inv(c, s, log)
    decreases |events|
  {
    if events != [] {
      var front, e := events[..|events| - 1], events[|events| - 1];
      RunKeepsInv(c, controlling, front);
      var (s, log) := Run(c, Initial(controlling), front);
      StepInv(c, s, log, e);
    }
  }

  /** One event sends at most one new check. */
  lemma OneCheckPerStep(c: Config, s: Session, e: Event)
    ensures |Checks(Step(c, s, e).1)| <= 1
  {
    if !Starts(s, e) {
      OtherSteps(c, s, e);
      var more := Step(c, s, e).1;
      NoFurtherChecks([], more);
      assert [] + more == more;
    } else {
      match e
      case Gathered(reflexive, txn) =>
        BeginShort(c, if reflexive.Some? then s.(locals := s.locals + [reflexive.value]) else s, txn);
      case SetRemote(candidates, txn) => BeginShort(c, s.(remotes := candidates), txn);
      case StartChecks(txn) => BeginShort(c, s, txn);
      case CheckTimer(txn) => SendNextCheckShort(s, txn);
    }
  }

  lemma SendNextCheckShort(s: Session, txn: TransactionId)
    ensures |Checks(SendNextCheck(s, txn).1)| <= 1
  {
    ShortLog(SendNextCheck(s, txn).1);
  }

  lemma BeginShort(c: Config, s: Session, txn: TransactionId)
    ensures |Checks(Begin(c, s, txn).1)| <= 1
  {
    SendNextCheckShort(s.(state := Checking, list := FormedList(c, s), next := 0), txn);
  }

  lemma ShortLog(log: Log)
    requires |log| <= 2 && (|log| == 2 ==> !log[1].Checked?)
    ensures |Checks(log)| <= 1
  {
    if |log| == 2 {
      assert Checks(log[..1]) == Checks(log[..1][..0]) + if log[0].Checked? then [log[0]] else [];
    } else if |log| == 1 {
      assert Checks(log[..0]) == [];
    }
  }

  lemma SendNextCheckAims(s: Session, txn: TransactionId)
    ensures var t := SendNextCheck(s, txn).0; t.nominated == s.nominated && t.remoteEp == s.remoteEp
  {
  }

  lemma BeginAims(c: Config, s: Session, txn: TransactionId)
    ensures var t := Begin(c, s, txn).0; t.nominated == s.nominated && t.remoteEp == s.remoteEp
  {
    SendNextCheckAims(s.(state := Checking, list := FormedList(c, s), next := 0), txn);
  }

  lemma OtherAims(c: Config, s: Session, e: Event)
    requires s.nominated && (e.Response? || e.Request? || e.KeepaliveTimer?)
    ensures Step(c, s, e).0.nominated && Step(c, s, e).0.remoteEp == s.remoteEp
  {
  }

  lemma NominationKept(c: Config, s: Session, e: Event)
    requires s.nominated
    ensures Step(c, s, e).0.nominated && Step(c, s, e).0.remoteEp == s.remoteEp
  {
    match e
    case Gathered(reflexive, txn) =>
      BeginAims(c, if reflexive.Some? then s.(locals := s.locals + [reflexive.value]) else s, txn);
    case SetRemote(candidates, txn) => BeginAims(c, s.(remotes := candidates), txn);
    case StartChecks(txn) => BeginAims(c, s, txn);
    case CheckTimer(txn) => SendNextCheckAims(s, txn);
    case Response(_, _) => OtherAims(c, s, e);
    case Request(_, _, _, _) => OtherAims(c, s, e);
    case KeepaliveTimer(_) => OtherAims(c, s, e);
    case _ =>
  }

  /** Once nominated, the pair in use stays, whatever happens next. */
  lemma {:induction false} NominatedForGood(c: Config, s: Session, events: seq<Event>)
    requires s.nominated
    ensures Run(c, s, events).0.nominated && Run(c, s, events).0.remoteEp == s.remoteEp
    decreases |events|
  {
    if events != [] {
      NominatedForGood(c, s, events[..|events| - 1]);
      NominationKept(c, Run(c, s, events[..|events| - 1]).0, events[|events| - 1]);
    }
  }

  /** For a controlling agent the scheduler gives up only on an empty list: no check is ever marked failed. */
  lemma GivesUpIff(c: Config, events: seq<Event>, txn: TransactionId)
    requires Sorts(c)
    requires var s := Run(c, Initial(true), events).0; s.controlling && s.state == Checking && !s.closed
    ensures var s := Run(c, Initial(true), events).0; SendNextCheck(s, txn).0.state == Failed <==> s.list == []
  {
    RunKeepsInv(c, true, events);
    ShapeGivesUpIff(Run(c, Initial(true), events).0, txn);
  }

  lemma ShapeGivesUpIff(s: Session, txn: TransactionId)
    requires Shape(s) && s.controlling && s.state == Checking && !s.closed
    ensures SendNextCheck(s, txn).0.state == Failed <==> s.list == []
  {
    var t := CheckOne(s, txn).0;
    CheckOneShape(s, txn);
    if s.list != [] {
      assert t.list[0].status == Waiting || t.list[0].status == InProgress;
    }
  }
}
