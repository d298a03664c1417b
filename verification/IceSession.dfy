/**
 One ICE session as a state machine: gathering, the check list scheduler, nomination, keepalives
 and consent (section 5.1 of RFC 7675). What a session sends or reports is its log. Timers may fire
 and packets may arrive in any state; random transaction ids are part of the event.
 */
module IceSession {
  import opened Bytes
  import opened Stun
  import opened IceCandidates

  datatype State = New | Gathering | WaitingRemote | Checking | Connected | Failed

  datatype Status = Waiting | InProgress | Succeeded

  datatype Check = Check(pair: Pair, status: Status, txn: TransactionId)

  datatype Session = Session(
    state: State, controlling: bool, locals: seq<Candidate>, remotes: seq<Candidate>, list: seq<Check>, next: nat,
    nominated: bool, remoteEp: Mapped, keepaliveTxn: TransactionId, missed: nat, armed: bool, closed: bool)

  datatype Event =
    | Gather(host: Candidate)
    | Gathered(reflexive: Option<Candidate>, txn: TransactionId)
    | SetRemote(candidates: seq<Candidate>, txn: TransactionId)
    | StartChecks(txn: TransactionId)
    | CheckTimer(txn: TransactionId)
    | Response(answers: TransactionId, txn: TransactionId)
    | Request(from: Mapped, useCandidate: bool, priority: nat, txn: TransactionId)
    | KeepaliveTimer(txn: TransactionId)
    | SessionTimer
    | Close

  datatype Entry =
    | Checked(index: nat, priority: nat) // a connectivity check sent
    | Kept(to: Mapped)                   // a keepalive sent
    | Heard                              // the answer to the last keepalive
    | Joined(to: Mapped)                 // on_connected
    | Lost                               // on_failed: consent expired
    | GaveUp                             // on_failed: checks exhausted or timed out

  type Log = seq<Entry>

  /** The limit on unanswered keepalives and the order in which the sort leaves the pairs. */
  datatype Config = Config(maxFailures: int, sort: seq<Pair> -> seq<Pair>)

  ghost predicate Sorts(c: Config) {
    forall s: seq<Pair> :: Descending(c.sort(s)) && multiset(c.sort(s)) == multiset(s)
  }

  const ZERO: TransactionId := [0, 0, 0, 0, 0, 0, 0, 0, 0, 0, 0, 0]

  function Initial(controlling: bool): Session {
    Session(New, controlling, [], [], [], 0, false, NOTHING.mapped, ZERO, 0, false, false)
  }

  // ---- The check list ----

  function Fresh(s: seq<Pair>): (l: seq<Check>)
    ensures |l| == |s| && forall i :: 0 <= i < |s| ==> l[i] == Check(s[i], Waiting, ZERO)
  {
    if s == [] then [] else Fresh(s[..|s| - 1]) + [Check(s[|s| - 1], Waiting, ZERO)]
  }

  function FirstWaiting(l: seq<Check>, from: nat): (i: nat)
    requires from <= |l|
    ensures from <= i <= |l| && (i < |l| ==> l[i].status == Waiting)
    ensures forall j :: from <= j < i ==> l[j].status != Waiting
    decreases |l| - from
  {
    if from == |l| || l[from].status == Waiting then from else FirstWaiting(l, from + 1)
  }

  /** The first check in progress that the transaction id answers. */
  function FirstAnswered(l: seq<Check>, txn: TransactionId, from: nat): (i: nat)
    requires from <= |l|
    ensures from <= i <= |l| && (i < |l| ==> l[i].status == InProgress && l[i].txn == txn)
    ensures forall j :: from <= j < i ==> !(l[j].status == InProgress && l[j].txn == txn)
    decreases |l| - from
  {
    if from == |l| || (l[from].status == InProgress && l[from].txn == txn) then from
    else FirstAnswered(l, txn, from + 1)
  }

  /** The first pair whose remote end is the given one. */
  function FirstTo(l: seq<Check>, to: Mapped, from: nat): (i: nat)
    requires from <= |l|
    ensures from <= i <= |l| && (i < |l| ==> l[i].pair.theirs.endpoint == to)
    ensures forall j :: from <= j < i ==> l[j].pair.theirs.endpoint != to
    decreases |l| - from
  {
    if from == |l| || l[from].pair.theirs.endpoint == to then from else FirstTo(l, to, from + 1)
  }

  predicate Pending(l: seq<Check>) { exists i :: 0 <= i < |l| && (l[i].status == Waiting || l[i].status == InProgress) }

  // ---- Steps: the new state and what is added to the log ----

  /** The first waiting pair at or after next, if any, is checked; next moves past it. */
  function CheckOne(s: Session, txn: TransactionId): (Session, Log) {
    if s.next > |s.list| then (s, [])
    else
      var i := FirstWaiting(s.list, s.next);
      if i == |s.list| then (s.(next := i), [])
      else
        (s.(list := s.list[i := s.list[i].(status := InProgress, txn := txn)], next := i + 1),
         [Checked(i, s.list[i].pair.priority)])
  }

  function SendNextCheck(s: Session, txn: TransactionId): (Session, Log) {
    if s.state != Checking || s.closed then (s, [])
    else
      var (t, log) := CheckOne(s, txn);
      if !Pending(t.list) && !t.nominated then (t.(state := Failed), log + [GaveUp]) else (t, log)
  }

  function FormedList(c: Config, s: Session): seq<Check> {
    Fresh(c.sort(AllPairs(s.locals, s.remotes, s.controlling)))
  }

  /** Entering Checking: the list is formed and the first check goes out. */
  function Begin(c: Config, s: Session, txn: TransactionId): (Session, Log) {
    SendNextCheck(s.(state := Checking, list := FormedList(c, s), next := 0), txn)
  }

  function GatheringComplete(c: Config, s: Session, txn: TransactionId): (Session, Log) {
    if s.state != Gathering then (s, [])
    else if s.remotes == [] then (s.(state := WaitingRemote), [])
    else Begin(c, s, txn)
  }

  function SendKeepalive(s: Session, txn: TransactionId): (Session, Log) {
    if !s.nominated || s.closed || s.state != Connected then (s, [])
    else (s.(keepaliveTxn := txn, missed := s.missed + 1, armed := true), [Kept(s.remoteEp)])
  }

  /** The pair to use is fixed, the session is connected and the first keepalive goes out. */
  function Nominate(s: Session, i: nat, txn: TransactionId): (Session, Log) {
    if s.nominated || i >= |s.list| then (s, [])
    else
      var ep := s.list[i].pair.theirs.endpoint;
      var (t, log) := SendKeepalive(s.(nominated := true, remoteEp := ep, state := Connected, missed := 0), txn);
      (t, log + [Joined(ep)])
  }

  function HandleResponse(s: Session, answers: TransactionId, txn: TransactionId): (Session, Log) {
    if s.nominated && answers == s.keepaliveTxn then (s.(missed := 0), [Heard])
    else
      var i := FirstAnswered(s.list, answers, 0);
      if i == |s.list| then (s, [])
      else
        var t := s.(list := s.list[i := s.list[i].(status := Succeeded)]);
        if s.controlling && !s.nominated then Nominate(t, i, txn) else (t, [])
  }

  /** The pair added for a peer seen from an address it did not announce. */
  function Reflexive(s: Session, from: Mapped, priority: nat): Check {
    var ours := if s.locals == [] then Candidate(0, NOTHING.mapped, 0) else s.locals[0];
    Check(Pair(ours, Candidate(0, from, priority), PairPriority(ours.priority, priority, s.controlling)), Succeeded, ZERO)
  }

  function HandleRequest(s: Session, from: Mapped, useCandidate: bool, priority: nat, txn: TransactionId): (Session, Log) {
    if !useCandidate || s.controlling || s.nominated then (s, [])
    else
      var i := FirstTo(s.list, from, 0);
      if i < |s.list| then Nominate(s.(list := s.list[i := s.list[i].(status := Succeeded)]), i, txn)
      else Nominate(s.(list := s.list + [Reflexive(s, from, priority)]), |s.list|, txn)
  }

  function KeepaliveFired(c: Config, s: Session, txn: TransactionId): (Session, Log) {
    if !s.armed then (s, [])
    else if s.missed >= c.maxFailures then (s.(state := Failed, armed := false), [Lost])
    else SendKeepalive(s.(armed := false), txn)
  }

  function Step(c: Config, s: Session, e: Event): (Session, Log) {
    match e
    case Gather(host) =>
      if s.state != New then (s, []) else (s.(state := Gathering, locals := s.locals + [host]), [])
    case Gathered(reflexive, txn) =>
      GatheringComplete(c, if reflexive.Some? then s.(locals := s.locals + [reflexive.value]) else s, txn)
    case SetRemote(candidates, txn) =>
      var t := s.(remotes := candidates);
      if s.state == WaitingRemote then Begin(c, t, txn) else (t, [])
    case StartChecks(txn) => if s.state == WaitingRemote && s.remotes != [] then Begin(c, s, txn) else (s, [])
    case CheckTimer(txn) => SendNextCheck(s, txn)
    case Response(answers, txn) => HandleResponse(s, answers, txn)
    case Request(from, useCandidate, priority, txn) => HandleRequest(s, from, useCandidate, priority, txn)
    case KeepaliveTimer(txn) => KeepaliveFired(c, s, txn)
    case SessionTimer =>
      if s.state == Checking && !s.nominated then (s.(state := Failed), [GaveUp]) else (s, [])
    case Close => (s.(closed := true), [])
  }

  function Run(c: Config, s: Session, events: seq<Event>): (Session, Log) {
    if events == [] then (s, [])
    else
      var (t, log) := Run(c, s, events[..|events| - 1]);
      var (u, more) := Step(c, t, events[|events| - 1]);
      (u, log + more)
  }
}
