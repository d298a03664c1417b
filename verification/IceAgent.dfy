/** The ICE session object: its fields, and each handler proved to be the step it stands for. */
module IceAgent {
  import opened Bytes
  import opened Stun
  import opened IceCandidates
  import opened IceSession
  import IceSafety

  class Agent {
    const config: Config
    const controlling: bool
    var state: State
    var locals: seq<Candidate>
    var remotes: seq<Candidate>
    var list: seq<Check>
    var next: nat
    var nominated: bool
    var remoteEp: Mapped
    var keepaliveTxn: TransactionId
    var missed: nat
    var armed: bool
    var closed: bool
    ghost var log: Log

    /** The safety of the session, over everything it has done so far. */
    ghost predicate Valid()
      reads this
    {
      Sorts(config) && IceSafety.Inv(config, View(), log)
    }

    function View(): Session
      reads this
    {
      Session(state, controlling, locals, remotes, list, next, nominated, remoteEp, keepaliveTxn, missed, armed, closed)
    }

    constructor (config: Config, controlling: bool)
      requires Sorts(config)
      ensures Valid() && View() == Initial(controlling) && this.config == config && log == []
    {
      this.config, this.controlling := config, controlling;
      state, locals, remotes, list, next := New, [], [], [], 0;
      nominated, remoteEp, keepaliveTxn := false, NOTHING.mapped, ZERO;
      missed, armed, closed, log := 0, false, false, [];
    }

    method Transition(to: State)
      modifies this`state
      ensures View() == old(View()).(state := to)
    {
      state := to;
    }

    /** form_check_list, sorting as the configured sort does. */
    method FormCheckList()
      modifies this`list, this`next
      ensures View() == old(View()).(list := FormedList(config, old(View())), next := 0)
    {
      var all := CollectPairs(locals, remotes, controlling);
      list, next := Fresh(config.sort(all)), 0;
    }

    /** The search loop of send_next_check and the check it sends. */
    method CheckNextWaiting(txn: TransactionId) returns (out: Log)
      modifies this`list, this`next
      ensures (View(), out) == CheckOne(old(View()), txn)
    {
      out := [];
      ghost var before := View();
      while next < |list|
        invariant View() == before.(next := next)
        invariant out == [] && (before.next <= |list| ==> before.next <= next <= |list|)
        invariant before.next <= |list| ==> FirstWaiting(list, before.next) == FirstWaiting(list, next)
        invariant before.next > |list| ==> next == before.next
      {
        if list[next].status == Waiting {
          out := [Checked(next, list[next].pair.priority)];
          list := list[next := list[next].(status := InProgress, txn := txn)];
          next := next + 1;
          return;
        }
        next := next + 1;
      }
    }

    /** The loop over the list that looks for pairs still to be settled. */
    method AnyPending() returns (any: bool)
      ensures any == Pending(list)
    {
      any := false;
      for i := 0 to |list|
        invariant any <==> exists j :: 0 <= j < i && (list[j].status == Waiting || list[j].status == InProgress)
      {
        if list[i].status == Waiting || list[i].status == InProgress {
          any := true;
        }
      }
    }

    method SendNextCheck(txn: TransactionId) returns (out: Log)
      modifies this
      ensures (View(), out) == IceSession.SendNextCheck(old(View()), txn)
      ensures log == old(log)
    {
      if state != Checking || closed {
        return [];
      }
      out := CheckNextWaiting(txn);
      var pending := AnyPending();
      if !pending && !nominated {
        Transition(Failed);
        out := out + [GaveUp];
      }
    }

    method Begin(txn: TransactionId) returns (out: Log)
      modifies this
      ensures (View(), out) == IceSession.Begin(config, old(View()), txn)
      ensures log == old(log)
    {
      ghost var before := View();
      Transition(Checking);
      FormCheckList();
      assert View() == before.(state := Checking, list := FormedList(config, before), next := 0);
      out := SendNextCheck(txn);
    }

    method SendKeepalive(txn: TransactionId) returns (out: Log)
      modifies this`keepaliveTxn, this`missed, this`armed
      ensures (View(), out) == IceSession.SendKeepalive(old(View()), txn)
    {
      if !nominated || closed || state != Connected {
        return [];
      }
      keepaliveTxn := txn;
      out := [Kept(remoteEp)];
      missed := missed + 1;
      armed := true;
    }

    method Nominate(i: nat, txn: TransactionId) returns (out: Log)
      modifies this
      ensures (View(), out) == IceSession.Nominate(old(View()), i, txn)
      ensures log == old(log)
    {
      if nominated || i >= |list| {
        return [];
      }
      nominated := true;
      remoteEp := list[i].pair.theirs.endpoint;
      Transition(Connected);
      missed := 0;
      out := SendKeepalive(txn);
      out := out + [Joined(remoteEp)];
    }

    method HandleResponse(answers: TransactionId, txn: TransactionId) returns (out: Log)
      modifies this
      ensures (View(), out) == IceSession.HandleResponse(old(View()), answers, txn)
      ensures log == old(log)
    {
      if nominated && answers == keepaliveTxn {
        missed := 0;
        return [Heard];
      }
      var i := 0;
      while i < |list| && !(list[i].status == InProgress && list[i].txn == answers)
        invariant i <= |list| && FirstAnswered(list, answers, 0) == FirstAnswered(list, answers, i)
      {
        i := i + 1;
      }
      if i == |list| {
        return [];
      }
      list := list[i := list[i].(status := Succeeded)];
      out := [];
      if controlling && !nominated {
        out := Nominate(i, txn);
      }
    }

    method HandleRequest(from: Mapped, useCandidate: bool, priority: nat, txn: TransactionId) returns (out: Log)
      modifies this
      ensures (View(), out) == IceSession.HandleRequest(old(View()), from, useCandidate, priority, txn)
      ensures log == old(log)
    {
      if !useCandidate || controlling || nominated {
        return [];
      }
      var i := 0;
      while i < |list| && list[i].pair.theirs.endpoint != from
        invariant i <= |list| && FirstTo(list, from, 0) == FirstTo(list, from, i)
      {
        i := i + 1;
      }
      if i < |list| {
        list := list[i := list[i].(status := Succeeded)];
        out := Nominate(i, txn);
      } else {
        list := list + [Reflexive(View(), from, priority)];
        out := Nominate(|list| - 1, txn);
      }
    }

    method KeepaliveFired(txn: TransactionId) returns (out: Log)
      modifies this
      ensures (View(), out) == IceSession.KeepaliveFired(config, old(View()), txn)
      ensures log == old(log)
    {
      if !armed {
        return [];
      }
      armed := false;
      if missed >= config.maxFailures {
        Transition(Failed);
        return [Lost];
      }
      out := SendKeepalive(txn);
    }

    /** Any event at any time: the step relation is followed and every safety property is kept. */
    method Handle(e: Event) returns (out: Log)
      requires Valid()
      modifies this
      ensures Valid() && (View(), out) == Step(config, old(View()), e) && log == old(log) + out
    {
      IceSafety.StepInv(config, View(), log, e);
      out := Dispatch(e);
      log := log + out;
    }

    /** The handler an event reaches. */
    method Dispatch(e: Event) returns (out: Log)
      modifies this
      ensures (View(), out) == Step(config, old(View()), e) && log == old(log)
    {
      out := [];
      match e {
        case Gather(host) =>
          if state == New {
            Transition(Gathering);
            locals := locals + [host];
          }
        case Gathered(reflexive, txn) =>
          if reflexive.Some? {
            locals := locals + [reflexive.value];
          }
          if state == Gathering {
            if remotes == [] {
              Transition(WaitingRemote);
            } else {
              out := Begin(txn);
            }
          }
        case SetRemote(candidates, txn) =>
          remotes := candidates;
          if state == WaitingRemote {
            out := Begin(txn);
          }
        case StartChecks(txn) =>
          if state == WaitingRemote && remotes != [] {
            out := Begin(txn);
          }
        case CheckTimer(txn) => out := SendNextCheck(txn);
        case Response(answers, txn) => out := HandleResponse(answers, txn);
        case Request(from, useCandidate, priority, txn) => out := HandleRequest(from, useCandidate, priority, txn);
        case KeepaliveTimer(txn) => out := KeepaliveFired(txn);
        case SessionTimer =>
          if state == Checking && !nominated {
            Transition(Failed);
            out := [GaveUp];
          }
        case Close => closed := true;
      }
    }
  }
}
