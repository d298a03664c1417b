/**
 What the registry's handshakes mean for the packet counter: the frames a connection sends before and
 when its session starts, read off a run of the registry.
 */
module RegistrySending {
  import opened Bytes
  import opened NoiseSpec
  import opened Registry
  import opened RegistryInvariant
  import opened RegistryLateFrames
  import S = EndToEnd

  /** The event makes this side send a handshake message on the connection. */
  predicate Writes(env: Env, g: Reg, e: Event, id: nat) {
    match e
    case Connect(outbound, eph) => outbound && id == g.nextId
    case NoiseInit(i, msg, eph) =>
      i == id && Listening(g, id, false) &&
      var (h, got) := env.read(g.records[id].handshake.value, msg);
      got.Some? && env.write(h, eph).1.Some?
    case NoiseResp(i, msg, eph) =>
      i == id && Listening(g, id, true) &&
      var (h, got) := env.read(g.records[id].handshake.value, msg);
      got.Some? && Accepts(env, h, got.value).Some? && env.write(h, eph).1.Some?
    case _ => false
  }

  /** The event starts the session of the connection. */
  predicate Starts(env: Env, g: Reg, e: Event, id: nat) { !Live(g, id) && Live(Step(env, g, e), id) }

  /** What the event is for the sending side of the connection. */
  function Sends(env: Env, g: Reg, e: Event, id: nat): seq<S.Event> {
    (if Writes(env, g, e, id) then [S.HandshakeFrame] else []) + (if Starts(env, g, e, id) then [S.Finalize] else [])
  }

  /** The sending side's events over a run of the registry, data frames left out. */
  function Sending(env: Env, es: seq<Event>, id: nat): seq<S.Event> {
    if es == [] then []
    else
      var front := es[..|es| - 1];
      Sending(env, front, id) + Sends(env, Run(env, front), es[|es| - 1], id)
  }

  // ---- Without late frames a session starts only after a message was sent ----

  lemma Append(a: seq<S.Event>, e: S.Event)
    requires S.WroteFirst(a) && (e.Finalize? ==> S.Wrote(a))
    ensures S.WroteFirst(a + [e]) && (S.Wrote(a) || e.HandshakeFrame? ==> S.Wrote(a + [e]))
  {
    assert (a + [e])[..|a|] == a;
    S.WroteSnoc(a + [e]);
  }

  /** The frame is a final message that is read and accepted. */
  predicate Accepted(env: Env, g: Reg, e: Event, id: nat) {
    e.NoiseFin? && e.id == id && Listening(g, id, false) &&
    var (h, got) := env.read(g.records[id].handshake.value, e.msg);
    got.Some? && Accepts(env, h, got.value).Some?
  }

  /** Handshake frames of one connection leave the records of the others alone. */
  ghost predicate Alone(g: Reg, g': Reg, id: nat) {
    (id in g'.records <==> id in g.records) && (id in g'.records ==> g'.records[id] == g.records[id])
  }

  lemma FinalizeAlone(g: Reg, i: nat, r: Record, id: nat)
    requires i in g.records && r.handshake.Some? && i != id
    ensures Alone(g, OnFinalize(Put(g, i, r), i), id)
  {
    FinalizeIs(g, i, r);
  }

  lemma OthersAlone(env: Env, g: Reg, e: Event, id: nat)
    requires (e.NoiseInit? || e.NoiseResp? || e.NoiseFin?) && e.id != id
    ensures Alone(g, Step(env, g, e), id)
  {
    if !e.NoiseInit? && Listening(g, e.id, e.NoiseResp?) {
      var rec := g.records[e.id];
      var (h, got) := env.read(rec.handshake.value, e.msg);
      if got.Some? && Accepts(env, h, got.value).Some? {
        var r := Authenticated(env, rec.(handshake := Some(h)), Accepts(env, h, got.value).value);
        FinalizeAlone(g, e.id, if e.NoiseFin? then r else r.(handshake := Some(env.write(h, e.eph).0)), id);
      }
    }
  }

  lemma PlainStarts(env: Env, g: Reg, e: Event, id: nat)
    requires Ids(g) && !e.NoiseInit? && !e.NoiseResp? && !e.NoiseFin?
    ensures !Starts(env, g, e, id)
  {
  }

  lemma NoiseStarts(env: Env, g: Reg, e: Event, id: nat)
    requires (e.NoiseInit? || e.NoiseResp? || e.NoiseFin?) && e.id == id && Starts(env, g, e, id)
    ensures Writes(env, g, e, id) || Accepted(env, g, e, id)
  {
    if e.NoiseInit? {
      assert false;
    } else if e.NoiseFin? {
      assert Listening(g, id, false);
      var (h, got) := env.read(g.records[id].handshake.value, e.msg);
      assert got.Some? && Accepts(env, h, got.value).Some?;
    } else {
      assert Listening(g, id, true);
      var (h, got) := env.read(g.records[id].handshake.value, e.msg);
      assert got.Some? && Accepts(env, h, got.value).Some?;
      assert env.write(h, e.eph).1.Some?;
    }
  }

  /** A session starts by an answered second message or by an accepted final one. */
  lemma StartsBy(env: Env, g: Reg, e: Event, id: nat)
    requires Base(env, g) && Starts(env, g, e, id)
    ensures Writes(env, g, e, id) || Accepted(env, g, e, id)
  {
    if e.NoiseInit? || e.NoiseResp? || e.NoiseFin? {
      if e.id == id {
        NoiseStarts(env, g, e, id);
      } else {
        OthersAlone(env, g, e, id);
      }
    } else {
      PlainStarts(env, g, e, id);
    }
  }

  /** What a record still needs before its session may start: a message sent. */
  ghost predicate Ready(r: Record, wrote: bool) {
    r.handshake.Some? ==>
      var h := r.handshake.value;
      (h.initiator ==> wrote) && (!h.initiator && !r.closed && h.step == 2 ==> wrote)
  }

  ghost predicate Noted(g: Reg, id: nat, sent: seq<S.Event>) {
    S.WroteFirst(sent) && (id in g.records ==> Ready(g.records[id], S.Wrote(sent)))
  }

  lemma PlainReady(env: Env, g: Reg, e: Event, id: nat, wrote: bool)
    requires env.Lawful() && Ids(g) && !e.NoiseInit? && !e.NoiseResp? && !e.NoiseFin? && !Writes(env, g, e, id)
    requires id in g.records ==> Ready(g.records[id], wrote)
    ensures var g' := Step(env, g, e); id in g'.records ==> Ready(g'.records[id], wrote)
  {
  }

  lemma InitReady(env: Env, g: Reg, e: Event, wrote: bool)
    requires env.Lawful() && e.NoiseInit? && !Writes(env, g, e, e.id)
    requires e.id in g.records ==> Ready(g.records[e.id], wrote)
    ensures var g' := Step(env, g, e); e.id in g'.records ==> Ready(g'.records[e.id], wrote)
  {
  }

  lemma RespReady(env: Env, g: Reg, e: Event, wrote: bool)
    requires env.Lawful() && e.NoiseResp? && !Writes(env, g, e, e.id)
    requires e.id in g.records ==> Ready(g.records[e.id], wrote)
    ensures var g' := Step(env, g, e); e.id in g'.records ==> Ready(g'.records[e.id], wrote)
  {
  }

  lemma FinReady(env: Env, g: Reg, e: Event, wrote: bool)
    requires env.Lawful() && e.NoiseFin? && (e.id in g.records ==> Ready(g.records[e.id], wrote))
    ensures var g' := Step(env, g, e); e.id in g'.records ==> Ready(g'.records[e.id], wrote)
  {
  }

  lemma StillReady(env: Env, g: Reg, e: Event, id: nat, wrote: bool)
    requires env.Lawful() && Base(env, g) && !Writes(env, g, e, id)
    requires id in g.records ==> Ready(g.records[id], wrote)
    ensures var g' := Step(env, g, e); id in g'.records ==> Ready(g'.records[id], wrote)
  {
    if e.NoiseInit? || e.NoiseResp? || e.NoiseFin? {
      if e.id != id {
        OthersAlone(env, g, e, id);
      } else if e.NoiseInit? {
        InitReady(env, g, e, wrote);
      } else if e.NoiseResp? {
        RespReady(env, g, e, wrote);
      } else {
        FinReady(env, g, e, wrote);
      }
    } else {
      PlainReady(env, g, e, id, wrote);
    }
  }

  lemma StartNeedsMessage(env: Env, g: Reg, e: Event, id: nat, wrote: bool)
    requires env.Lawful() && Base(env, g) && !Late(g, e) && Starts(env, g, e, id) && !Writes(env, g, e, id)
    requires id in g.records ==> Ready(g.records[id], wrote)
    ensures wrote
  {
    StartsBy(env, g, e, id);
    assert RecordOk(env, id, g.records[id]);
  }

  lemma WrittenReady(env: Env, g: Reg, e: Event, id: nat)
    ensures var g' := Step(env, g, e); id in g'.records ==> Ready(g'.records[id], true)
  {
  }

  lemma StepNoted(env: Env, g: Reg, e: Event, id: nat, sent: seq<S.Event>)
    requires env.Lawful() && Base(env, g) && !Late(g, e) && Noted(g, id, sent)
    ensures Noted(Step(env, g, e), id, sent + Sends(env, g, e, id))
  {
    if Writes(env, g, e, id) {
      Append(sent, S.HandshakeFrame);
      WrittenReady(env, g, e, id);
      MaybeStart(env, g, e, id, sent, sent + [S.HandshakeFrame]);
    } else {
      StillReady(env, g, e, id, S.Wrote(sent));
      if Starts(env, g, e, id) {
        StartNeedsMessage(env, g, e, id, S.Wrote(sent));
      }
      MaybeStart(env, g, e, id, sent, sent);
    }
  }

  lemma MaybeStart(env: Env, g: Reg, e: Event, id: nat, sent: seq<S.Event>, mid: seq<S.Event>)
    requires mid == if Writes(env, g, e, id) then sent + [S.HandshakeFrame] else sent
    requires Noted(Step(env, g, e), id, mid) && (Starts(env, g, e, id) ==> S.Wrote(mid))
    ensures Noted(Step(env, g, e), id, sent + Sends(env, g, e, id))
  {
    if Starts(env, g, e, id) {
      Append(mid, S.Finalize);
      assert sent + Sends(env, g, e, id) == mid + [S.Finalize];
    } else {
      assert sent + Sends(env, g, e, id) == mid;
    }
  }

  /** If no handshake frame comes behind a close, every session starts after a message was sent on it. */
  lemma {:induction false} PromptWritesFirst(env: Env, es: seq<Event>, id: nat)
    requires env.Lawful() && Prompt(env, es)
    ensures Noted(Run(env, es), id, Sending(env, es, id))
    decreases |es|
  {
    if es != [] {
      var front := es[..|es| - 1];
      PromptWritesFirst(env, front, id);
      Always(env, front);
      StepNoted(env, Run(env, front), es[|es| - 1], id, Sending(env, front, id));
    }
  }

  /** A connection's events without its data frames, rekeys and shutdown. */
  function Handshakes(all: seq<S.Event>): seq<S.Event> {
    if all == [] then []
    else
      var front, e := Handshakes(all[..|all| - 1]), all[|all| - 1];
      if e.HandshakeFrame? || e.Finalize? then front + [e] else front
  }

  lemma {:induction false} HandshakesDecide(all: seq<S.Event>)
    ensures S.Wrote(all) <==> S.Wrote(Handshakes(all))
    ensures S.WroteFirst(all) <==> S.WroteFirst(Handshakes(all))
    decreases |all|
  {
    if all != [] {
      var front, e := all[..|all| - 1], all[|all| - 1];
      HandshakesDecide(front);
      S.WroteSnoc(all);
      if e.HandshakeFrame? || e.Finalize? {
        var some := Handshakes(front) + [e];
        assert some[..|some| - 1] == Handshakes(front);
        S.WroteSnoc(some);
      }
    }
  }

  /**
   So for every connection of a registry run without late frames, and any data frames and rekeys
   among its handshake events, fewer than 2^64 events keep the id law.
   */
  lemma PromptKeepsIds(env: Env, es: seq<Event>, id: nat, all: seq<S.Event>)
    requires env.Lawful() && Prompt(env, es) && Handshakes(all) == Sending(env, es, id) && |all| < S.IDS
    ensures S.AllFit(all) && S.IdsUnique(S.Encrypted(false, all))
  {
    PromptWritesFirst(env, es, id);
    HandshakesDecide(all);
    S.ShortRunFits(all);
    S.UniqueIff(false, all);
  }

  // ---- The two final messages again ----

  lemma SendingSnoc(env: Env, es: seq<Event>, e: Event, id: nat)
    ensures Sending(env, es + [e], id) == Sending(env, es, id) + Sends(env, Run(env, es), e, id)
  {
    assert (es + [e])[..|es|] == es;
  }

  /** Of an incoming call and two final messages only the start of the session is anything to the sender. */
  lemma NothingSent(env: Env, a: Event, b: Event, c: Event)
    requires a.Connect? && !a.outbound && b.NoiseFin? && c.NoiseFin?
    requires !Live(Run(env, [a, b]), 1) && Live(Run(env, [a, b] + [c]), 1)
    ensures Sending(env, [a, b] + [c], 1) == [S.Finalize]
  {
    assert [a, b] == [] + [a] + [b];
    SendingSnoc(env, [], a, 1);
    SendingSnoc(env, [] + [a], b, 1);
    SendingSnoc(env, [a, b], c, 1);
    RunSnoc(env, [], a);
    RunSnoc(env, [] + [a], b);
    RunSnoc(env, [a, b], c);
    assert !Starts(env, EMPTY, a, 1);
  }

  lemma TwoFinsSend()
    ensures Sending(ToyEnv(), TWO_FINS, 1) == [S.Finalize]
  {
    TwoFins();
    AfterOneFin();
    Always(ToyEnv(), ONE_FIN);
    var g := Run(ToyEnv(), ONE_FIN);
    assert RecordOk(ToyEnv(), 1, g.records[1]);
    NothingSent(ToyEnv(), Connect(false, []), NoiseFin(1, FIRST), NoiseFin(1, Second([7])));
  }

  /** The session that rests on two messages has sent nothing, so its first frame goes out under id 0. */
  lemma TwoFinsStartAtZero(plain: Bytes)
    ensures var es := Sending(ToyEnv(), TWO_FINS, 1) + [S.DataFrame(plain)];
            S.Encrypted(false, es) == [S.Sent(0, 0, plain)] && !S.AllFit(es) && !S.IdsUnique(S.Encrypted(false, es))
  {
    TwoFinsSend();
    assert [S.Finalize] + [S.DataFrame(plain)] == [S.Finalize, S.DataFrame(plain)];
    S.StartsAtZero(plain);
  }
}
