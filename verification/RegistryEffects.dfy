/** What each event of the registry must bring about, and what it must leave alone. */
module RegistryEffects {
  import opened Bytes
  import opened NoiseSpec
  import opened NoiseLockstep
  import opened Registry
  import opened RegistryInvariant
  import opened RegistryOverNoise

  /** All records but this one are as they were. */
  ghost predicate OthersSame(g: Reg, g': Reg, id: nat) {
    forall x :: x != id ==> (x in g'.records <==> x in g.records) && (x in g.records ==> g'.records[x] == g.records[x])
  }

  /** A new record under a new id, with its queue: open, shaking hands in its role, on one path. */
  lemma ConnectAdds(env: Env, g: Reg, outbound: bool, eph: Bytes)
    requires env.Lawful()
    ensures var g', id := OnConnect(env, g, outbound, eph), g.nextId;
            && id in g'.records && id in g'.queues && g'.nextId == id + 1 && OthersSame(g, g', id)
            && g'.keys == g.keys && g'.transports == g.transports && g'.queues == g.queues + {id}
            && var r := g'.records[id];
               !r.established && !r.authenticated && !r.closed && Listening(g', id, outbound) && r.paths == [Path(id, "tcp")] &&
               r.handshake.value.step == (if outbound then 1 else 0)
  {
  }

  // ---- Extra transports ----

  /** The key leads to a live session that has no path of the scheme. */
  predicate Wanted(g: Reg, key: Bytes, scheme: string) {
    key in g.keys && Live(g, g.keys[key]) && !HasScheme(g.records[g.keys[key]].paths, scheme)
  }

  /**
   A transport gets an id exactly when it is wanted. Then the peer's record has exactly one path more,
   with that id and scheme, the transport index leads from the id to the record, and nothing else has
   changed; otherwise nothing at all.
   */
  lemma AddTransportIff(g: Reg, key: Bytes, scheme: string)
    ensures var g' := OnAddTransport(g, key, scheme);
            && (g'.nextId != g.nextId <==> Wanted(g, key, scheme)) && (!Wanted(g, key, scheme) ==> g' == g)
            && (Wanted(g, key, scheme) ==>
                  var peer, tid := g.keys[key], g.nextId;
                  && g'.nextId == tid + 1 && OthersSame(g, g', peer) && peer in g'.records
                  && g'.records[peer] == g.records[peer].(paths := g.records[peer].paths + [Path(tid, scheme)])
                  && tid in g'.transports && g'.transports[tid] == peer
                  && (forall t :: t != tid ==> (t in g'.transports <==> t in g.transports) &&
                                               (t in g.transports ==> g'.transports[t] == g.transports[t]))
                  && g'.keys == g.keys && g'.queues == g.queues)
  {
  }

  /** In every run: a second transport of another scheme is accepted for every peer with a live session. */
  lemma SecondTransport(env: Env, es: seq<Event>, id: nat, scheme: string)
    requires env.Lawful() && NothingBreaks(env, es) && Live(Run(env, es), id)
    requires !HasScheme(Run(env, es).records[id].paths, scheme)
    ensures var g := Run(env, es);
            var g' := Step(env, g, AddTransport(g.records[id].claim.user, scheme));
            g'.nextId == g.nextId + 1 && id in g'.records && HasScheme(g'.records[id].paths, scheme) &&
            g.nextId in g'.transports && g'.transports[g.nextId] == id
  {
    SoundIff(env, es);
    var g := Run(env, es);
    assert KeyOf(g, id);
    var key := g.records[id].claim.user;
    AddTransportIff(g, key, scheme);
    var ps := g.records[id].paths;
    assert (ps + [Path(g.nextId, scheme)])[|ps|].scheme == scheme;
  }

  // ---- Disconnects ----

  /** A secondary transport: its owner loses exactly the paths with its id, the index the entry, nothing else. */
  lemma SecondaryGoes(env: Env, g: Reg, id: nat)
    requires Base(env, g) && id in g.transports
    ensures var g', peer := OnDisconnect(g, id), g.transports[id];
            && id !in g'.transports && id !in g'.records && OthersSame(g, g', peer) && peer in g'.records
            && g'.records[peer] == g.records[peer].(paths := g'.records[peer].paths)
            && (forall p :: p in g'.records[peer].paths <==> p in g.records[peer].paths && p.tid != id)
            && (forall t :: t != id ==> (t in g'.transports <==> t in g.transports) &&
                                        (t in g.transports ==> g'.transports[t] == g.transports[t]))
            && g'.keys == g.keys && g'.queues == g.queues && g'.nextId == g.nextId
  {
    OwnerEstablished(env, g, id);
    WithoutKeeps(g.records[g.transports[id]].paths, id);
  }

  /** A primary: its record, its queue, its transports and, once authenticated, its peer's key; nothing else. */
  lemma PrimaryGoes(env: Env, g: Reg, id: nat)
    requires Base(env, g) && id in g.records
    ensures var g', r := OnDisconnect(g, id), g.records[id];
            && id !in g'.records && id !in g'.queues && OthersSame(g, g', id) && g'.queues == g.queues - {id}
            && (forall t :: t in g'.transports <==> t in g.transports && g.transports[t] != id)
            && (forall t :: t in g'.transports ==> g'.transports[t] == g.transports[t])
            && (forall k :: k in g'.keys <==> k in g.keys && !(r.authenticated && k == r.claim.user))
            && (forall k :: k in g'.keys ==> g'.keys[k] == g.keys[k]) && g'.nextId == g.nextId
  {
    forall t | t in g.transports
      ensures t in Secondary(g.records[id].paths, id) <==> g.transports[t] == id
    {
      if t in Secondary(g.records[id].paths, id) {
        OwnSecondary(env, g, id, t);
      }
      if g.transports[t] == id {
        var i :| 0 <= i < |g.records[id].paths| && g.records[id].paths[i].tid == t;
      }
    }
  }

  /** An id that names nothing changes nothing. */
  lemma UnknownIgnored(g: Reg, id: nat)
    requires id !in g.records && id !in g.transports
    ensures OnDisconnect(g, id) == g && OnClose(g, id) == g
  {
  }

  lemma CloseMarks(g: Reg, id: nat)
    requires id in g.records
    ensures var g' := OnClose(g, id);
            g'.records[id] == g.records[id].(closed := true) && OthersSame(g, g', id) && g' == g.(records := g'.records)
  {
  }

  // ---- Handshakes ----

  /** A first message that can be read and answered: the answer is written and the record waits for the third. */
  lemma InitAnswered(env: Env, g: Reg, e: Event)
    requires env.Lawful() && e.NoiseInit? && Listening(g, e.id, false)
    requires var (h, got) := env.read(g.records[e.id].handshake.value, e.msg); got.Some? && env.write(h, e.eph).1.Some?
    ensures var g' := Step(env, g, e);
            var h := env.read(g.records[e.id].handshake.value, e.msg).0;
            g' == Put(g, e.id, g.records[e.id].(handshake := Some(env.write(h, e.eph).0)))
  {
  }

  /** The handshake state with which the event completes a handshake, and the claim it accepts. */
  ghost predicate Completes(env: Env, g: Reg, e: Event, h: Hs, c: Claim) {
    match e
    case NoiseResp(id, msg, eph) =>
      Listening(g, id, true) &&
      var (h1, got) := env.read(g.records[id].handshake.value, msg);
      got.Some? && Accepts(env, h1, got.value) == Some(c) && env.write(h1, eph).1.Some? && h == env.write(h1, eph).0
    case NoiseFin(id, msg) =>
      Listening(g, id, false) &&
      var (h1, got) := env.read(g.records[id].handshake.value, msg);
      got.Some? && Accepts(env, h1, got.value) == Some(c) && h == h1
    case _ => false
  }

  /**
   A completed handshake ends in a session with that state and claim under the peer's key, or, when
   the peer already has another session, in the end of the new connection.
   */
  lemma CompletedOutcome(env: Env, g: Reg, e: Event, h: Hs, c: Claim)
    requires Base(env, g) && Completes(env, g, e, h, c)
    ensures var g' := Step(env, g, e);
            && OthersSame(g, g', e.id) && g'.transports == g.transports && g'.nextId == g.nextId
            && (if c.user in g.keys then e.id !in g'.records && g'.keys == g.keys && g'.queues == g.queues - {e.id}
                else Live(g', e.id) && g'.records[e.id].claim == c && g'.records[e.id].session == Some(h) &&
                     g'.keys == g.keys[c.user := e.id] && g'.queues == g.queues)
  {
    var rec := g.records[e.id];
    assert RecordOk(env, e.id, rec);
    if c.user in g.keys {
      assert KeyHeld(g, c.user);
    }
    var r := CompletedRecord(env, g, e, h, c);
    FinalizeIs(g, e.id, r);
  }

  /** The record a completing event hands to finalize_handshake. */
  lemma CompletedRecord(env: Env, g: Reg, e: Event, h: Hs, c: Claim) returns (r: Record)
    requires Completes(env, g, e, h, c)
    ensures r.handshake == Some(h) && r.claim == c && r.authenticated && Step(env, g, e) == OnFinalize(Put(g, e.id, r), e.id)
  {
    var rec := g.records[e.id];
    var h1 := env.read(rec.handshake.value, e.msg).0;
    r := Authenticated(env, rec.(handshake := Some(h1)), c).(handshake := Some(h));
    if e.NoiseFin? {
      assert r == Authenticated(env, rec.(handshake := Some(h1)), c);
    }
  }

  /** The session's one path is the connection itself, under the scheme negotiated with the peer, or tcp without one. */
  lemma SessionPath(env: Env, g: Reg, e: Event, h: Hs, c: Claim)
    requires Base(env, g) && Completes(env, g, e, h, c) && c.user !in g.keys
    ensures var g', name := Step(env, g, e), env.negotiate(c.schemes);
            e.id in g'.records && g'.records[e.id].paths == [Path(e.id, if name == "" then "tcp" else name)]
  {
    assert RecordOk(env, e.id, g.records[e.id]);
  }

  /** A second or third message that completes nothing closes its connection, leaves it without a session and all others alone. */
  lemma IncompleteCloses(env: Env, g: Reg, e: Event)
    requires Base(env, g) && (e.NoiseResp? || e.NoiseFin?) && Listening(g, e.id, e.NoiseResp?)
    requires forall h, c :: !Completes(env, g, e, h, c)
    ensures var g' := Step(env, g, e);
            && OthersSame(g, g', e.id) && e.id in g'.records && g'.records[e.id].closed && !g'.records[e.id].established
            && g' == g.(records := g'.records)
  {
    var rec := g.records[e.id];
    assert RecordOk(env, e.id, rec);
    var (h1, got) := env.read(rec.handshake.value, e.msg);
    if got.Some? && Accepts(env, h1, got.value).Some? {
      var h := if e.NoiseResp? then env.write(h1, e.eph).0 else h1;
      assert !Completes(env, g, e, h, Accepts(env, h1, got.value).value);
    }
  }

  /** A session starts exactly with a handshake that completes for a peer without one. */
  lemma SessionStartsIff(env: Env, g: Reg, e: Event, id: nat)
    requires env.Lawful() && Base(env, g) && !Live(g, id)
    ensures Live(Step(env, g, e), id) <==>
            ((e.NoiseResp? || e.NoiseFin?) && e.id == id && exists h, c :: Completes(env, g, e, h, c) && c.user !in g.keys)
  {
    if (e.NoiseResp? || e.NoiseFin?) && Listening(g, e.id, e.NoiseResp?) {
      if h, c :| Completes(env, g, e, h, c) {
        CompletedOutcome(env, g, e, h, c);
        forall h', c' | Completes(env, g, e, h', c')
          ensures c' == c
        {
        }
      } else {
        IncompleteCloses(env, g, e);
      }
    }
  }

  /**
   A call whose second message is read, accepted and answered, by a node in any state that has no
   session with that peer, ends in a session.
   */
  lemma CallCompletes(env: Env, g: Reg, eph: Bytes, msg: Bytes, h: Hs, got: Bytes, c: Claim)
    requires env.Lawful() && Base(env, g) && c.user !in g.keys
    requires env.read(env.write(env.create(true), eph).0, msg) == (h, Some(got))
    requires Accepts(env, h, got) == Some(c) && env.write(h, eph).1.Some?
    ensures var g' := Step(env, Step(env, g, Connect(true, eph)), NoiseResp(g.nextId, msg, eph));
            Live(g', g.nextId) && g'.records[g.nextId].claim == c && g'.records[g.nextId].session == Some(env.write(h, eph).0)
  {
    ConnectAdds(env, g, true, eph);
    ConnectKeeps(env, g, true, eph);
    RespCompletes(env, Step(env, g, Connect(true, eph)), g.nextId, env.write(env.create(true), eph).0, eph, msg, h, got, c);
  }

  lemma RespCompletes(env: Env, g: Reg, id: nat, h0: Hs, eph: Bytes, msg: Bytes, h: Hs, got: Bytes, c: Claim)
    requires Base(env, g) && c.user !in g.keys && Listening(g, id, true) && g.records[id].handshake == Some(h0)
    requires env.read(h0, msg) == (h, Some(got)) && Accepts(env, h, got) == Some(c) && env.write(h, eph).1.Some?
    ensures var g' := Step(env, g, NoiseResp(id, msg, eph));
            Live(g', id) && g'.records[id].claim == c && g'.records[id].session == Some(env.write(h, eph).0)
  {
    assert Completes(env, g, NoiseResp(id, msg, eph), env.write(h, eph).0, c);
    CompletedOutcome(env, g, NoiseResp(id, msg, eph), env.write(h, eph).0, c);
  }

  /** The called node: once the first message is answered, the third one ends in a session likewise. */
  lemma CalledCompletes(env: Env, g: Reg, m1: Bytes, eph: Bytes, h1: Hs, got1: Bytes, m3: Bytes, h3: Hs, got3: Bytes, c: Claim)
    requires env.Lawful() && Base(env, g) && c.user !in g.keys
    requires env.read(env.create(false), m1) == (h1, Some(got1)) && env.write(h1, eph).1.Some?
    requires env.read(env.write(h1, eph).0, m3) == (h3, Some(got3)) && Accepts(env, h3, got3) == Some(c)
    ensures var g2 := Step(env, Step(env, g, Connect(false, [])), NoiseInit(g.nextId, m1, eph));
            var g' := Step(env, g2, NoiseFin(g.nextId, m3));
            Live(g', g.nextId) && g'.records[g.nextId].claim == c && g'.records[g.nextId].session == Some(h3)
  {
    Answering(env, g, m1, eph, h1, got1);
    var g2 := Step(env, Step(env, g, Connect(false, [])), NoiseInit(g.nextId, m1, eph));
    assert Completes(env, g2, NoiseFin(g.nextId, m3), h3, c);
    CompletedOutcome(env, g2, NoiseFin(g.nextId, m3), h3, c);
  }

  lemma Answering(env: Env, g: Reg, m1: Bytes, eph: Bytes, h1: Hs, got1: Bytes)
    requires env.Lawful() && Base(env, g)
    requires env.read(env.create(false), m1) == (h1, Some(got1)) && env.write(h1, eph).1.Some?
    ensures var g2 := Step(env, Step(env, g, Connect(false, [])), NoiseInit(g.nextId, m1, eph));
            Base(env, g2) && g2.keys == g.keys && Listening(g2, g.nextId, false) &&
            g2.records[g.nextId].handshake == Some(env.write(h1, eph).0)
  {
    var g1 := Step(env, g, Connect(false, []));
    ConnectAdds(env, g, false, []);
    ConnectKeeps(env, g, false, []);
    NoiseInitKeeps(env, g1, g.nextId, m1, eph);
    InitAnswered(env, g1, NoiseInit(g.nextId, m1, eph));
  }

  // ---- Two nodes ----

  /** A node over the Noise engine: its secret, its payload, and how it judges others. */
  datatype Node = Node(sk: Bytes, payload: Bytes, verify: Bytes -> Option<Claim>, convert: Bytes -> Option<Bytes>,
                       negotiate: seq<string> -> string)

  function EnvOf(suite: Suite, n: Node): Env {
    NoiseEnv(suite, suite.publicKey(n.sk), n.sk, n.payload, n.verify, n.convert, n.negotiate)
  }

  /** The node takes the other's payload for a claim on the other's own static key. */
  ghost predicate Trusts(suite: Suite, n: Node, other: Node, c: Claim) {
    n.verify(other.payload) == Some(c) && n.convert(c.device) == Some(suite.publicKey(other.sk)) &&
    forall d :: n.convert(d) != Some(ZERO_KEY)
  }

  /** The three exchanges of the two nodes, and how they end. */
  ghost predicate GoesThrough(suite: Suite, a: Node, b: Node, ea: Bytes, eb: Bytes, x1: Outcome, x2: Outcome, x3: Outcome) {
    && x1 == Exchange(suite, Init(suite, true, suite.publicKey(a.sk), a.sk), Init(suite, false, suite.publicKey(b.sk), b.sk), [], ea)
    && x1.Delivered? && x2 == Exchange(suite, x1.r, x1.w, b.payload, eb)
    && x2.Delivered? && x3 == Exchange(suite, x2.r, x2.w, a.payload, ea) && x3.Delivered?
  }

  function Msg(suite: Suite, w: Hs, p: Bytes, eph: Bytes): Bytes {
    match WriteMessage(suite, w, p, eph).1
    case None => []
    case Some(m) => m
  }

  /** What the lockstep says of exchanges that go through, in terms of the messages. */
  lemma Exchanged(suite: Suite, a: Node, b: Node, ea: Bytes, eb: Bytes, x1: Outcome, x2: Outcome, x3: Outcome)
    requires suite.Lawful() && GoesThrough(suite, a, b, ea, eb, x1, x2, x3)
    ensures x1.w.step == 1 && x1.w.initiator && x1.r.step == 1 && !x1.r.initiator && x2.r.step == 2 && x2.w.step == 2
    ensures x2.r.rs == suite.publicKey(b.sk) && x3.r.rs == suite.publicKey(a.sk) && x2.got == b.payload && x3.got == a.payload
    ensures Complete(suite, x3.w, x3.r)
  {
    HandshakeLockstep(suite, a.sk, b.sk, [], b.payload, a.payload, ea, eb);
    var i0, r0 := Init(suite, true, suite.publicKey(a.sk), a.sk), Init(suite, false, suite.publicKey(b.sk), b.sk);
    WriteFacts(suite, i0, [], ea);
    ReadFacts(suite, r0, Msg(suite, i0, [], ea));
    WriteFacts(suite, x1.r, b.payload, eb);
    ReadFacts(suite, x1.w, Msg(suite, x1.r, b.payload, eb));
    KeysCarried(suite, a, b, ea, eb, x1, x2, x3);
  }

  lemma KeysCarried(suite: Suite, a: Node, b: Node, ea: Bytes, eb: Bytes, x1: Outcome, x2: Outcome, x3: Outcome)
    requires suite.Lawful() && GoesThrough(suite, a, b, ea, eb, x1, x2, x3)
    ensures x3.r.rs == suite.publicKey(a.sk)
  {
    HandshakeLockstep(suite, a.sk, b.sk, [], b.payload, a.payload, ea, eb);
    var i0 := Init(suite, true, suite.publicKey(a.sk), a.sk);
    ReadKeepsLocal(suite, x1.w, Msg(suite, x1.r, b.payload, eb));
    WriteKeepsRemote(suite, x2.r, a.payload, ea);
  }

  /**
   Two nodes that trust each other and have no session yet, in whatever other state their registries
   are: a call, its answer and the final message end with a session on each side, with the other's
   claim, resting on handshake states whose transport keys cross.
   */
  lemma HonestHandshake(suite: Suite, a: Node, b: Node, ca: Claim, cb: Claim, ga: Reg, gb: Reg, ea: Bytes, eb: Bytes,
                        x1: Outcome, x2: Outcome, x3: Outcome)
    requires suite.Lawful() && GoesThrough(suite, a, b, ea, eb, x1, x2, x3)
    requires Trusts(suite, a, b, cb) && Trusts(suite, b, a, ca)
    requires Base(EnvOf(suite, a), ga) && Base(EnvOf(suite, b), gb) && cb.user !in ga.keys && ca.user !in gb.keys
    ensures var m1 := Msg(suite, Init(suite, true, suite.publicKey(a.sk), a.sk), [], ea);
            var m2, m3 := Msg(suite, x1.r, b.payload, eb), Msg(suite, x2.r, a.payload, ea);
            var ea', eb' := EnvOf(suite, a), EnvOf(suite, b);
            var ga2 := Step(ea', Step(ea', ga, Connect(true, ea)), NoiseResp(ga.nextId, m2, ea));
            var gb3 := Step(eb', Step(eb', Step(eb', gb, Connect(false, [])), NoiseInit(gb.nextId, m1, eb)), NoiseFin(gb.nextId, m3));
            && Live(ga2, ga.nextId) && ga2.records[ga.nextId].claim == cb && ga2.records[ga.nextId].session == Some(x3.w)
            && Live(gb3, gb.nextId) && gb3.records[gb.nextId].claim == ca && gb3.records[gb.nextId].session == Some(x3.r)
            && Complete(suite, x3.w, x3.r)
  {
    Exchanged(suite, a, b, ea, eb, x1, x2, x3);
    Answered(suite, a, b, cb, ga, ea, eb, x1, x2, x3);
    Finished(suite, a, b, ca, gb, ea, eb, x1, x2, x3);
  }

  lemma Answered(suite: Suite, a: Node, b: Node, cb: Claim, ga: Reg, ea: Bytes, eb: Bytes, x1: Outcome, x2: Outcome, x3: Outcome)
    requires suite.Lawful() && GoesThrough(suite, a, b, ea, eb, x1, x2, x3) && Trusts(suite, a, b, cb)
    requires Base(EnvOf(suite, a), ga) && cb.user !in ga.keys
    ensures var env, id := EnvOf(suite, a), ga.nextId;
            var g2 := Step(env, Step(env, ga, Connect(true, ea)), NoiseResp(id, Msg(suite, x1.r, b.payload, eb), ea));
            Live(g2, id) && g2.records[id].claim == cb && g2.records[id].session == Some(x3.w)
  {
    var env := EnvOf(suite, a);
    Exchanged(suite, a, b, ea, eb, x1, x2, x3);
    assert env.Lawful() by {
      NoiseEnvLawful(suite, suite.publicKey(a.sk), a.sk, a.payload, a.verify, a.convert, a.negotiate);
    }
    CallCompletes(env, ga, ea, Msg(suite, x1.r, b.payload, eb), x2.r, b.payload, cb);
  }

  lemma Finished(suite: Suite, a: Node, b: Node, ca: Claim, gb: Reg, ea: Bytes, eb: Bytes, x1: Outcome, x2: Outcome, x3: Outcome)
    requires suite.Lawful() && GoesThrough(suite, a, b, ea, eb, x1, x2, x3) && Trusts(suite, b, a, ca)
    requires Base(EnvOf(suite, b), gb) && ca.user !in gb.keys
    ensures var m1 := Msg(suite, Init(suite, true, suite.publicKey(a.sk), a.sk), [], ea);
            var env, id := EnvOf(suite, b), gb.nextId;
            var g2 := Step(env, Step(env, gb, Connect(false, [])), NoiseInit(id, m1, eb));
            var g3 := Step(env, g2, NoiseFin(id, Msg(suite, x2.r, a.payload, ea)));
            Live(g3, id) && g3.records[id].claim == ca && g3.records[id].session == Some(x3.r)
  {
    var m1 := Msg(suite, Init(suite, true, suite.publicKey(a.sk), a.sk), [], ea);
    var env := EnvOf(suite, b);
    Exchanged(suite, a, b, ea, eb, x1, x2, x3);
    assert env.Lawful() by {
      NoiseEnvLawful(suite, suite.publicKey(b.sk), b.sk, b.payload, b.verify, b.convert, b.negotiate);
    }
    CalledCompletes(env, gb, m1, eb, x1.r, x1.got, Msg(suite, x2.r, a.payload, ea), x3.r, a.payload, ca);
  }
}
