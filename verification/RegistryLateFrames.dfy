/** Runs in which handshake frames come behind a close, and what they do. */
module RegistryLateFrames {
  import opened Bytes
  import opened NoiseSpec
  import opened NoiseLockstep
  import opened Registry
  import opened RegistryInvariant
  import opened RegistryOverNoise

  const PEER_KEY: Bytes := [1] + Blank(31)
  const PEER: Claim := Claim([9], [8], [])

  function ToyVerify(data: Bytes): Option<Claim> { if data == [7] then Some(PEER) else None }

  function ToyConvert(device: Bytes): Option<Bytes> { Some(PEER_KEY) }

  function ToyNegotiate(schemes: seq<string>): string { "" }

  /** The Noise engine over the toy suite, at a node that knows one peer. */
  function ToyEnv(): Env {
    NoiseEnv(ToySuite(), Blank(DHLEN), Blank(DHLEN), [], ToyVerify, ToyConvert, ToyNegotiate)
  }

  lemma ToyEnvMeets()
    ensures ToyEnv().Lawful() && ToyEnv().Answers()
  {
    BlankStartsZero(DHLEN);
    assert PEER_KEY[0] == 1;
    NoiseEnvLawful(ToySuite(), Blank(DHLEN), Blank(DHLEN), [], ToyVerify, ToyConvert, ToyNegotiate);
    NoiseEnvAnswers(ToySuite(), Blank(DHLEN), Blank(DHLEN), [], ToyVerify, ToyConvert, ToyNegotiate);
  }

  /** An ephemeral key and no payload: refused by the payload check after it has been read. */
  const FIRST: Bytes := Blank(DHLEN)

  const SEALED_KEY: Bytes := PEER_KEY + Blank(MACLEN)

  /** A sealed static key and a sealed payload. */
  function Third(p: Bytes): Bytes { SEALED_KEY + (p + Blank(MACLEN)) }

  /** An ephemeral key before them. */
  function Second(p: Bytes): Bytes { Blank(DHLEN) + Third(p) }

  lemma ReadFirst(h: Hs)
    requires h.step == 0 && !h.sym.cipher.hasKey
    ensures var (h', got) := ReadMessage(ToySuite(), h, FIRST);
            got == Some([]) && h'.step == 1 && h'.initiator == h.initiator
  {
    ReadFacts(ToySuite(), h, FIRST);
    FirstPayload(h);
  }

  lemma FirstPayload(h: Hs)
    requires h.step == 0 && !h.sym.cipher.hasKey
    ensures ReadMessage(ToySuite(), h, FIRST).1 == Some([])
  {
    assert XX[0] == [E] && [E][1..] == [];
    var (h1, rest) := ReadToken(ToySuite(), h, E, FIRST);
    assert rest.value == [];
    assert ReadTokens(ToySuite(), h1, [], rest.value) == (h1, rest);
  }

  lemma ToyOpens(c: Cipher, ad: Bytes, p: Bytes)
    requires c.hasKey
    ensures Decrypt(ToySuite(), c, ad, p + Blank(MACLEN)).1 == Some(p)
  {
    assert (p + Blank(MACLEN))[..|p|] == p && (p + Blank(MACLEN))[|p|..] == Blank(MACLEN);
  }

  /** The s token over the toy suite. */
  lemma ReadKey(h: Hs, p: Bytes)
    requires h.sym.cipher.hasKey
    ensures var (h', rest) := ReadToken(ToySuite(), h, S, Third(p));
            rest == Some(p + Blank(MACLEN)) && h' == h.(rs := PEER_KEY, sym := h'.sym) && h'.sym.cipher.hasKey
  {
    var tail := p + Blank(MACLEN);
    assert Third(p)[..48] == SEALED_KEY && Third(p)[48..] == tail;
    ToyOpens(h.sym.cipher, h.sym.h, PEER_KEY);
  }

  lemma ReadSecond(h: Hs, p: Bytes)
    requires h.step == 1
    ensures var (h', got) := ReadMessage(ToySuite(), h, Second(p));
            got == Some(p) && h'.step == 2 && h'.initiator == h.initiator && h'.rs == PEER_KEY &&
            h'.sym.cipher.hasKey
  {
    var suite := ToySuite();
    ReadFacts(suite, h, Second(p));
    var ts, tail := XX[1], p + Blank(MACLEN);
    assert ts[1..] == [EE, S, ES] && [EE, S, ES][1..] == [S, ES] && [S, ES][1..] == [ES] && [ES][1..] == [];
    var (h1, r1) := ReadToken(suite, h, E, Second(p));
    assert r1.value == Third(p);
    var (h2, r2) := ReadToken(suite, h1, EE, r1.value);
    ReadKey(h2, p);
    var (h3, r3) := ReadToken(suite, h2, S, r2.value);
    var (h4, r4) := ReadToken(suite, h3, ES, r3.value);
    assert ReadTokens(suite, h4, [], tail) == (h4, Some(tail));
    assert ReadTokens(suite, h, ts, Second(p)) == (h4, Some(tail));
    ToyOpens(h4.sym.cipher, h4.sym.h, p);
  }

  lemma ReadThird(h: Hs, p: Bytes)
    requires h.step == 2 && h.sym.cipher.hasKey
    ensures var (h', got) := ReadMessage(ToySuite(), h, Third(p));
            got == Some(p) && h'.step == 3 && h'.initiator == h.initiator && h'.rs == PEER_KEY
  {
    var suite := ToySuite();
    ReadFacts(suite, h, Third(p));
    var ts, tail := XX[2], p + Blank(MACLEN);
    assert ts[1..] == [SE] && [SE][1..] == [];
    ReadKey(h, p);
    var (h1, r1) := ReadToken(suite, h, S, Third(p));
    var (h2, r2) := ReadToken(suite, h1, SE, r1.value);
    assert ReadTokens(suite, h2, [], tail) == (h2, Some(tail));
    assert ReadTokens(suite, h, ts, Third(p)) == (h2, Some(tail));
    ToyOpens(h2.sym.cipher, h2.sym.h, p);
  }

  lemma RunSnoc(env: Env, es: seq<Event>, e: Event)
    ensures Run(env, es + [e]) == Step(env, Run(env, es), e)
  {
    assert (es + [e])[..|es|] == es;
  }

  // ---- Two final messages ----

  const ONE_FIN: seq<Event> := [Connect(false, []), NoiseFin(1, FIRST)]
  const TWO_FINS: seq<Event> := ONE_FIN + [NoiseFin(1, Second([7]))]

  lemma AfterOneFin()
    ensures var g := Run(ToyEnv(), ONE_FIN);
            g.keys == map[] && Listening(g, 1, false) && g.records[1].closed &&
            g.records[1].handshake.value.step == 1
  {
    var env := ToyEnv();
    assert ONE_FIN == [] + [Connect(false, [])] + [NoiseFin(1, FIRST)];
    RunSnoc(env, [], Connect(false, []));
    RunSnoc(env, [] + [Connect(false, [])], NoiseFin(1, FIRST));
    ReadFirst(env.create(false));
  }

  lemma ToyPremature(g: Reg)
    requires Listening(g, 1, false) && g.records[1].handshake.value.step == 1 && g.keys == map[]
    ensures Premature(ToyEnv(), g, NoiseFin(1, Second([7])))
  {
    ReadSecond(g.records[1].handshake.value, [7]);
  }

  /**
   A responder that gets two final messages, the second behind the close that the first one caused,
   ends up with a session that rests on two messages: the base holds, the whole invariant does not.
   */
  lemma TwoFins()
    ensures ToyEnv().Lawful() && ToyEnv().Answers() && !Prompt(ToyEnv(), TWO_FINS)
    ensures Premature(ToyEnv(), Run(ToyEnv(), ONE_FIN), NoiseFin(1, Second([7])))
    ensures var g := Run(ToyEnv(), TWO_FINS);
            Live(g, 1) && g.records[1].session.Some? && g.records[1].session.value.step == 2 &&
            Base(ToyEnv(), g) && !Inv(ToyEnv(), g)
  {
    ToyEnvMeets();
    AfterOneFin();
    ToyPremature(Run(ToyEnv(), ONE_FIN));
    BehindTheClose(ToyEnv(), ONE_FIN, NoiseFin(1, Second([7])));
  }

  lemma BehindTheClose(env: Env, es: seq<Event>, e: Event)
    requires env.Lawful() && Premature(env, Run(env, es), e) && Late(Run(env, es), e)
    ensures !Prompt(env, es + [e])
    ensures var g := Run(env, es + [e]);
            Live(g, e.id) && g.records[e.id].session.Some? && g.records[e.id].session.value.step == 2 &&
            Base(env, g) && !Inv(env, g)
  {
    RunSnoc(env, es, e);
    PrematureEstablishes(env, Run(env, es), e);
    Always(env, es + [e]);
    assert (es + [e])[..|es|] == es;
    assert !Whole(Run(env, es + [e]).records[e.id]);
  }

  // ---- A stray record takes a live session's key with it ----

  /** What an accepted and answered second message of a new peer does. */
  lemma Answered(env: Env, g: Reg, e: Event, c: Claim)
    requires e.NoiseResp? && Listening(g, e.id, true) && c.user !in g.keys
    requires var (h, got) := env.read(g.records[e.id].handshake.value, e.msg);
             got.Some? && Accepts(env, h, got.value) == Some(c) && env.write(h, e.eph).1.Some?
    ensures var g' := Step(env, g, e);
            Live(g', e.id) && g'.records[e.id].claim == c && g' == g.(records := g'.records, keys := g.keys[c.user := e.id]) &&
            g'.records == g.records[e.id := g'.records[e.id]]
  {
    var (h, got) := env.read(g.records[e.id].handshake.value, e.msg);
    FinalizeIs(g, e.id, Authenticated(env, g.records[e.id].(handshake := Some(h)), c).(handshake := Some(env.write(h, e.eph).0)));
  }

  /** What an accepted second message that cannot be answered does. */
  lemma Stranded(env: Env, g: Reg, e: Event, c: Claim)
    requires e.NoiseResp? && Listening(g, e.id, true)
    requires var (h, got) := env.read(g.records[e.id].handshake.value, e.msg);
             got.Some? && Accepts(env, h, got.value) == Some(c) && env.write(h, e.eph).1.None?
    ensures var g' := Step(env, g, e);
            g' == Put(g, e.id, g'.records[e.id]) && g'.records[e.id].claim == c &&
            g'.records[e.id].authenticated && g'.records[e.id].established == g.records[e.id].established
  {
  }

  /** What a second message with a refused payload does. */
  lemma Rejected(env: Env, g: Reg, e: Event)
    requires e.NoiseResp? && Listening(g, e.id, true)
    requires var (h, got) := env.read(g.records[e.id].handshake.value, e.msg);
             got.Some? && Accepts(env, h, got.value).None?
    ensures Step(env, g, e)
            == Put(g, e.id, g.records[e.id].(handshake := Some(env.read(g.records[e.id].handshake.value, e.msg).0), closed := true))
  {
  }

  const CALL: Event := Connect(true, [])
  const LIVE: seq<Event> := [CALL] + [NoiseResp(1, Second([7]), [])]
  const SECOND_CALL: seq<Event> := LIVE + [CALL]
  const REFUSED: seq<Event> := SECOND_CALL + [NoiseResp(2, Second([]), [])]
  const STRAY: seq<Event> := REFUSED + [NoiseResp(2, Third([7]), [])]

  lemma AfterCall(g: Reg)
    ensures var g' := Step(ToyEnv(), g, CALL);
            var id := g.nextId;
            g'.keys == g.keys && g'.transports == g.transports && g'.nextId == id + 1 && Listening(g', id, true) &&
            g'.records == g.records[id := g'.records[id]] && g'.records[id].handshake.value.step == 1 &&
            !g'.records[id].established
  {
    ToyEnvMeets();
  }

  lemma ToyAccepts(h: Hs)
    requires h.step == 1 && h.initiator
    ensures var env := ToyEnv();
            var (h', got) := env.read(h, Second([7]));
            got.Some? && Accepts(env, h', got.value) == Some(PEER) && env.write(h', []).1.Some?
  {
    ToyEnvMeets();
    ReadSecond(h, [7]);
  }

  lemma AfterLive()
    ensures var g := Run(ToyEnv(), LIVE);
            Live(g, 1) && g.keys == map[PEER.user := 1] && g.records.Keys == {1} && g.transports == map[] && g.nextId == 2
  {
    var env, e := ToyEnv(), NoiseResp(1, Second([7]), []);
    assert [CALL] == [] + [CALL];
    RunSnoc(env, [], CALL);
    AfterCall(EMPTY);
    RunSnoc(env, [CALL], e);
    var g := Run(env, [CALL]);
    ToyAccepts(g.records[1].handshake.value);
    Answered(env, g, e, PEER);
  }

  lemma AfterRefused()
    ensures var g := Run(ToyEnv(), REFUSED);
            Live(g, 1) && g.keys == map[PEER.user := 1] && g.transports == map[] && Listening(g, 2, true) &&
            g.records[2].closed && !g.records[2].established && g.records[2].handshake.value.step == 2 &&
            g.records[2].handshake.value.sym.cipher.hasKey
  {
    var env, e := ToyEnv(), NoiseResp(2, Second([]), []);
    AfterLive();
    RunSnoc(env, LIVE, CALL);
    AfterCall(Run(env, LIVE));
    RunSnoc(env, SECOND_CALL, e);
    var g := Run(env, SECOND_CALL);
    ReadSecond(g.records[2].handshake.value, []);
    Rejected(env, g, e);
  }

  lemma ToyStrands(h: Hs)
    requires h.step == 2 && h.sym.cipher.hasKey
    ensures var env := ToyEnv();
            var (h', got) := env.read(h, Third([7]));
            got.Some? && Accepts(env, h', got.value) == Some(PEER) && env.write(h', []).1.None?
  {
    ToyEnvMeets();
    ReadThird(h, [7]);
  }

  /**
   A caller whose second connection is refused, and which then gets a third message behind the close,
   holds a stray record; when that disconnects, the key of the first, live session goes.
   */
  lemma StrayTakesKey()
    ensures ToyEnv().Lawful() && ToyEnv().Answers()
    ensures Hazard(Run(ToyEnv(), STRAY), 2)
    ensures var g := Run(ToyEnv(), STRAY + [Disconnect(2)]); Live(g, 1) && g.keys == map[] && !KeysTotal(g)
  {
    var env, e := ToyEnv(), NoiseResp(2, Third([7]), []);
    ToyEnvMeets();
    AfterRefused();
    var g := Run(env, REFUSED);
    RunSnoc(env, REFUSED, e);
    ToyStrands(g.records[2].handshake.value);
    Stranded(env, g, e, PEER);
    var g' := Run(env, STRAY);
    RunSnoc(env, STRAY, Disconnect(2));
    Always(env, STRAY);
    KeyErased(g', 2);
  }
}
