/**
 The connection registry: records, send queues and the two secondary indices, with the events that
 change them (core/cm/lifecycle.cpp, handshake.cpp and disconnect.cpp). Each event is one atomic
 step; connectors are asynchronous, so a closed connection lingers until its disconnect arrives.
 */
module Registry {
  import opened Bytes
  import opened NoiseSpec

  /** An identity claim whose length and signature have been checked. */
  datatype Claim = Claim(user: Bytes, device: Bytes, schemes: seq<string>)

  /** What the registry asks of its surroundings. */
  datatype Env = Env(
    create: bool -> Hs,                                // a handshake state for a new connection
    read: (Hs, Bytes) -> (Hs, Option<Bytes>),          // HandshakeState::read_message
    write: (Hs, Bytes) -> (Hs, Option<Bytes>),         // write_message of this node's payload; randomness given
    verify: Bytes -> Option<Claim>,                    // size and signature of a handshake payload
    convert: Bytes -> Option<Bytes>,                   // Ed25519 key to X25519 key
    negotiate: seq<string> -> string)                  // common scheme
  {
    ghost predicate Lawful() {
      && (forall i :: create(i).step == 0 && create(i).initiator == i && create(i).rs == ZERO_KEY)
      && (forall h: Hs, m :: read(h, m).0.initiator == h.initiator)
      && (forall h: Hs, m :: read(h, m).0.step == h.step + if read(h, m).1.Some? then 1 else 0)
      && (forall h: Hs, m :: h.step == 0 ==> read(h, m).0.rs == h.rs)
      && (forall h: Hs, m :: h.step >= 3 ==> read(h, m).1.None?)
      && (forall h: Hs, e :: write(h, e).0.initiator == h.initiator && write(h, e).0.rs == h.rs)
      && (forall h: Hs, e :: write(h, e).0.step == h.step + if write(h, e).1.Some? then 1 else 0)
      && (forall h: Hs, e :: h.step == 0 ==> write(h, e).1.Some?)
      && (forall h: Hs, e :: h.step >= 3 ==> write(h, e).1.None?)
      // no device key converts to the all-zero key
      && (forall d :: convert(d) != Some(ZERO_KEY))
    }

    /** X25519 refuses a peer key regardless of the secret, so a read second message can be answered. */
    ghost predicate Answers() {
      forall h: Hs, m, e :: h.step == 1 && h.initiator && read(h, m).1.Some? ==> write(read(h, m).0, e).1.Some?
    }
  }

  datatype Path = Path(tid: nat, scheme: string)

  /** session holds the handshake state its keys were split from; claim the verified payload. */
  datatype Record = Record(established: bool, session: Option<Hs>, handshake: Option<Hs>, authenticated: bool,
                           claim: Claim, paths: seq<Path>, closed: bool)

  datatype Reg = Reg(records: map<nat, Record>, transports: map<nat, nat>, keys: map<Bytes, nat>,
                     queues: set<nat>, nextId: nat)

  const EMPTY := Reg(map[], map[], map[], {}, 1)

  const NO_CLAIM := Claim([], [], [])

  // ---- Paths ----

  predicate HasScheme(ps: seq<Path>, scheme: string) { exists i :: 0 <= i < |ps| && ps[i].scheme == scheme }

  ghost predicate Distinct(ps: seq<Path>) {
    forall i, j :: 0 <= i < j < |ps| ==> ps[i].tid != ps[j].tid && ps[i].scheme != ps[j].scheme
  }

  function Without(ps: seq<Path>, tid: nat): seq<Path> {
    if ps == [] then []
    else
      var front := Without(ps[..|ps| - 1], tid);
      if ps[|ps| - 1].tid == tid then front else front + [ps[|ps| - 1]]
  }

  lemma {:induction false} WithoutHolds(ps: seq<Path>, tid: nat)
    ensures forall x :: x in Without(ps, tid) <==> x in ps && x.tid != tid
    decreases |ps|
  {
    if ps != [] {
      var n := |ps| - 1;
      WithoutHolds(ps[..n], tid);
      assert ps == ps[..n] + [ps[n]];
    }
  }

  lemma {:induction false} WithoutDistinct(ps: seq<Path>, tid: nat)
    requires Distinct(ps)
    ensures Distinct(Without(ps, tid))
    decreases |ps|
  {
    if ps != [] {
      var n := |ps| - 1;
      WithoutDistinct(ps[..n], tid);
      WithoutHolds(ps[..n], tid);
      var front := Without(ps[..n], tid);
      forall i | 0 <= i < |front|
        ensures front[i].tid != ps[n].tid && front[i].scheme != ps[n].scheme
      {
        assert front[i] in front;
        var k :| 0 <= k < n && ps[..n][k] == front[i];
        assert ps[k] == front[i];
      }
    }
  }

  lemma {:induction false} WithoutHead(ps: seq<Path>, tid: nat)
    requires ps != [] && ps[0].tid != tid
    ensures Without(ps, tid) != [] && Without(ps, tid)[0] == ps[0]
    decreases |ps|
  {
    if |ps| > 1 {
      WithoutHead(ps[..|ps| - 1], tid);
    }
  }

  lemma WithoutKeeps(ps: seq<Path>, tid: nat)
    ensures forall x :: x in Without(ps, tid) <==> x in ps && x.tid != tid
    ensures Distinct(ps) ==> Distinct(Without(ps, tid))
    ensures ps != [] && ps[0].tid != tid ==> Without(ps, tid) != [] && Without(ps, tid)[0] == ps[0]
  {
    WithoutHolds(ps, tid);
    if Distinct(ps) {
      WithoutDistinct(ps, tid);
    }
    if ps != [] && ps[0].tid != tid {
      WithoutHead(ps, tid);
    }
  }

  /** Transport ids of the paths other than the primary one. */
  function Secondary(ps: seq<Path>, id: nat): set<nat> {
    set i | 0 <= i < |ps| && ps[i].tid != id :: ps[i].tid
  }

  // ---- Events ----

  datatype Event =
    | Connect(outbound: bool, eph: Bytes)
    | AddTransport(key: Bytes, scheme: string)
    | Disconnect(id: nat)
    | Close(id: nat)
    | NoiseInit(id: nat, msg: Bytes, eph: Bytes)
    | NoiseResp(id: nat, msg: Bytes, eph: Bytes)
    | NoiseFin(id: nat, msg: Bytes)

  /** handle_connect, including the first handshake message of an outbound connection. */
  function OnConnect(env: Env, g: Reg, outbound: bool, eph: Bytes): Reg {
    var id := g.nextId;
    var h0 := env.create(outbound);
    var h := if outbound then env.write(h0, eph).0 else h0;
    var rec := Record(false, None, Some(h), false, NO_CLAIM, [Path(id, "tcp")], false);
    g.(records := g.records[id := rec], queues := g.queues + {id}, nextId := id + 1)
  }

  function OnAddTransport(g: Reg, key: Bytes, scheme: string): Reg {
    if key !in g.keys then g
    else
      var peer := g.keys[key];
      if peer !in g.records || !g.records[peer].established || HasScheme(g.records[peer].paths, scheme) then g
      else
        var tid := g.nextId;
        var rec := g.records[peer];
        g.(records := g.records[peer := rec.(paths := rec.paths + [Path(tid, scheme)])],
           transports := g.transports[tid := peer], nextId := tid + 1)
  }

  /** handle_disconnect: a secondary transport loses its path, a primary one its whole record. */
  function OnDisconnect(g: Reg, id: nat): Reg {
    if id in g.transports then
      var peer := g.transports[id];
      var g' := g.(transports := g.transports - {id});
      if peer !in g.records then g'
      else
        var rec := g.records[peer];
        g'.(records := g.records[peer := rec.(paths := Without(rec.paths, id))])
    else if id !in g.records then g
    else
      var rec := g.records[id];
      g.(records := g.records - {id}, queues := g.queues - {id},
         transports := g.transports - Secondary(rec.paths, id),
         keys := if rec.authenticated then g.keys - {rec.claim.user} else g.keys)
  }

  /** close_now: the connector is asked to close; the record stays until the disconnect arrives. */
  function OnClose(g: Reg, id: nat): Reg {
    if id !in g.records then g else g.(records := g.records[id := g.records[id].(closed := true)])
  }

  function Put(g: Reg, id: nat, rec: Record): Reg { g.(records := g.records[id := rec]) }

  /** process_handshake_payload against the handshake state h. */
  function Accepts(env: Env, h: Hs, data: Bytes): Option<Claim> {
    match env.verify(data)
    case None => None
    case Some(c) => if env.convert(c.device) == Some(h.rs) then Some(c) else None
  }

  /** The record once its peer's payload has been accepted: identity and the primary path's scheme. */
  function Authenticated(env: Env, rec: Record, c: Claim): Record {
    var scheme := env.negotiate(c.schemes);
    var name := if scheme == "" then "tcp" else scheme;
    rec.(authenticated := true, claim := c,
         paths := if rec.paths == [] then [] else rec.paths[0 := rec.paths[0].(scheme := name)])
  }

  /** finalize_handshake: a second connection to a known peer is dropped, otherwise the session starts. */
  function OnFinalize(g: Reg, id: nat): Reg
    requires id in g.records && g.records[id].handshake.Some?
  {
    var rec := g.records[id];
    var key := rec.claim.user;
    if key in g.keys && g.keys[key] != id then
      g.(records := g.records - {id}, queues := g.queues - {id})
    else
      Put(g, id, rec.(established := true, session := rec.handshake, handshake := None))
        .(keys := g.keys[key := id])
  }

  /** A handshake frame is read as long as the record has a handshake state, closed or not. */
  predicate Listening(g: Reg, id: nat, initiator: bool) {
    id in g.records && g.records[id].handshake.Some? && g.records[id].handshake.value.initiator == initiator
  }

  function OnNoiseInit(env: Env, g: Reg, id: nat, msg: Bytes, eph: Bytes): Reg {
    if !Listening(g, id, false) then g
    else
      var rec := g.records[id];
      var (h, got) := env.read(rec.handshake.value, msg);
      if got.None? then Put(g, id, rec.(handshake := Some(h), closed := true))
      else
        var (h', sent) := env.write(h, eph);
        Put(g, id, rec.(handshake := Some(h'), closed := rec.closed || sent.None?))
  }

  function OnNoiseResp(env: Env, g: Reg, id: nat, msg: Bytes, eph: Bytes): Reg {
    if !Listening(g, id, true) then g
    else
      var rec := g.records[id];
      var (h, got) := env.read(rec.handshake.value, msg);
      var rec' := rec.(handshake := Some(h));
      if got.None? then Put(g, id, rec'.(closed := true))
      else
        match Accepts(env, h, got.value)
        case None => Put(g, id, rec'.(closed := true))
        case Some(c) =>
          var (h', sent) := env.write(h, eph);
          var rec'' := Authenticated(env, rec', c).(handshake := Some(h'));
          if sent.None? then Put(g, id, rec''.(closed := true))
          else OnFinalize(Put(g, id, rec''), id)
  }

  function OnNoiseFin(env: Env, g: Reg, id: nat, msg: Bytes): Reg {
    if !Listening(g, id, false) then g
    else
      var rec := g.records[id];
      var (h, got) := env.read(rec.handshake.value, msg);
      var rec' := rec.(handshake := Some(h));
      if got.None? then Put(g, id, rec'.(closed := true))
      else
        match Accepts(env, h, got.value)
        case None => Put(g, id, rec'.(closed := true))
        case Some(c) => OnFinalize(Put(g, id, Authenticated(env, rec', c)), id)
  }

  function Step(env: Env, g: Reg, e: Event): Reg {
    match e
    case Connect(outbound, eph) => OnConnect(env, g, outbound, eph)
    case AddTransport(key, scheme) => OnAddTransport(g, key, scheme)
    case Disconnect(id) => OnDisconnect(g, id)
    case Close(id) => OnClose(g, id)
    case NoiseInit(id, msg, eph) => OnNoiseInit(env, g, id, msg, eph)
    case NoiseResp(id, msg, eph) => OnNoiseResp(env, g, id, msg, eph)
    case NoiseFin(id, msg) => OnNoiseFin(env, g, id, msg)
  }

  function RunFrom(env: Env, g: Reg, es: seq<Event>): Reg {
    if es == [] then g else Step(env, RunFrom(env, g, es[..|es| - 1]), es[|es| - 1])
  }

  function Run(env: Env, es: seq<Event>): Reg { RunFrom(env, EMPTY, es) }

  /** A handshake frame that reaches a record after close_now was called for it. */
  predicate Late(g: Reg, e: Event) {
    (e.NoiseInit? || e.NoiseResp? || e.NoiseFin?) && e.id in g.records && g.records[e.id].closed
  }

  /** At no point of the run does a handshake frame reach a record after its close. */
  ghost predicate Prompt(env: Env, es: seq<Event>) {
    es == [] || (Prompt(env, es[..|es| - 1]) && !Late(Run(env, es[..|es| - 1]), es[|es| - 1]))
  }

  /** A core that would drop such frames itself. */
  function GuardedStep(env: Env, g: Reg, e: Event): Reg { if Late(g, e) then g else Step(env, g, e) }

  function GuardedRun(env: Env, es: seq<Event>): Reg {
    if es == [] then EMPTY else GuardedStep(env, GuardedRun(env, es[..|es| - 1]), es[|es| - 1])
  }
}

/** What holds of every reachable registry. */
module RegistryInvariant {
  import opened Bytes
  import opened NoiseSpec
  import opened Registry

  // ---- One record at a time ----

  /**
   A session exists exactly when the handshake is over. It rests on a verified payload whose device
   key is the remote static key of the handshake, and on at least two messages.
   */
  ghost predicate Life(env: Env, r: Record) {
    && (r.established <==> r.session.Some?)
    && (r.established <==> r.handshake.None?)
    && (r.established ==>
          && r.authenticated && 2 <= r.session.value.step <= 3
          && env.convert(r.claim.device) == Some(r.session.value.rs)
          && exists data :: env.verify(data) == Some(r.claim))
    && (!r.established && r.authenticated ==> r.closed)
  }

  /** A session that rests on all three messages. */
  predicate Whole(r: Record) { r.established && r.session.Some? ==> r.session.value.step == 3 }

  /** Where a handshake can stand between two frames, and where an open one can. */
  ghost predicate Phase(r: Record) {
    r.handshake.Some? ==>
      var h := r.handshake.value;
      && (h.initiator ==> h.step >= 1) && (!h.initiator && h.step == 0 ==> h.rs == ZERO_KEY)
      && (!r.closed ==> if h.initiator then h.step == 1 else h.step == 0 || h.step == 2)
  }

  ghost predicate Paths(id: nat, r: Record) {
    && r.paths != [] && r.paths[0].tid == id && Distinct(r.paths)
    && (!r.established ==> |r.paths| == 1)
  }

  ghost predicate RecordOk(env: Env, id: nat, r: Record) {
    Life(env, r) && Phase(r) && Paths(id, r)
  }

  // ---- The indices ----

  /** Ids are handed out once, to a record or to a secondary transport, never to both. */
  ghost predicate Ids(g: Reg) {
    && g.nextId >= 1
    && (forall id :: id in g.records ==> 1 <= id < g.nextId)
    && (forall t :: t in g.transports ==> 1 <= t < g.nextId && t !in g.records)
    && g.queues == g.records.Keys
  }

  ghost predicate HasTid(ps: seq<Path>, tid: nat) { exists i :: 0 <= i < |ps| && ps[i].tid == tid }

  /** Every secondary transport leads to a live record that owns it. */
  ghost predicate Owned(g: Reg) {
    forall t :: t in g.transports ==> g.transports[t] in g.records && HasTid(g.records[g.transports[t]].paths, t)
  }

  /** Every secondary path of a live record leads back to the record. */
  ghost predicate Indexed(g: Reg) {
    forall id, i :: id in g.records && 0 < i < |g.records[id].paths| ==>
      g.records[id].paths[i].tid in g.transports && g.transports[g.records[id].paths[i].tid] == id
  }

  /** transports[t] = p exactly when p is live and owns t as a secondary path. */
  ghost predicate TransportsOk(g: Reg) { Owned(g) && Indexed(g) }

  ghost predicate KeyHeld(g: Reg, k: Bytes) {
    k in g.keys && g.keys[k] in g.records && g.records[g.keys[k]].established && g.records[g.keys[k]].claim.user == k
  }

  ghost predicate KeyOf(g: Reg, id: nat) {
    id in g.records && g.records[id].claim.user in g.keys && g.keys[g.records[id].claim.user] == id
  }

  /** Every key leads to an established record of that peer. */
  ghost predicate KeysHeld(g: Reg) { forall k :: k in g.keys ==> KeyHeld(g, k) }

  /** Every established record is the one its peer's key leads to. */
  ghost predicate KeysTotal(g: Reg) { forall id :: id in g.records && g.records[id].established ==> KeyOf(g, id) }

  ghost predicate RecordsOk(env: Env, g: Reg) { forall id :: id in g.records ==> RecordOk(env, id, g.records[id]) }

  ghost predicate AllWhole(g: Reg) { forall id :: id in g.records ==> Whole(g.records[id]) }

  /** What every run keeps, whatever the order of its events. */
  ghost predicate Base(env: Env, g: Reg) { Ids(g) && TransportsOk(g) && KeysHeld(g) && RecordsOk(env, g) }

  /** The whole invariant: the key index is a bijection and every session rests on three messages. */
  ghost predicate Inv(env: Env, g: Reg) { Base(env, g) && KeysTotal(g) && AllWhole(g) }

  /** A step that keeps the base, and a total key index. */
  ghost predicate Keeps(env: Env, g: Reg, g': Reg) { Base(env, g') && (KeysTotal(g) ==> KeysTotal(g')) }

  /** No record is authenticated without being established. */
  ghost predicate NoStray(g: Reg) {
    forall id :: id in g.records && g.records[id].authenticated ==> g.records[id].established
  }

  // ---- Preservation, event by event ----

  /** A transport's owner is established, so it is never a handshaking record. */
  lemma OwnerEstablished(env: Env, g: Reg, t: nat)
    requires Base(env, g) && t in g.transports
    ensures g.transports[t] in g.records && g.records[g.transports[t]].established
  {
    var p := g.transports[t];
    assert RecordOk(env, p, g.records[p]);
    var i :| 0 <= i < |g.records[p].paths| && g.records[p].paths[i].tid == t;
  }

  /** A handshaking record owns no secondary transport. */
  lemma OwnsNone(env: Env, g: Reg, id: nat)
    requires Base(env, g) && id in g.records && !g.records[id].established
    ensures forall t :: t in g.transports ==> g.transports[t] != id
  {
    forall t | t in g.transports
      ensures g.transports[t] != id
    {
      OwnerEstablished(env, g, t);
    }
  }

  lemma PutTransports(g: Reg, id: nat, r: Record)
    requires TransportsOk(g) && id in g.records && |r.paths| == 1
    requires forall t :: t in g.transports ==> g.transports[t] != id
    ensures TransportsOk(Put(g, id, r))
  {
  }

  ghost predicate KeysKept(g: Reg, g': Reg) { KeysHeld(g') && (KeysTotal(g) ==> KeysTotal(g')) }

  predicate Live(g: Reg, id: nat) { id in g.records && g.records[id].established }

  /** The same keys over the same sessions. */
  lemma SameSessions(g: Reg, g': Reg)
    requires KeysHeld(g) && g'.keys == g.keys
    requires forall id :: Live(g, id) <==> Live(g', id)
    requires forall id :: Live(g, id) && Live(g', id) ==> g.records[id].claim == g'.records[id].claim
    ensures KeysKept(g, g')
  {
    forall k | k in g'.keys
      ensures KeyHeld(g', k)
    {
      assert KeyHeld(g, k) && Live(g, g.keys[k]);
    }
    if KeysTotal(g) {
      forall id | Live(g', id)
        ensures KeyOf(g', id)
      {
        assert Live(g, id) && KeyOf(g, id);
      }
    }
  }

  /** Replacing a handshaking record by another keeps everything that is about the others. */
  lemma PutKeeps(env: Env, g: Reg, id: nat, r: Record)
    requires Base(env, g) && id in g.records && !g.records[id].established
    requires RecordOk(env, id, r) && !r.established
    ensures Keeps(env, g, Put(g, id, r))
  {
    OwnsNone(env, g, id);
    PutTransports(g, id, r);
    SameSessions(g, Put(g, id, r));
    assert Put(g, id, r).records.Keys == g.records.Keys;
  }

  /** Adding a handshaking record under a new id. */
  lemma InsertKeeps(env: Env, g: Reg, r: Record)
    requires Base(env, g) && RecordOk(env, g.nextId, r) && !r.established
    ensures Keeps(env, g, g.(records := g.records[g.nextId := r], queues := g.queues + {g.nextId}, nextId := g.nextId + 1))
  {
    var g' := g.(records := g.records[g.nextId := r], queues := g.queues + {g.nextId}, nextId := g.nextId + 1);
    assert g'.records.Keys == g.records.Keys + {g.nextId};
  }

  function Removed(g: Reg, id: nat): Reg { g.(records := g.records - {id}, queues := g.queues - {id}) }

  lemma RemovedTransports(g: Reg, id: nat)
    requires TransportsOk(g) && forall t :: t in g.transports ==> g.transports[t] != id
    ensures TransportsOk(Removed(g, id))
  {
  }

  /** Removing a handshaking record. */
  lemma RemoveKeeps(env: Env, g: Reg, id: nat)
    requires Base(env, g) && id in g.records && !g.records[id].established
    ensures Keeps(env, g, Removed(g, id))
  {
    OwnsNone(env, g, id);
    SameSessions(g, Removed(g, id));
    RemovedTransports(g, id);
    assert Removed(g, id).records.Keys == g.records.Keys - {id};
  }

  lemma NewRecordOk(env: Env, id: nat, outbound: bool, eph: Bytes)
    requires env.Lawful()
    ensures var h0 := env.create(outbound);
            var h := if outbound then env.write(h0, eph).0 else h0;
            RecordOk(env, id, Record(false, None, Some(h), false, NO_CLAIM, [Path(id, "tcp")], false))
  {
  }

  lemma ConnectKeeps(env: Env, g: Reg, outbound: bool, eph: Bytes)
    requires env.Lawful() && Base(env, g)
    ensures Keeps(env, g, OnConnect(env, g, outbound, eph))
  {
    NewRecordOk(env, g.nextId, outbound, eph);
    ConnectInserts(env, g, outbound, eph);
  }

  lemma ConnectInserts(env: Env, g: Reg, outbound: bool, eph: Bytes)
    requires Base(env, g)
    requires var h0 := env.create(outbound);
             var h := if outbound then env.write(h0, eph).0 else h0;
             RecordOk(env, g.nextId, Record(false, None, Some(h), false, NO_CLAIM, [Path(g.nextId, "tcp")], false))
    ensures Keeps(env, g, OnConnect(env, g, outbound, eph))
  {
    var h0 := env.create(outbound);
    var h := if outbound then env.write(h0, eph).0 else h0;
    InsertKeeps(env, g, Record(false, None, Some(h), false, NO_CLAIM, [Path(g.nextId, "tcp")], false));
  }

  /** An established record gets or loses a path. */
  ghost predicate PathsChanged(g: Reg, g': Reg, peer: nat) {
    && peer in g.records && peer in g'.records
    && g'.records == g.records[peer := g.records[peer].(paths := g'.records[peer].paths)]
    && g'.keys == g.keys && g'.queues == g.queues
  }

  lemma PathsChangedRecords(env: Env, g: Reg, g': Reg, peer: nat)
    requires PathsChanged(g, g', peer) && g.records[peer].established && Paths(peer, g'.records[peer])
    requires RecordsOk(env, g)
    ensures RecordsOk(env, g')
  {
    assert RecordOk(env, peer, g.records[peer]);
    assert Life(env, g'.records[peer]) && Phase(g'.records[peer]);
  }

  lemma PathsChangedKeeps(env: Env, g: Reg, g': Reg, peer: nat)
    requires Base(env, g) && PathsChanged(g, g', peer) && g.records[peer].established
    requires Paths(peer, g'.records[peer]) && g'.nextId >= g.nextId
    requires forall t :: t in g'.transports ==> 1 <= t < g'.nextId && t !in g.records
    requires TransportsOk(g')
    ensures Keeps(env, g, g')
  {
    assert g'.records.Keys == g.records.Keys;
    SameSessions(g, g');
    PathsChangedRecords(env, g, g', peer);
  }

  /** The registry with one more secondary transport for peer. */
  function Added(g: Reg, peer: nat, scheme: string): Reg
    requires peer in g.records
  {
    var rec := g.records[peer];
    g.(records := g.records[peer := rec.(paths := rec.paths + [Path(g.nextId, scheme)])],
       transports := g.transports[g.nextId := peer], nextId := g.nextId + 1)
  }

  lemma AddedOwned(g: Reg, peer: nat, scheme: string)
    requires Owned(g) && peer in g.records
    ensures Owned(Added(g, peer, scheme))
  {
    var g' := Added(g, peer, scheme);
    var ps, more := g.records[peer].paths, g'.records[peer].paths;
    forall t | t in g'.transports
      ensures g'.transports[t] in g'.records && HasTid(g'.records[g'.transports[t]].paths, t)
    {
      if t == g.nextId {
        assert more[|ps|].tid == t;
      } else if g.transports[t] == peer {
        assert HasTid(ps, t);
        var i :| 0 <= i < |ps| && ps[i].tid == t;
        assert more[i].tid == t;
      }
    }
  }

  lemma AddedIndexed(g: Reg, peer: nat, scheme: string)
    requires Indexed(g) && peer in g.records && g.nextId !in g.transports
    ensures Indexed(Added(g, peer, scheme))
  {
    var g' := Added(g, peer, scheme);
    forall id, i | id in g'.records && 0 < i < |g'.records[id].paths|
      ensures g'.records[id].paths[i].tid in g'.transports && g'.transports[g'.records[id].paths[i].tid] == id
    {
      if id != peer || i < |g.records[peer].paths| {
        assert g'.records[id].paths[i] == g.records[id].paths[i];
      }
    }
  }

  lemma AddTransportKeeps(env: Env, g: Reg, key: Bytes, scheme: string)
    requires Base(env, g)
    ensures Keeps(env, g, OnAddTransport(g, key, scheme))
  {
    var g' := OnAddTransport(g, key, scheme);
    if g' != g {
      var peer := g.keys[key];
      assert RecordOk(env, peer, g.records[peer]);
      AddedOwned(g, peer, scheme);
      AddedIndexed(g, peer, scheme);
      PathIdsOld(env, g, peer);
      PathsChangedKeeps(env, g, g', peer);
    }
  }

  /** Every path id of a record has been handed out before. */
  lemma PathIdsOld(env: Env, g: Reg, id: nat)
    requires Base(env, g) && id in g.records
    ensures forall i :: 0 <= i < |g.records[id].paths| ==> g.records[id].paths[i].tid < g.nextId
  {
    assert RecordOk(env, id, g.records[id]);
  }

  lemma RemovedOwned(g: Reg, id: nat)
    requires Owned(g) && id in g.transports
    ensures Owned(OnDisconnect(g, id))
  {
    var peer := g.transports[id];
    var ps := g.records[peer].paths;
    WithoutKeeps(ps, id);
    var g' := OnDisconnect(g, id);
    forall t | t in g'.transports
      ensures g'.transports[t] in g'.records && HasTid(g'.records[g'.transports[t]].paths, t)
    {
      if g.transports[t] == peer {
        assert HasTid(ps, t);
        var i :| 0 <= i < |ps| && ps[i].tid == t;
        assert ps[i] in Without(ps, id);
      }
    }
  }

  /** A path left over at a secondary place was at a secondary place before. */
  lemma LeftSecondary(ps: seq<Path>, id: nat, i: nat) returns (k: nat)
    requires ps != [] && ps[0].tid != id && Distinct(ps) && 0 < i < |Without(ps, id)|
    ensures 0 < k < |ps| && ps[k] == Without(ps, id)[i] && ps[k].tid != id
  {
    WithoutKeeps(ps, id);
    var x := Without(ps, id)[i];
    assert x in ps && x.tid != id;
    k :| 0 <= k < |ps| && ps[k] == x;
    assert Without(ps, id)[0] == ps[0];
  }

  lemma RemovedIndexed(g: Reg, id: nat)
    requires Indexed(g) && id in g.transports && g.transports[id] in g.records
    requires var ps := g.records[g.transports[id]].paths; ps != [] && ps[0].tid != id && Distinct(ps)
    ensures Indexed(OnDisconnect(g, id))
  {
    var peer := g.transports[id];
    var ps := g.records[peer].paths;
    var g' := OnDisconnect(g, id);
    forall r, i | r in g'.records && 0 < i < |g'.records[r].paths|
      ensures g'.records[r].paths[i].tid in g'.transports && g'.transports[g'.records[r].paths[i].tid] == r
    {
      if r == peer {
        var k := LeftSecondary(ps, id, i);
      }
    }
  }

  lemma SecondaryDisconnectKeeps(env: Env, g: Reg, id: nat)
    requires Base(env, g) && id in g.transports
    ensures Keeps(env, g, OnDisconnect(g, id))
  {
    OwnerEstablished(env, g, id);
    var peer := g.transports[id];
    assert RecordOk(env, peer, g.records[peer]);
    WithoutKeeps(g.records[peer].paths, id);
    RemovedOwned(g, id);
    RemovedIndexed(g, id);
    PathsChangedKeeps(env, g, OnDisconnect(g, id), peer);
  }

  /** A record that was authenticated but never established shares its peer with a live session. */
  predicate Hazard(g: Reg, id: nat) {
    && id in g.records && id !in g.transports
    && g.records[id].authenticated && !g.records[id].established && g.records[id].claim.user in g.keys
  }

  /** Taking down a primary connection keeps the indices right, except perhaps the key index. */
  lemma PrimaryDisconnectKeepsRest(env: Env, g: Reg, id: nat)
    requires Base(env, g) && id in g.records && id !in g.transports
    ensures var g' := OnDisconnect(g, id);
            Ids(g') && TransportsOk(g') && RecordsOk(env, g')
  {
    assert OnDisconnect(g, id).records.Keys == g.records.Keys - {id};
    forall t | t in Secondary(g.records[id].paths, id)
      ensures t in g.transports && g.transports[t] == id
    {
      OwnSecondary(env, g, id, t);
    }
    forall t | t in g.transports && g.transports[t] == id
      ensures t in Secondary(g.records[id].paths, id)
    {
      var i :| 0 <= i < |g.records[id].paths| && g.records[id].paths[i].tid == t;
    }
    PrimaryTransports(g, id);
  }

  /** The transports that go are exactly those of the record that goes. */
  lemma PrimaryTransports(g: Reg, id: nat)
    requires TransportsOk(g) && id in g.records && id !in g.transports
    requires forall t :: t in Secondary(g.records[id].paths, id) ==> t in g.transports && g.transports[t] == id
    requires forall t :: t in g.transports && g.transports[t] == id ==> t in Secondary(g.records[id].paths, id)
    ensures TransportsOk(OnDisconnect(g, id))
  {
    var g' := OnDisconnect(g, id);
    forall t | t in g'.transports
      ensures g'.transports[t] in g'.records && HasTid(g'.records[g'.transports[t]].paths, t)
    {
      assert g.transports[t] != id;
    }
  }

  lemma OwnSecondary(env: Env, g: Reg, id: nat, t: nat)
    requires Base(env, g) && id in g.records && t in Secondary(g.records[id].paths, id)
    ensures t in g.transports && g.transports[t] == id
  {
    var ps := g.records[id].paths;
    assert RecordOk(env, id, g.records[id]);
    var i :| 0 <= i < |ps| && ps[i].tid != id && ps[i].tid == t;
    assert i != 0;
  }

  /**
   The key index survives a primary disconnect exactly when the record is not such a stray: the code
   erases the peer's key whenever the record was authenticated, even if another session owns it.
   */
  lemma KeyIndexSurvivesIff(env: Env, g: Reg, id: nat)
    requires Base(env, g) && KeysTotal(g) && id in g.records && id !in g.transports
    ensures KeysTotal(OnDisconnect(g, id)) <==> !Hazard(g, id)
  {
    assert RecordOk(env, id, g.records[id]);
    if Hazard(g, id) {
      KeyErased(g, id);
    } else {
      KeysSurvive(g, id);
    }
  }

  lemma KeyErased(g: Reg, id: nat)
    requires KeysHeld(g) && Hazard(g, id)
    ensures !KeysTotal(OnDisconnect(g, id))
  {
    var g' := OnDisconnect(g, id);
    var user := g.records[id].claim.user;
    assert KeyHeld(g, user);
    assert !KeyOf(g', g.keys[user]);
  }

  lemma KeysSurvive(g: Reg, id: nat)
    requires KeysTotal(g) && id in g.records && id !in g.transports && !Hazard(g, id)
    ensures KeysTotal(OnDisconnect(g, id))
  {
    var g' := OnDisconnect(g, id);
    if g.records[id].established {
      assert KeyOf(g, id);
    }
    forall r | r in g'.records && g'.records[r].established
      ensures KeyOf(g', r)
    {
      assert KeyOf(g, r);
    }
  }

  /** No key outlives the record it leads to. */
  lemma KeysFollow(env: Env, g: Reg, id: nat)
    requires Base(env, g) && id in g.records && id !in g.transports
    ensures KeysHeld(OnDisconnect(g, id))
  {
    assert RecordOk(env, id, g.records[id]);
    var g' := OnDisconnect(g, id);
    forall k | k in g'.keys
      ensures KeyHeld(g', k)
    {
      assert KeyHeld(g, k);
    }
  }

  lemma DisconnectKeeps(env: Env, g: Reg, id: nat)
    requires Base(env, g)
    ensures var g' := OnDisconnect(g, id); Base(env, g') && (KeysTotal(g) ==> (KeysTotal(g') <==> !Hazard(g, id)))
  {
    if id in g.transports {
      SecondaryDisconnectKeeps(env, g, id);
    } else if id in g.records {
      PrimaryDisconnectKeepsRest(env, g, id);
      KeysFollow(env, g, id);
      if KeysTotal(g) {
        KeyIndexSurvivesIff(env, g, id);
      }
    }
  }

  /** Closing an established record changes nothing the invariant speaks of but the flag. */
  lemma CloseKeeps(env: Env, g: Reg, id: nat)
    requires Base(env, g)
    ensures Keeps(env, g, OnClose(g, id))
  {
    if id in g.records {
      SameSessions(g, OnClose(g, id));
      CloseRest(env, g, id);
    }
  }

  lemma CloseRest(env: Env, g: Reg, id: nat)
    requires Ids(g) && TransportsOk(g) && RecordsOk(env, g) && id in g.records
    ensures var g' := OnClose(g, id); Ids(g') && TransportsOk(g') && RecordsOk(env, g')
  {
    assert RecordOk(env, id, g.records[id]);
    PutRecords(env, g, id, g.records[id].(closed := true));
    CloseTransports(g, id);
  }

  lemma CloseTransports(g: Reg, id: nat)
    requires TransportsOk(g) && id in g.records
    ensures TransportsOk(OnClose(g, id))
  {
  }

  /** A record about to be finalized: verified, with two or three messages behind it, on its one path. */
  ghost predicate Ready(env: Env, id: nat, r: Record) {
    && !r.established && r.session.None? && r.handshake.Some? && 2 <= r.handshake.value.step <= 3
    && r.authenticated && |r.paths| == 1 && r.paths[0].tid == id
    && env.convert(r.claim.device) == Some(r.handshake.value.rs)
    && exists data :: env.verify(data) == Some(r.claim)
  }

  lemma EstablishKeys(g: Reg, id: nat, r: Record)
    requires KeysHeld(g) && id in g.records && !g.records[id].established
    requires r.established && r.claim.user !in g.keys
    ensures KeysKept(g, Put(g, id, r).(keys := g.keys[r.claim.user := id]))
  {
    var g' := Put(g, id, r).(keys := g.keys[r.claim.user := id]);
    forall k | k in g'.keys
      ensures KeyHeld(g', k)
    {
      if k != r.claim.user {
        assert KeyHeld(g, k);
      }
    }
    if KeysTotal(g) {
      forall x | x in g'.records && g'.records[x].established
        ensures KeyOf(g', x)
      {
        assert x != id ==> KeyOf(g, x);
      }
    }
  }

  /** The record of a handshake that has just succeeded takes its peer's key. */
  lemma EstablishKeeps(env: Env, g: Reg, id: nat, r: Record)
    requires Base(env, g) && id in g.records && !g.records[id].established
    requires RecordOk(env, id, r) && r.established && |r.paths| == 1 && r.claim.user !in g.keys
    ensures Keeps(env, g, Put(g, id, r).(keys := g.keys[r.claim.user := id]))
  {
    EstablishKeys(g, id, r);
    OwnsNone(env, g, id);
    PutTransports(g, id, r);
    PutRecords(env, g, id, r);
    SameButKeys(env, Put(g, id, r), g.keys[r.claim.user := id]);
  }

  lemma PutRecords(env: Env, g: Reg, id: nat, r: Record)
    requires Ids(g) && RecordsOk(env, g) && id in g.records && RecordOk(env, id, r)
    ensures Ids(Put(g, id, r)) && RecordsOk(env, Put(g, id, r))
  {
    assert Put(g, id, r).records.Keys == g.records.Keys;
  }

  /** Nothing but the key index speaks of the keys. */
  lemma SameButKeys(env: Env, g: Reg, keys: map<Bytes, nat>)
    requires Ids(g) && TransportsOk(g) && RecordsOk(env, g)
    ensures var g' := g.(keys := keys); Ids(g') && TransportsOk(g') && RecordsOk(env, g')
  {
  }

  /** What finalizing amounts to, seen from the registry before the record was updated. */
  lemma FinalizeIs(g: Reg, id: nat, r: Record)
    requires id in g.records && r.handshake.Some?
    ensures var key := r.claim.user;
            var done := r.(established := true, session := r.handshake, handshake := None);
            OnFinalize(Put(g, id, r), id)
            == if key in g.keys && g.keys[key] != id then Removed(g, id)
               else Put(g, id, done).(keys := g.keys[key := id])
  {
    var done := r.(established := true, session := r.handshake, handshake := None);
    assert Put(g, id, r).records - {id} == g.records - {id};
    assert Put(g, id, r).records[id := done] == g.records[id := done];
  }

  lemma FinalizeKeeps(env: Env, g: Reg, id: nat, r: Record)
    requires Base(env, g) && id in g.records && !g.records[id].established && Ready(env, id, r)
    ensures Keeps(env, g, OnFinalize(Put(g, id, r), id))
  {
    FinalizeIs(g, id, r);
    if r.claim.user in g.keys {
      assert KeyHeld(g, r.claim.user);
      RemoveKeeps(env, g, id);
    } else {
      ReadyEstablished(env, id, r);
      EstablishKeeps(env, g, id, r.(established := true, session := r.handshake, handshake := None));
    }
  }

  lemma ReadyEstablished(env: Env, id: nat, r: Record)
    requires Ready(env, id, r)
    ensures RecordOk(env, id, r.(established := true, session := r.handshake, handshake := None))
  {
  }

  lemma NoiseInitKeeps(env: Env, g: Reg, id: nat, msg: Bytes, eph: Bytes)
    requires env.Lawful() && Base(env, g)
    ensures Keeps(env, g, OnNoiseInit(env, g, id, msg, eph))
  {
    if Listening(g, id, false) {
      var rec := g.records[id];
      assert RecordOk(env, id, rec);
      PutKeeps(env, g, id, OnNoiseInit(env, g, id, msg, eph).records[id]);
    }
  }

  /** After a read, an accepted payload makes the record ready or leaves it closed. */
  lemma NoiseRespKeeps(env: Env, g: Reg, id: nat, msg: Bytes, eph: Bytes)
    requires env.Lawful() && Base(env, g)
    ensures Keeps(env, g, OnNoiseResp(env, g, id, msg, eph))
  {
    if Listening(g, id, true) {
      var rec := g.records[id];
      assert RecordOk(env, id, rec);
      var (h, got) := env.read(rec.handshake.value, msg);
      var rec' := rec.(handshake := Some(h));
      if got.Some? && Accepts(env, h, got.value).Some? {
        var c := Accepts(env, h, got.value).value;
        var (h', sent) := env.write(h, eph);
        var rec'' := Authenticated(env, rec', c).(handshake := Some(h'));
        assert env.verify(got.value) == Some(c);
        if sent.Some? {
          assert Ready(env, id, rec'');
          FinalizeKeeps(env, g, id, rec'');
        } else {
          PutKeeps(env, g, id, rec''.(closed := true));
        }
      } else {
        PutKeeps(env, g, id, rec'.(closed := true));
      }
    }
  }

  /** A final message before any first one is read as a first one, and then fails: rs is still zero. */
  lemma NoiseFinKeeps(env: Env, g: Reg, id: nat, msg: Bytes)
    requires env.Lawful() && Base(env, g)
    ensures Keeps(env, g, OnNoiseFin(env, g, id, msg))
  {
    if Listening(g, id, false) {
      var rec := g.records[id];
      assert RecordOk(env, id, rec);
      var (h, got) := env.read(rec.handshake.value, msg);
      var rec' := rec.(handshake := Some(h));
      if got.Some? && Accepts(env, h, got.value).Some? {
        var c := Accepts(env, h, got.value).value;
        assert env.verify(got.value) == Some(c);
        assert h.rs != ZERO_KEY && rec.handshake.value.step != 0;
        assert Ready(env, id, Authenticated(env, rec', c));
        FinalizeKeeps(env, g, id, Authenticated(env, rec', c));
      } else {
        PutKeeps(env, g, id, rec'.(closed := true));
      }
    }
  }

  /** Every event keeps the base, and all but the disconnect of a stray record keep the key index total. */
  lemma StepKeeps(env: Env, g: Reg, e: Event)
    requires env.Lawful() && Base(env, g)
    ensures Base(env, Step(env, g, e))
    ensures KeysTotal(g) ==> (KeysTotal(Step(env, g, e)) <==> !(e.Disconnect? && Hazard(g, e.id)))
  {
    match e {
      case Connect(outbound, eph) => ConnectKeeps(env, g, outbound, eph);
      case AddTransport(key, scheme) => AddTransportKeeps(env, g, key, scheme);
      case Disconnect(id) => DisconnectKeeps(env, g, id);
      case Close(id) => CloseKeeps(env, g, id);
      case NoiseInit(id, msg, eph) => NoiseInitKeeps(env, g, id, msg, eph);
      case NoiseResp(id, msg, eph) => NoiseRespKeeps(env, g, id, msg, eph);
      case NoiseFin(id, msg) => NoiseFinKeeps(env, g, id, msg);
    }
  }

  /** Every run, frames behind a close included, keeps the base. */
  lemma {:induction false} Always(env: Env, es: seq<Event>)
    requires env.Lawful()
    ensures Base(env, Run(env, es))
    decreases |es|
  {
    if es != [] {
      Always(env, es[..|es| - 1]);
      StepKeeps(env, Run(env, es[..|es| - 1]), es[|es| - 1]);
    }
  }

  // ---- Sessions that rest on three messages ----

  /** A final message read at step 1, as a second one, whose payload is accepted and whose peer is new. */
  predicate Premature(env: Env, g: Reg, e: Event) {
    e.NoiseFin? && Listening(g, e.id, false) && g.records[e.id].handshake.value.step == 1 &&
    var (h, got) := env.read(g.records[e.id].handshake.value, e.msg);
    got.Some? && Accepts(env, h, got.value).Some? && Accepts(env, h, got.value).value.user !in g.keys
  }

  lemma FinalizeWhole(env: Env, g: Reg, id: nat, r: Record)
    requires KeysHeld(g) && AllWhole(g) && id in g.records && !g.records[id].established && Ready(env, id, r)
    ensures AllWhole(OnFinalize(Put(g, id, r), id)) <==> r.handshake.value.step == 3 || r.claim.user in g.keys
  {
    FinalizeIs(g, id, r);
    var g' := OnFinalize(Put(g, id, r), id);
    if r.claim.user in g.keys {
      assert KeyHeld(g, r.claim.user);
    } else {
      assert Whole(g'.records[id]) <==> r.handshake.value.step == 3;
    }
  }

  lemma FinWholeIff(env: Env, g: Reg, e: Event)
    requires env.Lawful() && Base(env, g) && AllWhole(g) && e.NoiseFin?
    ensures AllWhole(Step(env, g, e)) <==> !Premature(env, g, e)
  {
    if Listening(g, e.id, false) {
      var rec := g.records[e.id];
      assert RecordOk(env, e.id, rec);
      var (h, got) := env.read(rec.handshake.value, e.msg);
      if got.Some? && Accepts(env, h, got.value).Some? {
        var c := Accepts(env, h, got.value).value;
        assert env.verify(got.value) == Some(c);
        assert h.rs != ZERO_KEY && rec.handshake.value.step != 0;
        FinalizeWhole(env, g, e.id, Authenticated(env, rec.(handshake := Some(h)), c));
      }
    }
  }

  /** What such a message leaves behind. */
  lemma PrematureEstablishes(env: Env, g: Reg, e: Event)
    requires env.Lawful() && Premature(env, g, e)
    ensures var g' := Step(env, g, e);
            Live(g', e.id) && g'.records[e.id].session.Some? && g'.records[e.id].session.value.step == 2
  {
    var rec := g.records[e.id];
    var (h, got) := env.read(rec.handshake.value, e.msg);
    FinalizeIs(g, e.id, Authenticated(env, rec.(handshake := Some(h)), Accepts(env, h, got.value).value));
  }

  /** An answered second message leaves the record ready, with three messages behind it. */
  lemma RespReady(env: Env, g: Reg, e: Event)
    requires env.Lawful() && Base(env, g) && e.NoiseResp? && Listening(g, e.id, true)
    requires var (h, got) := env.read(g.records[e.id].handshake.value, e.msg);
             got.Some? && Accepts(env, h, got.value).Some? && env.write(h, e.eph).1.Some?
    ensures var rec := g.records[e.id];
            var (h, got) := env.read(rec.handshake.value, e.msg);
            var r := Authenticated(env, rec.(handshake := Some(h)), Accepts(env, h, got.value).value)
                     .(handshake := Some(env.write(h, e.eph).0));
            !rec.established && Ready(env, e.id, r) && r.handshake.value.step == 3
  {
    var rec := g.records[e.id];
    assert RecordOk(env, e.id, rec);
    var (h, got) := env.read(rec.handshake.value, e.msg);
    assert env.verify(got.value) == Some(Accepts(env, h, got.value).value);
  }

  lemma RespWhole(env: Env, g: Reg, e: Event)
    requires env.Lawful() && Base(env, g) && AllWhole(g) && e.NoiseResp?
    ensures AllWhole(Step(env, g, e))
  {
    if Listening(g, e.id, true) {
      var rec := g.records[e.id];
      var (h, got) := env.read(rec.handshake.value, e.msg);
      if got.Some? && Accepts(env, h, got.value).Some? && env.write(h, e.eph).1.Some? {
        RespReady(env, g, e);
        FinalizeWhole(env, g, e.id, Authenticated(env, rec.(handshake := Some(h)), Accepts(env, h, got.value).value)
                                    .(handshake := Some(env.write(h, e.eph).0)));
      } else {
        RespUnfinished(env, g, e);
      }
    }
  }

  lemma RespUnfinished(env: Env, g: Reg, e: Event)
    requires Base(env, g) && AllWhole(g) && e.NoiseResp? && Listening(g, e.id, true)
    requires var (h, got) := env.read(g.records[e.id].handshake.value, e.msg);
             !(got.Some? && Accepts(env, h, got.value).Some? && env.write(h, e.eph).1.Some?)
    ensures AllWhole(Step(env, g, e))
  {
    var rec := g.records[e.id];
    assert RecordOk(env, e.id, rec);
    var (h, got) := env.read(rec.handshake.value, e.msg);
    var g' := Step(env, g, e);
    if got.Some? && Accepts(env, h, got.value).Some? {
      var r := Authenticated(env, rec.(handshake := Some(h)), Accepts(env, h, got.value).value)
               .(handshake := Some(env.write(h, e.eph).0), closed := true);
      assert g' == Put(g, e.id, r);
    } else {
      assert g' == Put(g, e.id, rec.(handshake := Some(h), closed := true));
    }
  }

  lemma OtherWhole(env: Env, g: Reg, e: Event)
    requires AllWhole(g) && !e.NoiseResp? && !e.NoiseFin?
    ensures AllWhole(Step(env, g, e))
  {
  }

  /** What can break the invariant: a session on two messages, or the disconnect of a stray record. */
  predicate Breaks(env: Env, g: Reg, e: Event) { Premature(env, g, e) || (e.Disconnect? && Hazard(g, e.id)) }

  /** One event keeps the whole invariant exactly when it is not one of the two. */
  lemma StepSoundIff(env: Env, g: Reg, e: Event)
    requires env.Lawful() && Inv(env, g)
    ensures Inv(env, Step(env, g, e)) <==> !Breaks(env, g, e)
  {
    StepKeeps(env, g, e);
    if e.NoiseFin? {
      FinWholeIff(env, g, e);
    } else if e.NoiseResp? {
      RespWhole(env, g, e);
    } else {
      OtherWhole(env, g, e);
    }
  }

  /** The whole invariant holds at every point of the run. */
  ghost predicate SoundThroughout(env: Env, es: seq<Event>) {
    (es == [] || SoundThroughout(env, es[..|es| - 1])) && Inv(env, Run(env, es))
  }

  ghost predicate NothingBreaks(env: Env, es: seq<Event>) {
    es == [] || (NothingBreaks(env, es[..|es| - 1]) && !Breaks(env, Run(env, es[..|es| - 1]), es[|es| - 1]))
  }

  /**
   Over any run at all, frames behind a close included: the whole invariant holds from beginning to
   end if and only if no final message is accepted at step 1 and no stray record disconnects.
   */
  lemma {:induction false} SoundIff(env: Env, es: seq<Event>)
    requires env.Lawful()
    ensures SoundThroughout(env, es) <==> NothingBreaks(env, es)
    decreases |es|
  {
    if es != [] {
      var front := es[..|es| - 1];
      SoundIff(env, front);
      if SoundThroughout(env, front) {
        StepSoundIff(env, Run(env, front), es[|es| - 1]);
      }
    }
  }

  lemma FinalizeNoStray(g: Reg, id: nat, r: Record)
    requires NoStray(g) && id in g.records && r.handshake.Some?
    ensures NoStray(OnFinalize(Put(g, id, r), id))
  {
  }

  /** A second message that is accepted and cannot be answered. */
  predicate Unanswered(env: Env, g: Reg, e: Event) {
    e.NoiseResp? && Listening(g, e.id, true) &&
    var (h, got) := env.read(g.records[e.id].handshake.value, e.msg);
    got.Some? && Accepts(env, h, got.value).Some? && env.write(h, e.eph).1.None?
  }

  lemma RespStrayIff(env: Env, g: Reg, e: Event)
    requires Base(env, g) && NoStray(g) && e.NoiseResp?
    ensures NoStray(Step(env, g, e)) <==> !Unanswered(env, g, e)
  {
    if Listening(g, e.id, true) {
      var rec := g.records[e.id];
      assert RecordOk(env, e.id, rec);
      var (h, got) := env.read(rec.handshake.value, e.msg);
      if got.Some? && Accepts(env, h, got.value).Some? {
        var rec' := Authenticated(env, rec.(handshake := Some(h)), Accepts(env, h, got.value).value)
                    .(handshake := Some(env.write(h, e.eph).0));
        if env.write(h, e.eph).1.Some? {
          FinalizeNoStray(g, e.id, rec');
        } else {
          assert Step(env, g, e).records[e.id] == rec'.(closed := true);
        }
      }
    }
  }

  lemma FinNoStray(env: Env, g: Reg, e: Event)
    requires NoStray(g) && e.NoiseFin?
    ensures NoStray(Step(env, g, e))
  {
    if Listening(g, e.id, false) {
      var rec := g.records[e.id];
      var (h, got) := env.read(rec.handshake.value, e.msg);
      if got.Some? && Accepts(env, h, got.value).Some? {
        FinalizeNoStray(g, e.id, Authenticated(env, rec.(handshake := Some(h)), Accepts(env, h, got.value).value));
      }
    }
  }

  lemma OtherNoStray(env: Env, g: Reg, e: Event)
    requires NoStray(g) && !e.NoiseResp? && !e.NoiseFin?
    ensures NoStray(Step(env, g, e))
  {
  }

  /** Stray records come about in exactly one way: an accepted second message that cannot be answered. */
  lemma StepStrayIff(env: Env, g: Reg, e: Event)
    requires Base(env, g) && NoStray(g)
    ensures NoStray(Step(env, g, e)) <==> !Unanswered(env, g, e)
  {
    if e.NoiseResp? {
      RespStrayIff(env, g, e);
    } else if e.NoiseFin? {
      FinNoStray(env, g, e);
    } else {
      OtherNoStray(env, g, e);
    }
  }

  // ---- Runs in which no handshake frame comes behind a close ----

  /** On an open record nothing is read at the wrong step, and what is read can be answered. */
  lemma PromptStep(env: Env, g: Reg, e: Event)
    requires env.Lawful() && env.Answers() && Base(env, g) && NoStray(g) && !Late(g, e)
    ensures !Breaks(env, g, e) && !Unanswered(env, g, e)
  {
    if (e.NoiseFin? || e.NoiseResp?) && e.id in g.records {
      assert RecordOk(env, e.id, g.records[e.id]);
    }
  }

  /** Every registry reached without such frames satisfies the whole invariant, from beginning to end. */
  lemma {:induction false} Reachable(env: Env, es: seq<Event>)
    requires env.Lawful() && env.Answers() && Prompt(env, es)
    ensures Inv(env, Run(env, es)) && NoStray(Run(env, es)) && NothingBreaks(env, es)
    decreases |es|
  {
    if es != [] {
      var front, e := es[..|es| - 1], es[|es| - 1];
      Reachable(env, front);
      var g := Run(env, front);
      PromptStep(env, g, e);
      StepSoundIff(env, g, e);
      StepStrayIff(env, g, e);
    }
  }

  // ---- What a core that drops such frames would do ----

  /** At every point of the run the two cores have the same registry. */
  ghost predicate GuardAgrees(env: Env, es: seq<Event>) {
    (es == [] || GuardAgrees(env, es[..|es| - 1])) && GuardedRun(env, es) == Run(env, es)
  }

  /** Which side a handshake frame is meant for. */
  function Role(e: Event): bool { e.NoiseResp? }

  /** The frame finds no handshake state in its role, or one that refuses it and stays as it was. */
  predicate Unmoved(env: Env, g: Reg, e: Event)
    requires e.NoiseInit? || e.NoiseResp? || e.NoiseFin?
  {
    !Listening(g, e.id, Role(e)) ||
    var h := g.records[e.id].handshake.value;
    env.read(h, e.msg) == (h, None)
  }

  /** A frame that is read moves the step, the record or the session; so a late one is idle only if refused. */
  lemma LateIdleIff(env: Env, g: Reg, e: Event)
    requires env.Lawful() && Late(g, e)
    ensures Step(env, g, e) == g <==> Unmoved(env, g, e)
  {
    if Listening(g, e.id, Role(e)) {
      var rec := g.records[e.id];
      var h := rec.handshake.value;
      var (h', got) := env.read(h, e.msg);
      if got.None? {
        RefusedLate(env, g, e);
      } else {
        ReadMoves(env, g, e);
      }
    }
  }

  lemma RefusedLate(env: Env, g: Reg, e: Event)
    requires Late(g, e) && Listening(g, e.id, Role(e)) && env.read(g.records[e.id].handshake.value, e.msg).1.None?
    ensures Step(env, g, e) == g <==> env.read(g.records[e.id].handshake.value, e.msg).0 == g.records[e.id].handshake.value
  {
    var rec := g.records[e.id];
    var h' := env.read(rec.handshake.value, e.msg).0;
    var g' := Step(env, g, e);
    assert g' == Put(g, e.id, rec.(handshake := Some(h'), closed := true));
    if h' == rec.handshake.value {
      assert g'.records == g.records;
    } else {
      assert g'.records[e.id] != g.records[e.id];
    }
  }

  lemma ReadMoves(env: Env, g: Reg, e: Event)
    requires env.Lawful() && Late(g, e) && Listening(g, e.id, Role(e))
    requires env.read(g.records[e.id].handshake.value, e.msg).1.Some?
    ensures Step(env, g, e) != g
  {
    var rec := g.records[e.id];
    var (h, got) := env.read(rec.handshake.value, e.msg);
    var g' := Step(env, g, e);
    assert h.step == rec.handshake.value.step + 1;
    if e.NoiseInit? || Accepts(env, h, got.value).None? {
      assert g'.records[e.id] != rec;
    } else {
      var r := Authenticated(env, rec.(handshake := Some(h)), Accepts(env, h, got.value).value);
      if e.NoiseFin? {
        FinalizeMoves(g, e.id, r);
      } else if env.write(h, e.eph).1.Some? {
        FinalizeMoves(g, e.id, r.(handshake := Some(env.write(h, e.eph).0)));
      } else {
        assert g'.records[e.id] != rec;
      }
    }
  }

  lemma FinalizeMoves(g: Reg, id: nat, r: Record)
    requires id in g.records && r.handshake.Some? && g.records[id].handshake.Some?
    ensures OnFinalize(Put(g, id, r), id) != g
  {
    FinalizeIs(g, id, r);
    var g' := OnFinalize(Put(g, id, r), id);
    if id in g'.records {
      assert g'.records[id].handshake.None?;
    }
  }

  /** Every late frame of the run is refused without a trace, or finds nothing to refuse it. */
  ghost predicate LateIsIdle(env: Env, es: seq<Event>) {
    es == [] ||
    (LateIsIdle(env, es[..|es| - 1]) &&
     var g := Run(env, es[..|es| - 1]);
     Late(g, es[|es| - 1]) ==> Unmoved(env, g, es[|es| - 1]))
  }

  /** With and without the guard a run is the same throughout exactly when every late frame is idle. */
  lemma {:induction false} GuardAgreesIff(env: Env, es: seq<Event>)
    requires env.Lawful()
    ensures GuardAgrees(env, es) <==> LateIsIdle(env, es)
    decreases |es|
  {
    if es != [] {
      var front, e := es[..|es| - 1], es[|es| - 1];
      GuardAgreesIff(env, front);
      if Late(Run(env, front), e) {
        LateIdleIff(env, Run(env, front), e);
      }
    }
  }

  /** The events a guarded core acts on. */
  function Heeded(env: Env, es: seq<Event>): seq<Event> {
    if es == [] then []
    else
      var front := es[..|es| - 1];
      if Late(GuardedRun(env, front), es[|es| - 1]) then Heeded(env, front)
      else Heeded(env, front) + [es[|es| - 1]]
  }

  lemma {:induction false} HeededRun(env: Env, es: seq<Event>)
    ensures Run(env, Heeded(env, es)) == GuardedRun(env, es) && Prompt(env, Heeded(env, es))
    decreases |es|
  {
    if es != [] {
      var front, e := es[..|es| - 1], es[|es| - 1];
      HeededRun(env, front);
      if !Late(GuardedRun(env, front), e) {
        PromptSnoc(env, Heeded(env, front), e);
      }
    }
  }

  lemma PromptSnoc(env: Env, es: seq<Event>, e: Event)
    requires Prompt(env, es) && !Late(Run(env, es), e)
    ensures Prompt(env, es + [e]) && Run(env, es + [e]) == Step(env, Run(env, es), e)
  {
    assert (es + [e])[..|es|] == es;
  }

  /** A guarded core satisfies the whole invariant in every run, whatever its connectors deliver. */
  lemma GuardedReachable(env: Env, es: seq<Event>)
    requires env.Lawful() && env.Answers()
    ensures Inv(env, GuardedRun(env, es)) && NoStray(GuardedRun(env, es))
  {
    HeededRun(env, es);
    Reachable(env, Heeded(env, es));
  }

  // ---- What it means for the users of the registry ----

  /** At most one live session per peer. */
  lemma OneSessionPerPeer(env: Env, es: seq<Event>, a: nat, b: nat)
    requires env.Lawful() && NothingBreaks(env, es)
    requires Live(Run(env, es), a) && Live(Run(env, es), b)
    requires Run(env, es).records[a].claim.user == Run(env, es).records[b].claim.user
    ensures a == b
  {
    SoundIff(env, es);
    var g := Run(env, es);
    assert KeyOf(g, a) && KeyOf(g, b);
  }

  /** Once established, a connection is deaf to handshake frames, in every run. */
  lemma EstablishedIgnoresNoise(env: Env, es: seq<Event>, e: Event)
    requires env.Lawful() && (e.NoiseInit? || e.NoiseResp? || e.NoiseFin?)
    requires e.id in Run(env, es).records && Run(env, es).records[e.id].established
    ensures Step(env, Run(env, es), e) == Run(env, es)
  {
    Always(env, es);
    assert RecordOk(env, e.id, Run(env, es).records[e.id]);
  }

  /** Whatever an event adds carries an id that no earlier state has handed out. */
  lemma StepIds(env: Env, g: Reg, e: Event)
    ensures var g' := Step(env, g, e);
            && g'.nextId >= g.nextId
            && (forall id :: id in g'.records && id !in g.records ==> id == g.nextId)
            && (forall t :: t in g'.transports && t !in g.transports ==> t == g.nextId)
  {
  }

  /** Ids are never reused: an id that was handed out and is gone names nothing ever after. */
  lemma {:induction false} GoneForGood(env: Env, g: Reg, es: seq<Event>, id: nat)
    requires id < g.nextId && id !in g.records && id !in g.transports
    ensures var g' := RunFrom(env, g, es);
            id !in g'.records && id !in g'.transports && id < g'.nextId
    decreases |es|
  {
    if es != [] {
      GoneForGood(env, g, es[..|es| - 1], id);
      StepIds(env, RunFrom(env, g, es[..|es| - 1]), es[|es| - 1]);
    }
  }
}

/** The handshake engine as the registry's environment. */
module RegistryOverNoise {
  import opened Bytes
  import opened NoiseSpec
  import opened NoiseLockstep
  import opened Registry

  /** One node: its static keys, its handshake payload, and the checks it makes on its peers'. */
  function NoiseEnv(suite: Suite, pk: Bytes, sk: Bytes, payload: Bytes, verify: Bytes -> Option<Claim>,
                    convert: Bytes -> Option<Bytes>, negotiate: seq<string> -> string): Env {
    Env(initiator => Init(suite, initiator, pk, sk),
        (h, m) => ReadMessage(suite, h, m),
        (h: Hs, eph) => WriteMessage(suite, h, if h.step == 0 then [] else payload, eph),
        verify, convert, negotiate)
  }

  /** A secret decides what is agreed, never whether: true of X25519, whose scalars are clamped. */
  ghost predicate Uniform(suite: Suite) {
    forall a, b, pk :: suite.dh(a, pk).None? <==> suite.dh(b, pk).None?
  }

  lemma ReadFacts(suite: Suite, h: Hs, m: Bytes)
    ensures var (h', got) := ReadMessage(suite, h, m);
            && h'.initiator == h.initiator && h'.step == h.step + (if got.Some? then 1 else 0)
            && (h.step == 0 ==> h'.rs == h.rs) && (h.step >= 3 ==> got.None?)
  {
    if h.step < |XX| {
      ReadTokensKeepLocal(suite, h, XX[h.step], m);
      if h.step == 0 {
        assert XX[0] == [E] && [E][1..] == [];
        var (h1, rest) := ReadToken(suite, h, E, m);
        assert rest.Some? ==> ReadTokens(suite, h1, [], rest.value) == (h1, rest);
      }
    }
  }

  lemma WriteFacts(suite: Suite, h: Hs, payload: Bytes, eph: Bytes)
    ensures var (h', sent) := WriteMessage(suite, h, payload, eph);
            && h'.initiator == h.initiator && h'.rs == h.rs
            && h'.step == h.step + (if sent.Some? then 1 else 0)
            && (h.step == 0 ==> sent.Some?) && (h.step >= 3 ==> sent.None?)
  {
    if h.step < |XX| {
      WriteTokensKeepRemote(suite, h, XX[h.step], eph);
      if h.step == 0 {
        assert XX[0] == [E] && [E][1..] == [];
        var h1 := WriteToken(suite, h, E, eph).0;
        assert WriteTokens(suite, h1, [], eph) == (h1, Some([]));
      }
    }
  }

  lemma NoiseEnvLawful(suite: Suite, pk: Bytes, sk: Bytes, payload: Bytes, verify: Bytes -> Option<Claim>,
                       convert: Bytes -> Option<Bytes>, negotiate: seq<string> -> string)
    requires forall d :: convert(d) != Some(ZERO_KEY)
    ensures NoiseEnv(suite, pk, sk, payload, verify, convert, negotiate).Lawful()
  {
    var env := NoiseEnv(suite, pk, sk, payload, verify, convert, negotiate);
    forall h: Hs, m: Bytes
      ensures var r := env.read(h, m);
              && r.0.initiator == h.initiator && r.0.step == h.step + (if r.1.Some? then 1 else 0)
              && (h.step == 0 ==> r.0.rs == h.rs) && (h.step >= 3 ==> r.1.None?)
    {
      ReadFacts(suite, h, m);
    }
    forall h: Hs, eph: Bytes
      ensures var w := env.write(h, eph);
              && w.0.initiator == h.initiator && w.0.rs == h.rs
              && w.0.step == h.step + (if w.1.Some? then 1 else 0)
              && (h.step == 0 ==> w.1.Some?) && (h.step >= 3 ==> w.1.None?)
    {
      WriteFacts(suite, h, if h.step == 0 then [] else payload, eph);
    }
  }

  /** A second message that could be read has agreed on a secret with the peer's ephemeral key. */
  lemma ReadSecondAgreed(suite: Suite, h: Hs, m: Bytes)
    requires h.step == 1 && ReadMessage(suite, h, m).1.Some?
    ensures var h' := ReadMessage(suite, h, m).0;
            suite.dh(h'.eSk, h'.re).Some? && h'.step == 2 && h'.initiator == h.initiator
  {
    ReadFacts(suite, h, m);
    var ts := XX[1];
    assert ts[1..] == [EE, S, ES] && [EE, S, ES][1..] == [S, ES] && [S, ES][1..] == [ES] && [ES][1..] == [];
    var (h1, r1) := ReadToken(suite, h, E, m);
    var (h2, r2) := ReadToken(suite, h1, EE, r1.value);
    assert suite.dh(h1.eSk, h1.re).Some?;
    var (h3, r3) := ReadToken(suite, h2, S, r2.value);
    var (h4, r4) := ReadToken(suite, h3, ES, r3.value);
    assert ReadTokens(suite, h3, [ES], r3.value) == (h4, r4) by {
      assert r4.Some? ==> ReadTokens(suite, h4, [], r4.value) == (h4, r4);
    }
  }

  /** With X25519 the answer to a second message is never refused, so the registry law holds. */
  lemma NoiseEnvAnswers(suite: Suite, pk: Bytes, sk: Bytes, payload: Bytes, verify: Bytes -> Option<Claim>,
                        convert: Bytes -> Option<Bytes>, negotiate: seq<string> -> string)
    requires Uniform(suite)
    ensures NoiseEnv(suite, pk, sk, payload, verify, convert, negotiate).Answers()
  {
    var env := NoiseEnv(suite, pk, sk, payload, verify, convert, negotiate);
    forall h: Hs, m: Bytes, eph: Bytes | h.step == 1 && h.initiator && env.read(h, m).1.Some?
      ensures env.write(env.read(h, m).0, eph).1.Some?
    {
      ReadSecondAgreed(suite, h, m);
      ThirdRefusedIff(suite, ReadMessage(suite, h, m).0, payload, eph);
    }
  }

  /** Opening takes off exactly the tag. */
  ghost predicate Sized(suite: Suite) {
    forall k, n, ad, text :: suite.open(k, n, ad, text).Some? ==> |suite.open(k, n, ad, text).value| == |text| - MACLEN
  }

  /** What of a message is not payload, at each step: keys and tags. */
  function Overhead(step: nat): nat {
    if step == 0 then DHLEN else if step == 1 then 2 * DHLEN + 2 * MACLEN else DHLEN + 2 * MACLEN
  }

  lemma OpenedSize(suite: Suite, s: Sym, text: Bytes)
    requires Sized(suite) && DecryptAndHash(suite, s, text).1.Some?
    ensures |DecryptAndHash(suite, s, text).1.value| == |text| - if s.cipher.hasKey then MACLEN else 0
  {
  }

  lemma FirstSize(suite: Suite, h: Hs, m: Bytes)
    requires Sized(suite) && h.step == 0 && !h.sym.cipher.hasKey && ReadMessage(suite, h, m).1.Some?
    ensures |ReadMessage(suite, h, m).1.value| == |m| - Overhead(0)
  {
    assert XX[0] == [E] && [E][1..] == [];
    var (h1, rest) := ReadToken(suite, h, E, m);
    assert ReadTokens(suite, h1, [], rest.value) == (h1, rest);
    OpenedSize(suite, h1.sym, rest.value);
  }

  lemma SecondSize(suite: Suite, h: Hs, m: Bytes)
    requires Sized(suite) && h.step == 1 && ReadMessage(suite, h, m).1.Some?
    ensures |ReadMessage(suite, h, m).1.value| == |m| - Overhead(1)
  {
    var ts := XX[1];
    assert ts[1..] == [EE, S, ES] && [EE, S, ES][1..] == [S, ES] && [S, ES][1..] == [ES] && [ES][1..] == [];
    var (h1, r1) := ReadToken(suite, h, E, m);
    var (h2, r2) := ReadToken(suite, h1, EE, r1.value);
    var (h3, r3) := ReadToken(suite, h2, S, r2.value);
    var (h4, r4) := ReadToken(suite, h3, ES, r3.value);
    assert ReadTokens(suite, h4, [], r4.value) == (h4, r4);
    assert ReadTokens(suite, h, ts, m) == (h4, r4);
    assert h4.sym.cipher.hasKey && |r4.value| == |m| - 80;
    OpenedSize(suite, h4.sym, r4.value);
  }

  lemma ThirdSize(suite: Suite, h: Hs, m: Bytes)
    requires Sized(suite) && h.step == 2 && h.sym.cipher.hasKey && ReadMessage(suite, h, m).1.Some?
    ensures |ReadMessage(suite, h, m).1.value| == |m| - Overhead(2)
  {
    var ts := XX[2];
    assert ts[1..] == [SE] && [SE][1..] == [];
    var (h1, r1) := ReadToken(suite, h, S, m);
    var (h2, r2) := ReadToken(suite, h1, SE, r1.value);
    assert ReadTokens(suite, h2, [], r2.value) == (h2, r2);
    assert ReadTokens(suite, h, ts, m) == (h2, r2);
    assert h2.sym.cipher.hasKey && |r2.value| == |m| - 48;
    OpenedSize(suite, h2.sym, r2.value);
  }

  /**
   handle_noise_init reads every message, whatever the step, into a one-byte buffer: the payload stays
   inside exactly when the frame is at most one byte longer than the keys and tags of that step.
   */
  lemma InitPayloadFits(suite: Suite, h: Hs, m: Bytes)
    requires Sized(suite) && ReadMessage(suite, h, m).1.Some?
    requires h.step == 0 ==> !h.sym.cipher.hasKey
    requires h.step >= 2 ==> h.sym.cipher.hasKey
    ensures |ReadMessage(suite, h, m).1.value| <= 1 <==> |m| <= Overhead(h.step) + 1
  {
    if h.step == 0 {
      FirstSize(suite, h, m);
    } else if h.step == 1 {
      SecondSize(suite, h, m);
    } else if h.step == 2 {
      ThirdSize(suite, h, m);
    }
  }
}
