/** The registry as the connection manager keeps it: maps updated in place, one handler per event. */
module ConnectionManager {
  import opened Bytes
  import opened NoiseSpec
  import opened Registry
  import opened RegistryInvariant

  /** ConnectionRecord::find_path. */
  method FindPath(ps: seq<Path>, scheme: string) returns (found: bool)
    ensures found <==> HasScheme(ps, scheme)
  {
    for i := 0 to |ps|
      invariant forall j :: 0 <= j < i ==> ps[j].scheme != scheme
    {
      if ps[i].scheme == scheme {
        return true;
      }
    }
    return false;
  }

  /** std::erase_if over the paths of a record. */
  method ErasePath(ps: seq<Path>, tid: nat) returns (kept: seq<Path>)
    ensures kept == Without(ps, tid)
  {
    kept := [];
    for i := 0 to |ps|
      invariant kept == Without(ps[..i], tid)
    {
      assert ps[..i + 1][..i] == ps[..i];
      if ps[i].tid != tid {
        kept := kept + [ps[i]];
      }
    }
    assert ps[..|ps|] == ps;
  }

  /** process_handshake_payload: on success the record carries the peer's identity. */
  method ProcessPayload(env: Env, rec: Record, data: Bytes) returns (ok: bool, out: Record)
    requires rec.handshake.Some?
    ensures ok <==> Accepts(env, rec.handshake.value, data).Some?
    ensures ok ==> out == Authenticated(env, rec, Accepts(env, rec.handshake.value, data).value)
    ensures !ok ==> out == rec
  {
    out := rec;
    var claim := env.verify(data);
    if claim.None? {
      return false, out;
    }
    var expected := env.convert(claim.value.device);
    if expected.None? || expected.value != rec.handshake.value.rs {
      return false, out;
    }
    out := rec.(authenticated := true, claim := claim.value);
    if out.paths != [] {
      var scheme := env.negotiate(claim.value.schemes);
      out := out.(paths := out.paths[0 := out.paths[0].(scheme := if scheme == "" then "tcp" else scheme)]);
    }
    return true, out;
  }

  class Manager {
    const env: Env
    var records: map<nat, Record>
    var transportIndex: map<nat, nat>
    var pkIndex: map<Bytes, nat>
    var sendQueues: set<nat>
    var nextId: nat

    ghost function View(): Reg
      reads this
    {
      Reg(records, transportIndex, pkIndex, sendQueues, nextId)
    }

    /** What every run keeps: each handler below finds it and leaves it. */
    ghost predicate Valid()
      reads this
    {
      env.Lawful() && Base(env, View())
    }

    constructor (env: Env)
      requires env.Lawful()
      ensures Valid() && this.env == env && View() == EMPTY
    {
      this.env := env;
      records, transportIndex, pkIndex, sendQueues, nextId := map[], map[], map[], {}, 1;
    }

    method HandleConnect(outbound: bool, eph: Bytes) returns (id: nat)
      requires Valid()
      modifies this
      ensures Valid() && View() == OnConnect(env, old(View()), outbound, eph) && id == old(nextId)
    {
      ConnectKeeps(env, View(), outbound, eph);
      id := AddRecord(outbound, eph);
    }

    method AddRecord(outbound: bool, eph: Bytes) returns (id: nat)
      modifies this
      ensures View() == OnConnect(env, old(View()), outbound, eph) && id == old(nextId)
    {
      id := nextId;
      nextId := nextId + 1;
      var h := env.create(outbound);
      var rec := Record(false, None, Some(h), false, NO_CLAIM, [Path(id, "tcp")], false);
      sendQueues := sendQueues + {id};
      if outbound {
        rec := rec.(handshake := Some(env.write(h, eph).0));
      }
      records := records[id := rec];
    }

    /** The new transport id, or 0 (CONN_ID_INVALID) when the path is refused. */
    method HandleAddTransport(key: Bytes, scheme: string) returns (id: nat)
      requires Valid()
      modifies this
      ensures Valid() && View() == OnAddTransport(old(View()), key, scheme)
      ensures id == (if nextId == old(nextId) then 0 else old(nextId))
    {
      AddTransportKeeps(env, View(), key, scheme);
      id := AddPath(key, scheme);
    }

    method AddPath(key: Bytes, scheme: string) returns (id: nat)
      modifies this
      ensures View() == OnAddTransport(old(View()), key, scheme)
      ensures id == (if nextId == old(nextId) then 0 else old(nextId))
    {
      if key !in pkIndex {
        return 0;
      }
      var peer := pkIndex[key];
      if peer !in records || !records[peer].established {
        return 0;
      }
      var have := FindPath(records[peer].paths, scheme);
      if have {
        return 0;
      }
      id := nextId;
      nextId := nextId + 1;
      var rec := records[peer];
      records := records[peer := rec.(paths := rec.paths + [Path(id, scheme)])];
      transportIndex := transportIndex[id := peer];
    }

    method HandleDisconnect(id: nat)
      requires Valid()
      modifies this
      ensures Valid() && View() == OnDisconnect(old(View()), id)
    {
      DisconnectKeeps(env, View(), id);
      TearDown(id);
    }

    method TearDown(id: nat)
      modifies this
      ensures View() == OnDisconnect(old(View()), id)
    {
      if id in transportIndex {
        var peer := transportIndex[id];
        transportIndex := transportIndex - {id};
        if peer in records {
          var rec := records[peer];
          var kept := ErasePath(rec.paths, id);
          records := records[peer := rec.(paths := kept)];
        }
        return;
      }
      if id !in records {
        return;
      }
      var rec := records[id];
      EraseSecondary(rec.paths, id);
      records := records - {id};
      sendQueues := sendQueues - {id};
      if rec.authenticated {
        pkIndex := pkIndex - {rec.claim.user};
      }
    }

    /** Index entries of all paths but the primary one. */
    method EraseSecondary(ps: seq<Path>, id: nat)
      modifies this`transportIndex
      ensures transportIndex == old(transportIndex) - Secondary(ps, id)
    {
      for i := 0 to |ps|
        invariant transportIndex == old(transportIndex) - Secondary(ps[..i], id)
      {
        SecondaryStep(ps, i, id);
        if ps[i].tid != id {
          transportIndex := transportIndex - {ps[i].tid};
        }
      }
      assert ps[..|ps|] == ps;
    }

    method CloseNow(id: nat)
      requires Valid()
      modifies this
      ensures Valid() && View() == OnClose(old(View()), id)
    {
      CloseKeeps(env, View(), id);
      if id in records {
        records := records[id := records[id].(closed := true)];
      }
    }

    method Hears(id: nat, initiator: bool) returns (here: bool)
      ensures here <==> Listening(View(), id, initiator)
    {
      if id !in records || records[id].handshake.None? {
        return false;
      }
      return records[id].handshake.value.initiator == initiator;
    }

    method HandleNoiseInit(id: nat, msg: Bytes, eph: Bytes)
      requires Valid()
      modifies this
      ensures Valid() && View() == OnNoiseInit(env, old(View()), id, msg, eph)
    {
      NoiseInitKeeps(env, View(), id, msg, eph);
      ReadInit(id, msg, eph);
    }

    method ReadInit(id: nat, msg: Bytes, eph: Bytes)
      modifies this
      ensures View() == OnNoiseInit(env, old(View()), id, msg, eph)
    {
      var here := Hears(id, false);
      if !here {
        return;
      }
      var rec := records[id];
      var (h, got) := env.read(rec.handshake.value, msg);
      if got.None? {
        records := records[id := rec.(handshake := Some(h), closed := true)];
        return;
      }
      var (h', sent) := env.write(h, eph);
      records := records[id := rec.(handshake := Some(h'), closed := rec.closed || sent.None?)];
    }

    method HandleNoiseResp(id: nat, msg: Bytes, eph: Bytes)
      requires Valid()
      modifies this
      ensures Valid() && View() == OnNoiseResp(env, old(View()), id, msg, eph)
    {
      NoiseRespKeeps(env, View(), id, msg, eph);
      ReadResp(id, msg, eph);
    }

    method ReadResp(id: nat, msg: Bytes, eph: Bytes)
      modifies this
      ensures View() == OnNoiseResp(env, old(View()), id, msg, eph)
    {
      var here := Hears(id, true);
      if !here {
        return;
      }
      var rec := records[id];
      var (h, got) := env.read(rec.handshake.value, msg);
      rec := rec.(handshake := Some(h));
      if got.None? {
        records := records[id := rec.(closed := true)];
        return;
      }
      var ok;
      ok, rec := ProcessPayload(env, rec, got.value);
      if !ok {
        records := records[id := rec.(closed := true)];
        return;
      }
      var (h', sent) := env.write(h, eph);
      rec := rec.(handshake := Some(h'));
      if sent.None? {
        records := records[id := rec.(closed := true)];
        return;
      }
      records := records[id := rec];
      FinalizeHandshake(id);
    }

    method HandleNoiseFin(id: nat, msg: Bytes)
      requires Valid()
      modifies this
      ensures Valid() && View() == OnNoiseFin(env, old(View()), id, msg)
    {
      NoiseFinKeeps(env, View(), id, msg);
      ReadFin(id, msg);
    }

    method ReadFin(id: nat, msg: Bytes)
      modifies this
      ensures View() == OnNoiseFin(env, old(View()), id, msg)
    {
      var here := Hears(id, false);
      if !here {
        return;
      }
      var rec := records[id];
      var (h, got) := env.read(rec.handshake.value, msg);
      rec := rec.(handshake := Some(h));
      if got.None? {
        records := records[id := rec.(closed := true)];
        return;
      }
      var ok;
      ok, rec := ProcessPayload(env, rec, got.value);
      if !ok {
        records := records[id := rec.(closed := true)];
        return;
      }
      records := records[id := rec];
      FinalizeHandshake(id);
    }

    method FinalizeHandshake(id: nat)
      requires id in records && records[id].handshake.Some?
      modifies this
      ensures View() == OnFinalize(old(View()), id)
    {
      var rec := records[id];
      var key := rec.claim.user;
      if key in pkIndex && pkIndex[key] != id {
        records := records - {id};
        sendQueues := sendQueues - {id};
        return;
      }
      records := records[id := rec.(established := true, session := rec.handshake, handshake := None)];
      pkIndex := pkIndex[key := id];
    }

    method Handle(e: Event)
      requires Valid()
      modifies this
      ensures Valid() && View() == Step(env, old(View()), e)
    {
      match e {
        case Connect(outbound, eph) => var _ := HandleConnect(outbound, eph);
        case AddTransport(key, scheme) => var _ := HandleAddTransport(key, scheme);
        case Disconnect(id) => HandleDisconnect(id);
        case Close(id) => CloseNow(id);
        case NoiseInit(id, msg, eph) => HandleNoiseInit(id, msg, eph);
        case NoiseResp(id, msg, eph) => HandleNoiseResp(id, msg, eph);
        case NoiseFin(id, msg) => HandleNoiseFin(id, msg);
      }
    }

    /** Any events at all, from the start: the base holds, and if nothing breaks it, the whole invariant. */
    method HandleAll(es: seq<Event>)
      requires Valid() && View() == EMPTY
      modifies this
      ensures Valid() && View() == Run(env, es)
      ensures NothingBreaks(env, es) ==> Inv(env, View())
      ensures env.Answers() && Prompt(env, es) ==> Inv(env, View())
    {
      for i := 0 to |es|
        invariant Valid() && View() == Run(env, es[..i])
      {
        assert es[..i + 1][..i] == es[..i];
        Handle(es[i]);
      }
      assert es[..|es|] == es;
      SoundIff(env, es);
      if env.Answers() && Prompt(env, es) {
        Reachable(env, es);
      }
    }
  }

  lemma SecondaryStep(ps: seq<Path>, i: nat, id: nat)
    requires i < |ps|
    ensures Secondary(ps[..i + 1], id) == Secondary(ps[..i], id) + if ps[i].tid != id then {ps[i].tid} else {}
  {
    var a, b := ps[..i + 1], ps[..i];
    forall t | t in Secondary(a, id)
      ensures t in Secondary(b, id) || (t == ps[i].tid && ps[i].tid != id)
    {
      var k :| 0 <= k < |a| && a[k].tid != id && a[k].tid == t;
      if k < i {
        assert b[k] == a[k];
      }
    }
    forall t | t in Secondary(b, id)
      ensures t in Secondary(a, id)
    {
      var k :| 0 <= k < |b| && b[k].tid != id && b[k].tid == t;
      assert a[k] == b[k];
    }
    assert ps[i].tid != id ==> a[i].tid in Secondary(a, id);
  }
}
