/** Gossip relay with a hop limit and duplicate suppression (core/cm/relay.cpp). */
module Relay {
  import opened Bytes

  const DEDUP_LIMIT: nat := 8192
  const TTL_NS: nat := 30_000_000_000

  // ---- Fingerprints ----

  datatype Fingerprint = Fingerprint(senderHash: bv64, pid: bv64)

  function Mix(h: bv64, t: bv16): bv64 { h ^ ((t as bv64) << 32) }

  lemma MixInjective(h: bv64, s: bv16, t: bv16)
    requires Mix(h, s) == Mix(h, t)
    ensures s == t
  {
  }

  /** hash is whatever std::hash does to 64-bit integers. */
  function FingerprintOf(hash: bv64 -> bv64, pid: bv64, ptype: bv16): Fingerprint {
    Fingerprint(Mix(hash(pid), ptype), pid)
  }

  /** Two packets share a fingerprint exactly when they share packet id and payload type. */
  lemma FingerprintInjective(hash: bv64 -> bv64, p: bv64, s: bv16, q: bv64, t: bv16)
    ensures FingerprintOf(hash, p, s) == FingerprintOf(hash, q, t) <==> p == q && s == t
  {
    if p == q && Mix(hash(p), s) == Mix(hash(p), t) {
      MixInjective(hash(p), s, t);
    }
  }

  // ---- relay_seen ----

  type Seen = map<Fingerprint, nat>

  /** Entries older than 30 s go, but only once the set has outgrown its limit. */
  function Evicted(m: Seen, now: nat): Seen {
    if |m| > DEDUP_LIMIT then map f | f in m && m[f] + TTL_NS >= now :: m[f] else m
  }

  function Look(m: Seen, f: Fingerprint, now: nat): (Seen, bool) {
    var kept := Evicted(m, now);
    if f in kept then (kept, true) else (kept[f := now], false)
  }

  class Dedup {
    var seen: Seen

    constructor ()
      ensures seen == map[]
    {
      seen := map[];
    }

    method RelaySeen(f: Fingerprint, now: nat) returns (dup: bool)
      modifies this
      ensures (seen, dup) == Look(old(seen), f, now)
    {
      if |seen| > DEDUP_LIMIT {
        var todo := seen.Keys;
        while todo != {}
          invariant todo <= seen.Keys
          invariant forall k :: k in seen ==> k in old(seen) && seen[k] == old(seen)[k]
          invariant forall k :: k in old(seen) && k !in todo ==> (k in seen <==> old(seen)[k] + TTL_NS >= now)
          invariant forall k :: k in todo ==> k in seen
          decreases todo
        {
          var k :| k in todo;
          if seen[k] + TTL_NS < now {
            seen := seen - {k};
          }
          todo := todo - {k};
        }
        assert seen == Evicted(old(seen), now);
      }
      if f in seen {
        return true;
      }
      seen := seen[f := now];
      return false;
    }
  }

  /** A fingerprint judged new at time t is remembered until more than 30 s have passed. */
  ghost predicate Remembers(m: Seen, f: Fingerprint, t: nat, now: nat) {
    (f in m && m[f] >= t) || t + TTL_NS < now
  }

  lemma LookRemembers(m: Seen, g: Fingerprint, now: nat, f: Fingerprint, t: nat, clock: nat)
    requires Remembers(m, f, t, clock) && t <= clock <= now
    ensures var (m', dup) := Look(m, g, now);
            && Remembers(m', f, t, now)
            && (f == g && !dup ==> t + TTL_NS < now)
  {
  }

  /**
   A packet is taken for a duplicate exactly when its fingerprint is on record and not stale in an
   overgrown set; after a look at such a set no stale entry is left, and no fresh one is ever lost.
   */
  lemma DuplicateIff(m: Seen, f: Fingerprint, now: nat)
    ensures var (m', dup) := Look(m, f, now);
            && (dup <==> f in m && (|m| <= DEDUP_LIMIT || m[f] + TTL_NS >= now))
            && f in m' && (!dup ==> m'[f] == now)
            && (forall g :: g != f ==> (g in m' <==> g in m && (|m| <= DEDUP_LIMIT || m[g] + TTL_NS >= now)))
            && (forall g :: g in m' && (g != f || dup) ==> g in m && m'[g] == m[g])
  {
  }

  // ---- Relay payloads: ttl, destination key, inner frame ----

  const RELAY_HDR: nat := 33
  const FRAME_HDR: nat := 20

  function BuildRelay(ttl: Byte, dest: Bytes, inner: Bytes): Bytes { [ttl] + dest + inner }

  datatype RelayPayload = RelayPayload(ttl: Byte, dest: Bytes, inner: Bytes)

  /** handle_relay's checks: long enough, a live hop count, an inner frame that is not cut short. */
  function ParseRelay(plain: Bytes): Option<RelayPayload> {
    if |plain| < RELAY_HDR + FRAME_HDR || plain[0] == 0 then None
    else
      var inner := plain[RELAY_HDR..];
      if |inner| < FRAME_HDR + FromLittleEndian(inner[8..12]) then None
      else Some(RelayPayload(plain[0], plain[1..RELAY_HDR], inner))
  }

  /** A relayed payload is understood at the next hop exactly when hops remain and the frame is whole. */
  lemma RelayRoundTrip(ttl: Byte, dest: Bytes, inner: Bytes)
    requires |dest| == 32
    ensures ParseRelay(BuildRelay(ttl, dest, inner))
            == if ttl > 0 && |inner| >= FRAME_HDR && |inner| >= FRAME_HDR + FromLittleEndian(inner[8..12])
               then Some(RelayPayload(ttl, dest, inner)) else None
  {
    var p := BuildRelay(ttl, dest, inner);
    assert p[RELAY_HDR..] == inner && p[1..RELAY_HDR] == dest;
  }
}

/** One packet spreading through a network of relaying nodes, amid any other relay traffic. */
module RelayNetwork {
  import opened Relay

  type Node = nat

  datatype Msg = Msg(from: Node, to: Node, ttl: nat)

  /** links: who may hold an established connection to whom; fanout bounds the connections of a node. */
  datatype Topology = Topology(links: map<Node, set<Node>>, fanout: nat, origin: Node, dest: Node, ttl: nat,
                               packet: Fingerprint)
  {
    function Peers(n: Node): set<Node> { if n in links then links[n] else {} }

    ghost predicate Valid() { forall n :: n in links ==> |links[n]| <= fanout }
  }

  /** news records every non-duplicate verdict on the packet: where and when. */
  datatype Net = Net(inflight: seq<Msg>, seen: map<Node, Seen>, delivered: set<Node>, news: seq<(Node, nat)>,
                     clock: nat)

  datatype Event =
    | Deliver(i: nat, now: nat, up: set<Node>)            // up: peers established at that moment
    | Lose(i: nat)
    | Other(at: Node, f: Fingerprint, now: nat)           // another packet, or another copy of this one, at a node

  function SeenAt(s: Net, n: Node): Seen { if n in s.seen then s.seen[n] else map[] }

  predicate Enabled(top: Topology, s: Net, e: Event) {
    match e
    case Deliver(i, now, up) => i < |s.inflight| && now >= s.clock && up <= top.Peers(s.inflight[i].to)
    case Lose(i) => i < |s.inflight|
    case Other(_, _, now) => now >= s.clock
  }

  /** relay(): straight to the destination if connected to it, otherwise to everyone but the sender. */
  function Targets(top: Topology, up: set<Node>, exclude: set<Node>): set<Node> {
    if top.dest in up && top.dest !in exclude then {top.dest} else up - exclude
  }

  function Drop(ms: seq<Msg>, i: nat): seq<Msg>
    requires i < |ms|
  {
    ms[..i] + ms[i + 1..]
  }

  /** Some message on its way goes to this node. */
  ghost predicate Addressed(ms: seq<Msg>, n: Node) { exists i :: 0 <= i < |ms| && ms[i].to == n }

  lemma AddressedMore(m: Msg, ms: seq<Msg>)
    ensures Addressed([m] + ms, m.to) && forall n :: Addressed(ms, n) ==> Addressed([m] + ms, n)
  {
    assert ([m] + ms)[0].to == m.to;
    forall n | Addressed(ms, n)
      ensures Addressed([m] + ms, n)
    {
      var i :| 0 <= i < |ms| && ms[i].to == n;
      assert ([m] + ms)[i + 1].to == n;
    }
  }

  /** The messages a node sends out, in some order. */
  ghost function Fan(from: Node, targets: set<Node>, ttl: nat): (ms: seq<Msg>)
    ensures |ms| == |targets|
    ensures forall i :: 0 <= i < |ms| ==> ms[i].to in targets && ms[i].from == from && ms[i].ttl == ttl
    ensures forall t :: t in targets ==> Addressed(ms, t)
  {
    if targets == {} then []
    else
      var t :| t in targets;
      var rest := Fan(from, targets - {t}, ttl);
      AddressedMore(Msg(from, t, ttl), rest);
      [Msg(from, t, ttl)] + rest
  }

  /** handle_relay at the node a message has reached. */
  ghost function Arrive(top: Topology, s: Net, m: Msg, now: nat, up: set<Node>): Net {
    if m.ttl == 0 then s.(clock := now)
    else
      var (seen, dup) := Look(SeenAt(s, m.to), top.packet, now);
      var s' := s.(seen := s.seen[m.to := seen], clock := now);
      if dup then s'
      else
        var s'' := s'.(news := s.news + [(m.to, now)]);
        if m.to == top.dest then s''.(delivered := s.delivered + {m.to})
        else s''.(inflight := s.inflight + Fan(m.to, Targets(top, up, {m.from}), m.ttl - 1))
  }

  ghost function Step(top: Topology, s: Net, e: Event): Net
    requires Enabled(top, s, e)
  {
    match e
    case Deliver(i, now, up) => Arrive(top, s.(inflight := Drop(s.inflight, i)), s.inflight[i], now, up)
    case Lose(i) => s.(inflight := Drop(s.inflight, i))
    case Other(n, f, now) =>
      var (m, dup) := Look(SeenAt(s, n), f, now);
      s.(seen := s.seen[n := m], clock := now, news := if f == top.packet && !dup then s.news + [(n, now)] else s.news)
  }

  /** The packet is injected by relay() at the origin, whatever the nodes have seen before. */
  ghost function Injected(top: Topology, seen: map<Node, Seen>, clock: nat, up: set<Node>): Net {
    Net(Fan(top.origin, Targets(top, up, {}), top.ttl), seen, {}, [], clock)
  }

  ghost function Run(top: Topology, s: Net, es: seq<Event>): Net {
    if es == [] then s
    else
      var s' := Run(top, s, es[..|es| - 1]);
      if Enabled(top, s', es[|es| - 1]) then Step(top, s', es[|es| - 1]) else s'
  }

  // ---- Termination: every delivery or loss uses up weight ----

  /** How many deliveries a message with this hop count can still cause, itself included. */
  function Weight(fanout: nat, ttl: nat): (w: nat)
    ensures w >= 1
  {
    if ttl == 0 then 1 else 1 + fanout * Weight(fanout, ttl - 1)
  }

  function Potential(fanout: nat, ms: seq<Msg>): nat {
    if ms == [] then 0 else Weight(fanout, ms[0].ttl) + Potential(fanout, ms[1..])
  }

  lemma {:induction false} PotentialAppend(d: nat, a: seq<Msg>, b: seq<Msg>)
    ensures Potential(d, a + b) == Potential(d, a) + Potential(d, b)
    decreases |a|
  {
    if a == [] {
      assert a + b == b;
    } else {
      assert (a + b)[1..] == a[1..] + b;
      PotentialAppend(d, a[1..], b);
    }
  }

  lemma PotentialDrop(d: nat, ms: seq<Msg>, i: nat)
    requires i < |ms|
    ensures Potential(d, ms) == Potential(d, Drop(ms, i)) + Weight(d, ms[i].ttl)
  {
    assert ms == ms[..i] + ms[i..] && ms[i..][1..] == ms[i + 1..];
    PotentialAppend(d, ms[..i], ms[i..]);
    PotentialAppend(d, ms[..i], ms[i + 1..]);
  }

  lemma {:induction false} PotentialUniform(d: nat, ms: seq<Msg>, ttl: nat)
    requires forall i :: 0 <= i < |ms| ==> ms[i].ttl == ttl
    ensures Potential(d, ms) == |ms| * Weight(d, ttl)
    decreases |ms|
  {
    if ms != [] {
      PotentialUniform(d, ms[1..], ttl);
      assert |ms| * Weight(d, ttl) == Weight(d, ttl) + (|ms| - 1) * Weight(d, ttl);
    }
  }

  lemma TargetsWithinFanout(top: Topology, n: Node, up: set<Node>, exclude: set<Node>)
    requires top.Valid() && up <= top.Peers(n)
    ensures |Targets(top, up, exclude)| <= top.fanout && Targets(top, up, exclude) <= up
  {
    var ts := Targets(top, up, exclude);
    SubsetSize(ts, top.Peers(n));
  }

  lemma {:induction false} SubsetSize(a: set<Node>, b: set<Node>)
    requires a <= b
    ensures |a| <= |b|
  {
    if a != {} {
      var x :| x in a;
      SubsetSize(a - {x}, b - {x});
    }
  }

  /** The messages one node sends weigh less than the message that made it send them. */
  lemma FanWeighsLess(top: Topology, n: Node, up: set<Node>, exclude: set<Node>, ttl: nat)
    requires top.Valid() && up <= top.Peers(n) && ttl > 0
    ensures Potential(top.fanout, Fan(n, Targets(top, up, exclude), ttl - 1)) < Weight(top.fanout, ttl)
  {
    var ts := Targets(top, up, exclude);
    TargetsWithinFanout(top, n, up, exclude);
    UniformWeighsLess(top.fanout, Fan(n, ts, ttl - 1), ttl);
  }

  lemma UniformWeighsLess(fanout: nat, ms: seq<Msg>, ttl: nat)
    requires ttl > 0 && |ms| <= fanout && forall i :: 0 <= i < |ms| ==> ms[i].ttl == ttl - 1
    ensures Potential(fanout, ms) < Weight(fanout, ttl)
  {
    PotentialUniform(fanout, ms, ttl - 1);
    MulMonotone(|ms|, fanout, Weight(fanout, ttl - 1));
  }

  lemma MulMonotone(a: nat, b: nat, w: nat)
    requires a <= b
    ensures a * w <= b * w
  {
    assert b * w == a * w + (b - a) * w;
  }

  lemma ArrivalUsesPotential(top: Topology, s: Net, m: Msg, now: nat, up: set<Node>)
    requires top.Valid() && up <= top.Peers(m.to)
    ensures Potential(top.fanout, Arrive(top, s, m, now, up).inflight)
            < Potential(top.fanout, s.inflight) + Weight(top.fanout, m.ttl)
  {
    if m.ttl > 0 {
      var out := Fan(m.to, Targets(top, up, {m.from}), m.ttl - 1);
      FanWeighsLess(top, m.to, up, {m.from}, m.ttl);
      PotentialAppend(top.fanout, s.inflight, out);
      assert Arrive(top, s, m, now, up).inflight in {s.inflight, s.inflight + out};
    }
  }

  lemma StepUsesPotential(top: Topology, s: Net, e: Event)
    requires top.Valid() && Enabled(top, s, e)
    ensures var before, after := Potential(top.fanout, s.inflight), Potential(top.fanout, Step(top, s, e).inflight);
            if e.Other? then after == before else after < before
  {
    match e {
      case Deliver(i, now, up) =>
        PotentialDrop(top.fanout, s.inflight, i);
        ArrivalUsesPotential(top, s.(inflight := Drop(s.inflight, i)), s.inflight[i], now, up);
      case Lose(i) =>
        PotentialDrop(top.fanout, s.inflight, i);
      case Other(_, _, _) =>
    }
  }

  /** Deliveries and losses of the packet in a run (steps that could not be taken do not count). */
  ghost function Hops(top: Topology, s: Net, es: seq<Event>): nat {
    if es == [] then 0
    else
      var n := |es| - 1;
      var taken := Enabled(top, Run(top, s, es[..n]), es[n]) && !es[n].Other?;
      Hops(top, s, es[..n]) + if taken then 1 else 0
  }

  /** Every run terminates: the packet's hops are bounded by the weight of what was injected. */
  lemma {:induction false} HopsBounded(top: Topology, s: Net, es: seq<Event>)
    requires top.Valid()
    ensures Hops(top, s, es) + Potential(top.fanout, Run(top, s, es).inflight) <= Potential(top.fanout, s.inflight)
    decreases |es|
  {
    if es != [] {
      var n := |es| - 1;
      HopsBounded(top, s, es[..n]);
      var s' := Run(top, s, es[..n]);
      if Enabled(top, s', es[n]) {
        StepUsesPotential(top, s', es[n]);
      }
    }
  }

  lemma RelayTerminates(top: Topology, seen: map<Node, Seen>, clock: nat, up: set<Node>, es: seq<Event>)
    requires top.Valid() && up <= top.Peers(top.origin)
    ensures Hops(top, Injected(top, seen, clock, up), es) < Weight(top.fanout, top.ttl + 1)
  {
    HopsBounded(top, Injected(top, seen, clock, up), es);
    FanWeighsLess(top, top.origin, up, {}, top.ttl + 1);
  }

  // ---- Reach: a delivering node is within the hop limit ----

  /** n is at most k links away from the origin. */
  ghost predicate Near(top: Topology, n: Node, k: nat)
    decreases k
  {
    if k == 0 then n == top.origin
    else Near(top, n, k - 1) || exists m :: m in top.links && Near(top, m, k - 1) && n in top.links[m]
  }

  lemma {:induction false} NearMonotone(top: Topology, n: Node, j: nat, k: nat)
    requires j <= k && Near(top, n, j)
    ensures Near(top, n, k)
    decreases k
  {
    if j < k {
      NearMonotone(top, n, j, k - 1);
    }
  }

  /** A message's hop count accounts for the distance it has covered. */
  ghost predicate MsgNear(top: Topology, m: Msg) {
    m.ttl <= top.ttl && Near(top, m.to, top.ttl - m.ttl + 1)
  }

  ghost predicate InReach(top: Topology, s: Net) {
    && (forall i :: 0 <= i < |s.inflight| ==> MsgNear(top, s.inflight[i]))
    && (forall n :: n in s.delivered ==> Near(top, n, top.ttl) && top.ttl > 0)
  }

  lemma FanInReach(top: Topology, n: Node, up: set<Node>, exclude: set<Node>, ttl: nat)
    requires top.Valid() && up <= top.Peers(n) && ttl <= top.ttl && Near(top, n, top.ttl - ttl)
    ensures var ms := Fan(n, Targets(top, up, exclude), ttl);
            forall i :: 0 <= i < |ms| ==> MsgNear(top, ms[i])
  {
    TargetsWithinFanout(top, n, up, exclude);
    var ms := Fan(n, Targets(top, up, exclude), ttl);
    forall i | 0 <= i < |ms|
      ensures MsgNear(top, ms[i])
    {
      assert n in top.links && ms[i].to in top.links[n];
    }
  }

  lemma ArrivalInReach(top: Topology, s: Net, m: Msg, now: nat, up: set<Node>)
    requires top.Valid() && InReach(top, s) && up <= top.Peers(m.to) && MsgNear(top, m)
    ensures InReach(top, Arrive(top, s, m, now, up))
  {
    if m.ttl > 0 {
      ArrivalEffect(top, s, m, now, up);
      ArrivalOut(top, m, up);
      GrowInReach(top, s, Fan(m.to, Targets(top, up, {m.from}), m.ttl - 1), m.to, Arrive(top, s, m, now, up));
    }
  }

  lemma ArrivalOut(top: Topology, m: Msg, up: set<Node>)
    requires top.Valid() && up <= top.Peers(m.to) && MsgNear(top, m) && m.ttl > 0
    ensures var out := Fan(m.to, Targets(top, up, {m.from}), m.ttl - 1);
            forall i :: 0 <= i < |out| ==> MsgNear(top, out[i])
    ensures top.ttl > 0 && Near(top, m.to, top.ttl)
  {
    FanInReach(top, m.to, up, {m.from}, m.ttl - 1);
    NearMonotone(top, m.to, top.ttl - m.ttl + 1, top.ttl);
  }

  lemma GrowInReach(top: Topology, s: Net, out: seq<Msg>, n: Node, s': Net)
    requires InReach(top, s) && forall i :: 0 <= i < |out| ==> MsgNear(top, out[i])
    requires top.ttl > 0 && Near(top, n, top.ttl)
    requires s'.inflight == s.inflight || s'.inflight == s.inflight + out
    requires s'.delivered == s.delivered || s'.delivered == s.delivered + {n}
    ensures InReach(top, s')
  {
  }

  /** What an arrival can do to the messages and to the deliveries. */
  lemma ArrivalEffect(top: Topology, s: Net, m: Msg, now: nat, up: set<Node>)
    requires m.ttl > 0
    ensures var s' := Arrive(top, s, m, now, up);
            && (s'.inflight == s.inflight
                || s'.inflight == s.inflight + Fan(m.to, Targets(top, up, {m.from}), m.ttl - 1))
            && (s'.delivered == s.delivered || s'.delivered == s.delivered + {m.to})
  {
  }

  lemma StepInReach(top: Topology, s: Net, e: Event)
    requires top.Valid() && InReach(top, s) && Enabled(top, s, e)
    ensures InReach(top, Step(top, s, e))
  {
    if !e.Other? {
      var dropped := s.(inflight := Drop(s.inflight, e.i));
      assert InReach(top, dropped);
      if e.Deliver? {
        ArrivalInReach(top, dropped, s.inflight[e.i], e.now, e.up);
      }
    }
  }

  /** No node further than the initial hop count from the origin ever delivers the packet. */
  lemma {:induction false} DeliveredWithinTtl(top: Topology, seen: map<Node, Seen>, clock: nat, up: set<Node>, es: seq<Event>)
    requires top.Valid() && up <= top.Peers(top.origin)
    ensures InReach(top, Run(top, Injected(top, seen, clock, up), es))
    decreases |es|
  {
    var s0 := Injected(top, seen, clock, up);
    if es == [] {
      FanInReach(top, top.origin, up, {}, top.ttl);
    } else {
      var n := |es| - 1;
      DeliveredWithinTtl(top, seen, clock, up, es[..n]);
      var s := Run(top, s0, es[..n]);
      if Enabled(top, s, es[n]) {
        StepInReach(top, s, es[n]);
      }
    }
  }

  // ---- Duplicates: one verdict per node and 30 s ----

  ghost predicate Spaced(top: Topology, s: Net) {
    && (forall i :: 0 <= i < |s.news| ==> s.news[i].1 <= s.clock)
    && (forall i :: 0 <= i < |s.news| ==> Remembers(SeenAt(s, s.news[i].0), top.packet, s.news[i].1, s.clock))
    && (forall i, j :: 0 <= i < j < |s.news| && s.news[i].0 == s.news[j].0 ==>
          s.news[i].1 + TTL_NS < s.news[j].1)
  }

  /** A look at one node's set keeps the memory of every node. */
  lemma LookKeepsMemory(top: Topology, s: Net, n: Node, f: Fingerprint, now: nat)
    requires Spaced(top, s) && now >= s.clock
    ensures var (m, dup) := Look(SeenAt(s, n), f, now);
            forall i :: 0 <= i < |s.news| ==>
              && Remembers(if s.news[i].0 == n then m else SeenAt(s, s.news[i].0), top.packet, s.news[i].1, now)
              && (s.news[i].0 == n && f == top.packet && !dup ==> s.news[i].1 + TTL_NS < now)
  {
    forall i | 0 <= i < |s.news| && s.news[i].0 == n
      ensures var (m, dup) := Look(SeenAt(s, n), f, now);
              && Remembers(m, top.packet, s.news[i].1, now)
              && (f == top.packet && !dup ==> s.news[i].1 + TTL_NS < now)
    {
      LookRemembers(SeenAt(s, n), f, now, top.packet, s.news[i].1, s.clock);
    }
  }

  /** A state that differs by one look, and by the verdict if it was a new one on the packet. */
  lemma LookedSpaced(top: Topology, s: Net, n: Node, f: Fingerprint, now: nat, s': Net)
    requires Spaced(top, s) && now >= s.clock && s'.clock == now
    requires var (m, dup) := Look(SeenAt(s, n), f, now);
             && s'.seen == s.seen[n := m]
             && (s'.news == s.news || (s'.news == s.news + [(n, now)] && f == top.packet && !dup))
    ensures Spaced(top, s')
  {
    LookKeepsMemory(top, s, n, f, now);
    var (m, dup) := Look(SeenAt(s, n), f, now);
    forall i | 0 <= i < |s'.news|
      ensures s'.news[i].1 <= now && Remembers(SeenAt(s', s'.news[i].0), top.packet, s'.news[i].1, now)
    {
      if i < |s.news| {
        assert s'.news[i] == s.news[i];
      } else {
        assert m[top.packet] == now;
      }
    }
  }

  lemma ArrivalSpaced(top: Topology, s: Net, m: Msg, now: nat, up: set<Node>)
    requires Spaced(top, s) && now >= s.clock
    ensures Spaced(top, Arrive(top, s, m, now, up))
  {
    if m.ttl > 0 {
      LookedSpaced(top, s, m.to, top.packet, now, Arrive(top, s, m, now, up));
    } else {
      assert forall i :: 0 <= i < |s.news| ==> SeenAt(s.(clock := now), s.news[i].0) == SeenAt(s, s.news[i].0);
    }
  }

  lemma StepSpaced(top: Topology, s: Net, e: Event)
    requires Spaced(top, s) && Enabled(top, s, e)
    ensures Spaced(top, Step(top, s, e))
  {
    match e {
      case Deliver(i, now, up) =>
        var dropped := s.(inflight := Drop(s.inflight, i));
        assert Spaced(top, dropped);
        ArrivalSpaced(top, dropped, s.inflight[i], now, up);
      case Lose(_) =>
      case Other(n, f, now) =>
        LookedSpaced(top, s, n, f, now, Step(top, s, e));
    }
  }

  /** In every run, further injections of the packet included, a node takes it for new twice only more than 30 s apart. */
  lemma {:induction false} VerdictsSpaced(top: Topology, s: Net, es: seq<Event>)
    requires s.news == []
    ensures Spaced(top, Run(top, s, es))
    decreases |es|
  {
    if es != [] {
      var n := |es| - 1;
      VerdictsSpaced(top, s, es[..n]);
      var s' := Run(top, s, es[..n]);
      if Enabled(top, s', es[n]) {
        StepSpaced(top, s', es[n]);
      }
    }
  }
}
