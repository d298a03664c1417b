/** A relayed packet that is never lost on the way reaches its destination. */
module RelayDelivery {
  import opened Relay
  import opened RelayNetwork

  /** The nodes that have taken the packet for new. */
  ghost function Judged(s: Net): set<Node> { set i | 0 <= i < |s.news| :: s.news[i].0 }

  /** The nodes that have sent the packet on: the origin, and whoever took it for new and is not the destination. */
  ghost function Informed(top: Topology, s: Net): set<Node> { Judged(s) + {top.origin} }

  ghost predicate Reached(top: Topology, s: Net, n: Node) { n in Informed(top, s) || Addressed(s.inflight, n) }

  /** The node's peers have the packet or are about to get it; if one is the destination, that one is enough. */
  ghost predicate Served(top: Topology, s: Net, n: Node) {
    if top.dest in top.Peers(n) then Reached(top, s, top.dest)
    else forall p :: p in top.Peers(n) ==> Reached(top, s, p)
  }

  /** Which nodes know the packet, while nothing recorded since the start can have become stale. */
  ghost predicate Memory(top: Topology, start: nat, s: Net) {
    && start <= s.clock <= start + TTL_NS
    && (forall n :: top.packet in SeenAt(s, n) <==> n in Judged(s))
    && (forall n :: n in Judged(s) ==> top.packet in SeenAt(s, n) && SeenAt(s, n)[top.packet] >= start)
  }

  /** A message has lost at most one hop for every node that has taken the packet for new. */
  ghost predicate Travels(top: Topology, nodes: set<Node>, s: Net, m: Msg) {
    m.ttl + |Judged(s)| >= top.ttl && m.from in Informed(top, s) && m.from != top.dest && m.to in nodes
  }

  ghost predicate Spreading(top: Topology, nodes: set<Node>, start: nat, s: Net) {
    && Memory(top, start, s)
    && Judged(s) <= nodes && (top.dest in Judged(s) ==> top.dest in s.delivered)
    && (forall i :: 0 <= i < |s.inflight| ==> Travels(top, nodes, s, s.inflight[i]))
    && (forall n :: n in Informed(top, s) && n != top.dest ==> Served(top, s, n))
  }

  /** Nodes that lead to nodes only, among them the origin, and fewer than the hops to spare. */
  ghost predicate Covers(top: Topology, nodes: set<Node>) {
    top.origin in nodes && (forall n :: n in nodes ==> top.Peers(n) <= nodes) && |nodes| <= top.ttl && top.dest != top.origin
  }

  /** Every link is up, no copy is injected elsewhere, and it all happens within 30 s. */
  ghost predicate Smooth(top: Topology, start: nat, s: Net, e: Event) {
    match e
    case Deliver(i, now, up) => i < |s.inflight| && s.clock <= now <= start + TTL_NS && up == top.Peers(s.inflight[i].to)
    case Lose(_) => false
    case Other(_, f, now) => s.clock <= now <= start + TTL_NS && f != top.packet
  }

  ghost predicate SmoothRun(top: Topology, start: nat, s: Net, es: seq<Event>) {
    es == [] || (SmoothRun(top, start, s, es[..|es| - 1]) && Smooth(top, start, Run(top, s, es[..|es| - 1]), es[|es| - 1]))
  }

  // ---- One look ----

  lemma LookWithin(m: Seen, f: Fingerprint, now: nat, packet: Fingerprint, start: nat)
    requires start <= now <= start + TTL_NS && (packet in m ==> m[packet] >= start)
    ensures var (m', dup) := Look(m, f, now);
            && (packet in m' ==> m'[packet] >= start) && (packet in m' <==> packet in m || f == packet)
            && (f == packet ==> (dup <==> packet in m))
  {
  }

  lemma LookKeepsKnowledge(top: Topology, start: nat, s: Net, n: Node, f: Fingerprint, now: nat, s': Net)
    requires Memory(top, start, s) && s.clock <= now <= start + TTL_NS && s'.clock == now
    requires s'.seen == s.seen[n := Look(SeenAt(s, n), f, now).0]
    requires Judged(s') == if f == top.packet then Judged(s) + {n} else Judged(s)
    ensures Memory(top, start, s')
  {
    LookWithin(SeenAt(s, n), f, now, top.packet, start);
    forall x
      ensures SeenAt(s', x) == if x == n then Look(SeenAt(s, n), f, now).0 else SeenAt(s, x)
    {
    }
  }

  lemma JudgedGrows(s: Net, s': Net, n: Node, now: nat)
    requires s'.news == s.news + [(n, now)]
    ensures Judged(s') == Judged(s) + {n}
  {
    assert forall i :: 0 <= i < |s.news| ==> s'.news[i] == s.news[i];
    assert s'.news[|s.news|].0 == n;
  }

  // ---- One step ----

  /** A message taken off the way is missed by its addressee alone. */
  lemma DroppedReached(top: Topology, s: Net, i: nat, s': Net, n: Node)
    requires i < |s.inflight| && Reached(top, s, n) && Informed(top, s) <= Informed(top, s')
    requires Drop(s.inflight, i) <= s'.inflight && s.inflight[i].to in Informed(top, s')
    ensures Reached(top, s', n)
  {
    if n !in Informed(top, s') {
      var k :| 0 <= k < |s.inflight| && s.inflight[k].to == n;
      var k' := if k < i then k else k - 1;
      assert Drop(s.inflight, i)[k'] == s.inflight[k];
      assert s'.inflight[k'].to == n;
    }
  }

  lemma DroppedServed(top: Topology, s: Net, i: nat, s': Net, n: Node)
    requires i < |s.inflight| && Served(top, s, n) && Informed(top, s) <= Informed(top, s')
    requires Drop(s.inflight, i) <= s'.inflight && s.inflight[i].to in Informed(top, s')
    ensures Served(top, s', n)
  {
    if top.dest in top.Peers(n) {
      DroppedReached(top, s, i, s', top.dest);
    } else {
      forall p | p in top.Peers(n)
        ensures Reached(top, s', p)
      {
        DroppedReached(top, s, i, s', p);
      }
    }
  }

  lemma DroppedTravels(top: Topology, nodes: set<Node>, s: Net, i: nat, s': Net)
    requires i < |s.inflight| && |Judged(s)| <= |Judged(s')| && Informed(top, s) <= Informed(top, s')
    requires forall k :: 0 <= k < |s.inflight| ==> Travels(top, nodes, s, s.inflight[k])
    ensures var rest := Drop(s.inflight, i); forall k :: 0 <= k < |rest| ==> Travels(top, nodes, s', rest[k])
  {
    var rest := Drop(s.inflight, i);
    forall k | 0 <= k < |rest|
      ensures Travels(top, nodes, s', rest[k])
    {
      assert rest[k] == s.inflight[if k < i then k else k + 1];
    }
  }

  /** A node that already knows the packet: the copy goes, and nothing else happens. */
  lemma KnownArrival(top: Topology, nodes: set<Node>, start: nat, s: Net, e: Event)
    requires e.Deliver? && Spreading(top, nodes, start, s) && Smooth(top, start, s, e) && s.inflight[e.i].to in Judged(s)
    ensures Spreading(top, nodes, start, Step(top, s, e))
  {
    var m, s' := s.inflight[e.i], Step(top, s, e);
    LookWithin(SeenAt(s, m.to), top.packet, e.now, top.packet, start);
    assert SeenAt(s.(inflight := Drop(s.inflight, e.i)), m.to) == SeenAt(s, m.to);
    assert s'.news == s.news && s'.inflight == Drop(s.inflight, e.i) && s'.delivered == s.delivered;
    assert Judged(s') == Judged(s);
    if m.ttl > 0 {
      assert Judged(s) == Judged(s) + {m.to};
      LookKeepsKnowledge(top, start, s, m.to, top.packet, e.now, s');
    } else {
      assert forall n :: SeenAt(s', n) == SeenAt(s, n);
    }
    DroppedTravels(top, nodes, s, e.i, s');
    forall n | n in Informed(top, s') && n != top.dest
      ensures Served(top, s', n)
    {
      DroppedServed(top, s, e.i, s', n);
    }
  }

  /** What the node sends on: nothing if the packet is for itself. */
  ghost function Forwarded(top: Topology, m: Msg, up: set<Node>): seq<Msg>
    requires m.ttl > 0
  {
    if m.to == top.dest then [] else Fan(m.to, Targets(top, up, {m.from}), m.ttl - 1)
  }

  /** A copy for a node that does not know the packet still has a hop to spare. */
  lemma HopsLeft(top: Topology, nodes: set<Node>, s: Net, m: Msg)
    requires Covers(top, nodes) && Judged(s) <= nodes && Travels(top, nodes, s, m) && m.to !in Judged(s)
    ensures m.ttl > 0
  {
    SubsetSize(Judged(s) + {m.to}, nodes);
  }

  lemma NewlyArrived(top: Topology, s: Net, m: Msg, now: nat, up: set<Node>)
    requires m.ttl > 0 && !Look(SeenAt(s, m.to), top.packet, now).1
    ensures var s' := Arrive(top, s, m, now, up);
            && s'.news == s.news + [(m.to, now)] && s'.clock == now
            && s'.seen == s.seen[m.to := Look(SeenAt(s, m.to), top.packet, now).0]
            && s'.delivered == (if m.to == top.dest then s.delivered + {m.to} else s.delivered)
            && s'.inflight == s.inflight + Forwarded(top, m, up)
  {
  }

  /** What a copy does at a node that does not know the packet yet. */
  lemma NewArrivalEffect(top: Topology, nodes: set<Node>, start: nat, s: Net, e: Event)
    requires e.Deliver? && Spreading(top, nodes, start, s) && Smooth(top, start, s, e) && Covers(top, nodes)
    requires s.inflight[e.i].to !in Judged(s)
    ensures var m, s' := s.inflight[e.i], Step(top, s, e);
            && m.ttl > 0 && Judged(s') == Judged(s) + {m.to} && Memory(top, start, s')
            && s'.delivered == (if m.to == top.dest then s.delivered + {m.to} else s.delivered)
            && s'.inflight == Drop(s.inflight, e.i) + Forwarded(top, m, e.up)
  {
    var m, s' := s.inflight[e.i], Step(top, s, e);
    HopsLeft(top, nodes, s, m);
    LookWithin(SeenAt(s, m.to), top.packet, e.now, top.packet, start);
    var rest := s.(inflight := Drop(s.inflight, e.i));
    assert SeenAt(rest, m.to) == SeenAt(s, m.to);
    NewlyArrived(top, rest, m, e.now, e.up);
    JudgedGrows(s, s', m.to, e.now);
    LookKeepsKnowledge(top, start, s, m.to, top.packet, e.now, s');
  }

  /** A node that has just sent the packet on has served all its peers, the sender included. */
  lemma SenderServed(top: Topology, s': Net, m: Msg, rest: seq<Msg>)
    requires m.ttl > 0 && s'.inflight == rest + Forwarded(top, m, top.Peers(m.to))
    requires m.from in Informed(top, s') && m.from != top.dest
    ensures m.to != top.dest ==> Served(top, s', m.to)
  {
    if m.to != top.dest {
      var targets := Targets(top, top.Peers(m.to), {m.from});
      var out := Fan(m.to, targets, m.ttl - 1);
      forall p | p in targets
        ensures Reached(top, s', p)
      {
        AddressedLater(rest, out, p);
      }
    }
  }

  lemma AddressedLater(rest: seq<Msg>, out: seq<Msg>, n: Node)
    requires Addressed(out, n)
    ensures Addressed(rest + out, n)
  {
    var i :| 0 <= i < |out| && out[i].to == n;
    assert (rest + out)[|rest| + i].to == n;
  }

  lemma NewArrival(top: Topology, nodes: set<Node>, start: nat, s: Net, e: Event)
    requires e.Deliver? && Spreading(top, nodes, start, s) && Smooth(top, start, s, e) && Covers(top, nodes)
    requires s.inflight[e.i].to !in Judged(s)
    ensures Spreading(top, nodes, start, Step(top, s, e))
  {
    NewArrivalEffect(top, nodes, start, s, e);
    assert Travels(top, nodes, s, s.inflight[e.i]);
    var out := SentOut(top, nodes, s, s.inflight[e.i], Step(top, s, e), Drop(s.inflight, e.i));
    Grown(top, nodes, start, s, e.i, Step(top, s, e), out);
  }

  lemma SentOut(top: Topology, nodes: set<Node>, s: Net, m: Msg, s': Net, rest: seq<Msg>) returns (out: seq<Msg>)
    requires Travels(top, nodes, s, m) && Covers(top, nodes) && m.ttl > 0
    requires m.to !in Judged(s) && Judged(s') == Judged(s) + {m.to}
    requires s'.inflight == rest + Forwarded(top, m, top.Peers(m.to))
    ensures s'.inflight == rest + out && forall k :: 0 <= k < |out| ==> Travels(top, nodes, s', out[k])
    ensures m.to != top.dest ==> Served(top, s', m.to)
  {
    out := Forwarded(top, m, top.Peers(m.to));
    assert forall k :: 0 <= k < |out| ==> Travels(top, nodes, s', out[k]) by {
      ForwardedTravel(top, nodes, s, m, s');
    }
    assert m.to != top.dest ==> Served(top, s', m.to) by {
      SenderServed(top, s', m, rest);
    }
  }

  /** The state after one message has informed a node that sends out more. */
  lemma Grown(top: Topology, nodes: set<Node>, start: nat, s: Net, i: nat, s': Net, out: seq<Msg>)
    requires Spreading(top, nodes, start, s) && Memory(top, start, s') && i < |s.inflight|
    requires var n := s.inflight[i].to;
             && n in nodes && n !in Judged(s) && Judged(s') == Judged(s) + {n} && (n != top.dest ==> Served(top, s', n))
             && s'.delivered == (if n == top.dest then s.delivered + {n} else s.delivered)
    requires s'.inflight == Drop(s.inflight, i) + out && forall k :: 0 <= k < |out| ==> Travels(top, nodes, s', out[k])
    ensures Spreading(top, nodes, start, s')
  {
    assert |Judged(s')| == |Judged(s)| + 1;
    DroppedTravels(top, nodes, s, i, s');
    forall n | n in Informed(top, s') && n != top.dest
      ensures Served(top, s', n)
    {
      if n != s.inflight[i].to {
        DroppedServed(top, s, i, s', n);
      }
    }
  }

  lemma ForwardedTravel(top: Topology, nodes: set<Node>, s: Net, m: Msg, s': Net)
    requires Travels(top, nodes, s, m) && Covers(top, nodes) && m.ttl > 0
    requires m.to !in Judged(s) && Judged(s') == Judged(s) + {m.to}
    ensures var out := Forwarded(top, m, top.Peers(m.to)); forall k :: 0 <= k < |out| ==> Travels(top, nodes, s', out[k])
  {
    var out := Forwarded(top, m, top.Peers(m.to));
    assert |Judged(s')| == |Judged(s)| + 1;
    forall k | 0 <= k < |out|
      ensures Travels(top, nodes, s', out[k])
    {
      assert out[k].to in Targets(top, top.Peers(m.to), {m.from});
    }
  }

  lemma OtherKeeps(top: Topology, nodes: set<Node>, start: nat, s: Net, e: Event)
    requires e.Other? && Spreading(top, nodes, start, s) && Smooth(top, start, s, e)
    ensures Spreading(top, nodes, start, Step(top, s, e))
  {
    var s' := Step(top, s, e);
    assert Judged(s') == Judged(s);
    LookKeepsKnowledge(top, start, s, e.at, e.f, e.now, s');
    forall n | n in Informed(top, s') && n != top.dest
      ensures Served(top, s', n)
    {
      assert Served(top, s, n);
      assert forall p :: Reached(top, s, p) ==> Reached(top, s', p);
    }
    forall i | 0 <= i < |s'.inflight|
      ensures Travels(top, nodes, s', s'.inflight[i])
    {
      assert Travels(top, nodes, s, s.inflight[i]);
    }
  }

  // ---- Whole runs ----

  lemma StartSpreads(top: Topology, nodes: set<Node>, seen: map<Node, Seen>, start: nat)
    requires Covers(top, nodes) && forall n :: n in seen ==> top.packet !in seen[n]
    ensures Spreading(top, nodes, start, Injected(top, seen, start, top.Peers(top.origin)))
  {
    var s := Injected(top, seen, start, top.Peers(top.origin));
    var targets := Targets(top, top.Peers(top.origin), {});
    assert Judged(s) == {};
    forall p | p in targets
      ensures Reached(top, s, p)
    {
      assert Addressed(s.inflight, p);
    }
    forall i | 0 <= i < |s.inflight|
      ensures Travels(top, nodes, s, s.inflight[i])
    {
      assert s.inflight[i].to in targets;
    }
  }

  lemma {:induction false} RunSpreads(top: Topology, nodes: set<Node>, seen: map<Node, Seen>, start: nat, es: seq<Event>)
    requires Covers(top, nodes) && forall n :: n in seen ==> top.packet !in seen[n]
    requires SmoothRun(top, start, Injected(top, seen, start, top.Peers(top.origin)), es)
    ensures Spreading(top, nodes, start, Run(top, Injected(top, seen, start, top.Peers(top.origin)), es))
    decreases |es|
  {
    var s0 := Injected(top, seen, start, top.Peers(top.origin));
    if es == [] {
      StartSpreads(top, nodes, seen, start);
    } else {
      var n := |es| - 1;
      RunSpreads(top, nodes, seen, start, es[..n]);
      var s, e := Run(top, s0, es[..n]), es[n];
      if e.Other? {
        OtherKeeps(top, nodes, start, s, e);
      } else if s.inflight[e.i].to in Judged(s) {
        KnownArrival(top, nodes, start, s, e);
      } else {
        NewArrival(top, nodes, start, s, e);
      }
    }
  }

  /** When nothing is on its way any more and the destination has been left out, every node near the origin knows. */
  lemma {:induction false} NearKnows(top: Topology, nodes: set<Node>, start: nat, s: Net, n: Node, k: nat)
    requires Spreading(top, nodes, start, s) && s.inflight == [] && top.dest !in Informed(top, s) && Near(top, n, k)
    ensures n in Informed(top, s)
    decreases k
  {
    if k > 0 && !Near(top, n, k - 1) {
      var m :| m in top.links && Near(top, m, k - 1) && n in top.links[m];
      NearKnows(top, nodes, start, s, m, k - 1);
      assert Served(top, s, m);
      assert Reached(top, s, n);
    } else if k > 0 {
      NearKnows(top, nodes, start, s, n, k - 1);
    }
  }

  /**
   Delivery. The destination is connected to the origin through any number of links, the hop count is
   at least the number of nodes, no node has seen the packet, and no copy is lost: once no copy is on
   its way, whatever the order of arrivals and the other traffic, the destination has the packet.
   */
  lemma PacketArrives(top: Topology, nodes: set<Node>, seen: map<Node, Seen>, start: nat, es: seq<Event>, k: nat)
    requires Covers(top, nodes) && Near(top, top.dest, k) && forall n :: n in seen ==> top.packet !in seen[n]
    requires SmoothRun(top, start, Injected(top, seen, start, top.Peers(top.origin)), es)
    ensures var s := Run(top, Injected(top, seen, start, top.Peers(top.origin)), es);
            s.inflight == [] ==> top.dest in s.delivered
  {
    RunSpreads(top, nodes, seen, start, es);
    var s := Run(top, Injected(top, seen, start, top.Peers(top.origin)), es);
    if s.inflight == [] && top.dest !in Informed(top, s) {
      NearKnows(top, nodes, start, s, top.dest, k);
    }
  }

  /** Every such run can go on until no copy is on its way. */
  lemma {:induction false} RunEnds(top: Topology, start: nat, s: Net, es: seq<Event>) returns (whole: seq<Event>)
    requires top.Valid() && SmoothRun(top, start, s, es) && Run(top, s, es).clock <= start + TTL_NS
    ensures es <= whole && SmoothRun(top, start, s, whole) && Run(top, s, whole).inflight == []
    decreases Potential(top.fanout, Run(top, s, es).inflight)
  {
    var now := Run(top, s, es);
    if now.inflight == [] {
      return es;
    }
    var e := Deliver(0, now.clock, top.Peers(now.inflight[0].to));
    assert (es + [e])[..|es|] == es;
    StepUsesPotential(top, now, e);
    whole := RunEnds(top, start, s, es + [e]);
  }
}
