/**
 The packet counter under concurrency. build_frame draws an id with one atomic operation and seals
 with another step later; rekey_session first replaces the key and then stores 1 in the counter.
 Any number of threads may be anywhere between.
 */
module PacketIds {

  const IDS: nat := 0x1_0000_0000_0000_0000

  datatype Step =
    | Draw(thread: nat, data: bool)  // fetch_add; data: not a NOISE_* type
    | Seal(thread: nat)              // encrypt under the key of that moment, if there is a session
    | Finalize                       // the session starts
    | NewKey                         // rekey_session replaces the key
    | Reset                          // rekey_session stores 1 in the counter

  /** An id drawn: in which era of the counter, at which place of it. */
  datatype Ticket = Ticket(era: nat, pos: nat, id: nat, data: bool)

  datatype Sealed = Sealed(epoch: nat, ticket: Ticket)

  /** era counts resets of the counter, drawn the ids drawn since the last one; epoch counts keys. */
  datatype Conn = Conn(nextId: nat, era: nat, drawn: nat, epoch: nat, session: bool, held: map<nat, Ticket>,
                       sealed: seq<Sealed>)

  const START := Conn(0, 0, 0, 0, false, map[], [])

  function Act(c: Conn, s: Step): Conn {
    match s
    case Draw(t, data) =>
      if t in c.held then c
      else c.(held := c.held[t := Ticket(c.era, c.drawn, c.nextId, data)], nextId := (c.nextId + 1) % IDS,
              drawn := c.drawn + 1)
    case Seal(t) =>
      if t !in c.held then c
      else
        var c' := c.(held := c.held - {t});
        if c.session && c.held[t].data then c'.(sealed := c.sealed + [Sealed(c.epoch, c.held[t])]) else c'
    case Finalize => c.(session := true)
    case NewKey => if c.session then c.(epoch := c.epoch + 1) else c
    case Reset => if c.era < c.epoch then c.(nextId := 1, era := c.era + 1, drawn := 0) else c
  }

  function Run(steps: seq<Step>): Conn {
    if steps == [] then START else Act(Run(steps[..|steps| - 1]), steps[|steps| - 1])
  }

  /** The first id of an era: 0 for a new connection, 1 after a rekey. */
  function First(era: nat): nat { if era == 0 then 0 else 1 }

  /** No era of the counter has drawn more ids than there are. */
  predicate Roomy(steps: seq<Step>) {
    (steps == [] || Roomy(steps[..|steps| - 1])) && var c := Run(steps); First(c.era) + c.drawn <= IDS
  }

  /** Fewer steps than 2^64 leave room. */
  lemma {:induction false} ShortIsRoomy(steps: seq<Step>)
    requires |steps| < IDS
    ensures Roomy(steps) && First(Run(steps).era) + Run(steps).drawn <= |steps|
    decreases |steps|
  {
    if steps != [] {
      ShortIsRoomy(steps[..|steps| - 1]);
    }
  }

  // ---- Every ticket is one of a kind ----

  predicate Before(t: Ticket, c: Conn) { t.era < c.era || (t.era == c.era && t.pos < c.drawn) }

  predicate SamePlace(a: Ticket, b: Ticket) { a.era == b.era && a.pos == b.pos }

  /** The id of a ticket is told by its place. */
  predicate Numbered(t: Ticket) { t.id == First(t.era) + t.pos }

  ghost predicate HeldOk(c: Conn) {
    && (forall t :: t in c.held ==> Before(c.held[t], c) && Numbered(c.held[t]))
    && (forall t, u :: t in c.held && u in c.held && t != u ==> !SamePlace(c.held[t], c.held[u]))
  }

  ghost predicate SealedOk(c: Conn) {
    && (forall i :: 0 <= i < |c.sealed| ==> Before(c.sealed[i].ticket, c) && Numbered(c.sealed[i].ticket))
    && (forall i, j :: 0 <= i < j < |c.sealed| ==> !SamePlace(c.sealed[i].ticket, c.sealed[j].ticket))
  }

  ghost predicate Apart(c: Conn) {
    forall t, i :: t in c.held && 0 <= i < |c.sealed| ==> !SamePlace(c.held[t], c.sealed[i].ticket)
  }

  ghost predicate Inv(c: Conn) {
    c.nextId == (First(c.era) + c.drawn) % IDS && HeldOk(c) && SealedOk(c) && Apart(c)
  }

  lemma DrawKeepsInv(c: Conn, t: nat, data: bool)
    requires Inv(c) && First(c.era) + c.drawn + 1 <= IDS
    ensures Inv(Act(c, Draw(t, data)))
  {
    if t !in c.held {
      var c' := Act(c, Draw(t, data));
      assert forall u :: u in c'.held && u != t ==> c'.held[u] == c.held[u];
      assert HeldOk(c') && SealedOk(c') && Apart(c');
    }
  }

  lemma SealedSnoc(c: Conn, t: nat, c': Conn)
    requires Inv(c) && t in c.held && c'.era == c.era && c'.drawn == c.drawn
    requires c'.sealed == c.sealed + [Sealed(c.epoch, c.held[t])]
    ensures SealedOk(c')
  {
    assert forall i :: 0 <= i < |c.sealed| ==> c'.sealed[i] == c.sealed[i];
  }

  lemma SealKeepsInv(c: Conn, t: nat)
    requires Inv(c)
    ensures Inv(Act(c, Seal(t)))
  {
    if t in c.held {
      var c' := Act(c, Seal(t));
      assert forall u :: u in c'.held ==> u in c.held && u != t && c'.held[u] == c.held[u];
      if c'.sealed != c.sealed {
        SealedSnoc(c, t, c');
      }
    }
  }

  lemma ActKeepsInv(c: Conn, s: Step)
    requires Inv(c) && (s.Draw? ==> First(c.era) + c.drawn + 1 <= IDS)
    ensures Inv(Act(c, s))
  {
    match s
    case Draw(t, data) => DrawKeepsInv(c, t, data);
    case Seal(t) => SealKeepsInv(c, t);
    case _ =>
  }

  lemma {:induction false} RunKeepsInv(steps: seq<Step>)
    requires Roomy(steps)
    ensures Inv(Run(steps))
    decreases |steps|
  {
    if steps != [] {
      var front, s := steps[..|steps| - 1], steps[|steps| - 1];
      RunKeepsInv(front);
      if !(s.Draw? && s.thread in Run(front).held) {
        ActKeepsInv(Run(front), s);
      }
    }
  }

  // ---- The id law ----

  /** No two frames sealed under one key share an id, and none has id 0. */
  ghost predicate LawHolds(c: Conn) {
    && (forall i :: 0 <= i < |c.sealed| ==> c.sealed[i].ticket.id != 0)
    && (forall i, j :: 0 <= i < j < |c.sealed| && c.sealed[i].epoch == c.sealed[j].epoch ==>
          c.sealed[i].ticket.id != c.sealed[j].ticket.id)
  }

  /** No rekey came between the draw and the seal of a frame, and none of them inside a rekey. */
  ghost predicate Timely(c: Conn) { forall i :: 0 <= i < |c.sealed| ==> c.sealed[i].ticket.era == c.sealed[i].epoch }

  /** The very first id of the connection was drawn for a frame that was then sealed. */
  ghost predicate FirstSealed(c: Conn) { exists i :: 0 <= i < |c.sealed| && c.sealed[i].ticket.era == 0 && c.sealed[i].ticket.pos == 0 }

  /**
   Under every interleaving of any number of senders and rekeys, if no era runs out of ids and no
   rekey comes between a draw and its seal, the law holds exactly when the first id of the
   connection was not used to seal.
   */
  lemma LawIff(steps: seq<Step>)
    requires Roomy(steps) && Timely(Run(steps))
    ensures LawHolds(Run(steps)) <==> !FirstSealed(Run(steps))
  {
    RunKeepsInv(steps);
    if FirstSealed(Run(steps)) {
      ZeroSealed(Run(steps));
    } else {
      NoZeroSealed(Run(steps));
    }
  }

  lemma ZeroSealed(c: Conn)
    requires SealedOk(c) && FirstSealed(c)
    ensures !LawHolds(c)
  {
    var i :| 0 <= i < |c.sealed| && c.sealed[i].ticket.era == 0 && c.sealed[i].ticket.pos == 0;
    assert Numbered(c.sealed[i].ticket);
  }

  lemma NoZeroSealed(c: Conn)
    requires SealedOk(c) && Timely(c) && !FirstSealed(c)
    ensures LawHolds(c)
  {
    forall i | 0 <= i < |c.sealed|
      ensures c.sealed[i].ticket.id != 0
    {
      assert Numbered(c.sealed[i].ticket);
    }
    forall i, j | 0 <= i < j < |c.sealed| && c.sealed[i].epoch == c.sealed[j].epoch
      ensures c.sealed[i].ticket.id != c.sealed[j].ticket.id
    {
      assert Numbered(c.sealed[i].ticket) && Numbered(c.sealed[j].ticket);
      assert !SamePlace(c.sealed[i].ticket, c.sealed[j].ticket);
    }
  }

  lemma RunSnoc(steps: seq<Step>, s: Step)
    ensures Run(steps + [s]) == Act(Run(steps), s)
  {
    assert (steps + [s])[..|steps|] == steps;
  }

  /** A handshake message, a session, an id drawn for a frame, and then a rekey. */
  const DRAWN: seq<Step> := [] + [Draw(0, false)] + [Finalize] + [Seal(0)] + [Draw(0, true)]
  const REKEYED: seq<Step> := DRAWN + [NewKey] + [Reset]

  lemma AfterDrawn()
    ensures Run(DRAWN) == Conn(2, 0, 2, 0, true, map[0 := Ticket(0, 1, 1, true)], [])
  {
    RunSnoc([], Draw(0, false));
    RunSnoc([] + [Draw(0, false)], Finalize);
    RunSnoc([] + [Draw(0, false)] + [Finalize], Seal(0));
    RunSnoc([] + [Draw(0, false)] + [Finalize] + [Seal(0)], Draw(0, true));
  }

  lemma AfterRekeyed()
    ensures Run(REKEYED) == Conn(1, 1, 0, 1, true, map[0 := Ticket(0, 1, 1, true)], [])
  {
    AfterDrawn();
    RunSnoc(DRAWN, NewKey);
    RunSnoc(DRAWN + [NewKey], Reset);
  }

  /** A rekey between the draw and the seal puts an old id under the new key, where it comes round again. */
  lemma RekeyBetween()
    ensures var steps := REKEYED + [Draw(1, true)] + [Seal(0)] + [Seal(1)];
            Roomy(steps) && !FirstSealed(Run(steps)) && !Timely(Run(steps)) && !LawHolds(Run(steps))
  {
    var steps := REKEYED + [Draw(1, true)] + [Seal(0)] + [Seal(1)];
    ShortIsRoomy(steps);
    AfterRekeyed();
    RunSnoc(REKEYED, Draw(1, true));
    RunSnoc(REKEYED + [Draw(1, true)], Seal(0));
    RunSnoc(REKEYED + [Draw(1, true)] + [Seal(0)], Seal(1));
    assert Run(steps).sealed == [Sealed(1, Ticket(0, 1, 1, true)), Sealed(1, Ticket(1, 0, 1, true))];
    assert Run(steps).sealed[0].ticket.id == Run(steps).sealed[1].ticket.id;
  }
}
