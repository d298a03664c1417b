/** The packet counter of one connection, and what it buys the receiving end. */
module EndToEnd {
  import opened Bytes
  import opened NoiseSpec
  import opened NoiseAuthentic
  import opened ReplayWindow
  import opened Session

  const IDS: nat := 0x1_0000_0000_0000_0000

  /** What can happen to a connection's sending side, one atomic action each. */
  datatype Event =
    | HandshakeFrame            // send_frame of a NOISE_* type, which is never encrypted
    | DataFrame(plain: Bytes)   // send_frame of anything else
    | Finalize                  // finalize_handshake
    | Rekey                     // rekey_session
    | Shutdown

  datatype Sent = Sent(epoch: nat, pid: nat, plain: Bytes)

  /** sent logs the frames that were encrypted, with the key epoch they were encrypted in. */
  datatype Conn = Conn(nextId: nat, session: bool, localhost: bool, stopped: bool, epoch: nat, sent: seq<Sent>)

  function Fresh0(localhost: bool): Conn { Conn(0, false, localhost, false, 0, []) }

  /** fetch_add on the 64-bit counter. */
  function Take(c: Conn): Conn { c.(nextId := (c.nextId + 1) % IDS) }

  function Act(c: Conn, e: Event): Conn {
    match e
    case HandshakeFrame => if c.stopped then c else Take(c)
    case DataFrame(plain) =>
      if c.stopped then c
      else if c.session && !c.localhost then Take(c).(sent := c.sent + [Sent(c.epoch, c.nextId, plain)])
      else Take(c)
    case Finalize => c.(session := true)
    case Rekey => if c.session then c.(nextId := 1, epoch := c.epoch + 1) else c
    case Shutdown => c.(stopped := true)
  }

  function RunEvents(c: Conn, es: seq<Event>): Conn {
    if es == [] then c else Act(RunEvents(c, es[..|es| - 1]), es[|es| - 1])
  }

  /** The frames a run encrypts. */
  function Encrypted(localhost: bool, es: seq<Event>): seq<Sent> { RunEvents(Fresh0(localhost), es).sent }

  ghost predicate IdsUnique(sent: seq<Sent>) {
    && (forall i :: 0 <= i < |sent| ==> sent[i].pid > 0)
    && (forall i, j :: 0 <= i < j < |sent| && sent[i].epoch == sent[j].epoch ==> sent[i].pid < sent[j].pid)
  }

  // ---- Which frames are encrypted ----

  predicate Started(es: seq<Event>) { exists i :: 0 <= i < |es| && es[i].Finalize? }

  predicate Halted(es: seq<Event>) { exists i :: 0 <= i < |es| && es[i].Shutdown? }

  /** The payloads given to a session between its start and the shutdown. */
  function Owed(es: seq<Event>): seq<Bytes> {
    if es == [] then []
    else
      var front, e := es[..|es| - 1], es[|es| - 1];
      if e.DataFrame? && Started(front) && !Halted(front) then Owed(front) + [e.plain] else Owed(front)
  }

  lemma StartedSnoc(es: seq<Event>)
    requires es != []
    ensures Started(es) <==> Started(es[..|es| - 1]) || es[|es| - 1].Finalize?
    ensures Halted(es) <==> Halted(es[..|es| - 1]) || es[|es| - 1].Shutdown?
  {
    var front := es[..|es| - 1];
    assert forall i :: 0 <= i < |front| ==> front[i] == es[i];
  }

  /** Over any run the frames encrypted are exactly those owed, in order; on a local connection none is. */
  lemma {:induction false} SentIsOwed(localhost: bool, es: seq<Event>)
    ensures var sent, owed := Encrypted(localhost, es), Owed(es);
            if localhost then sent == []
            else |sent| == |owed| && forall i :: 0 <= i < |sent| ==> sent[i].plain == owed[i]
    ensures var c := RunEvents(Fresh0(localhost), es);
            (c.session <==> Started(es)) && (c.stopped <==> Halted(es)) && c.localhost == localhost
    decreases |es|
  {
    if es != [] {
      SentIsOwed(localhost, es[..|es| - 1]);
      StartedSnoc(es);
    }
  }

  // ---- Counting events: how many ids each epoch uses ----

  /**
   first: the id the current epoch starts from, unbounded; drawn: ids drawn in it so far; used: how
   many of them lie up to and including the last one a frame was encrypted under.
   */
  datatype Meter = Meter(session: bool, stopped: bool, first: nat, drawn: nat, used: nat)

  function Count(m: Meter, e: Event): Meter {
    match e
    case HandshakeFrame =>
      if m.stopped then m else if m.session then m.(drawn := m.drawn + 1) else m.(first := m.first + 1)
    case DataFrame(_) =>
      if m.stopped then m
      else if m.session then m.(drawn := m.drawn + 1, used := m.drawn + 1)
      else m.(first := m.first + 1)
    case Finalize => m.(session := true)
    case Rekey => if m.session then m.(first := 1, drawn := 0, used := 0) else m
    case Shutdown => m.(stopped := true)
  }

  function Counted(es: seq<Event>): Meter {
    if es == [] then Meter(false, false, 0, 0, 0) else Count(Counted(es[..|es| - 1]), es[|es| - 1])
  }

  /** The first id of the epoch, in 64 bits, is not 0, and the ids used fit above it. */
  predicate Fits(m: Meter) { m.used > 0 ==> 1 <= m.first % IDS && m.first % IDS + m.used <= IDS }

  /** So at every point of the run, that is, for every epoch. */
  predicate AllFit(es: seq<Event>) { (es == [] || AllFit(es[..|es| - 1])) && Fits(Counted(es)) }

  /** No handshake message is sent once there is a session: the core itself never does. */
  predicate Orderly(es: seq<Event>) {
    es == [] || (Orderly(es[..|es| - 1]) && !(es[|es| - 1].HandshakeFrame? && Counted(es[..|es| - 1]).session))
  }

  /** The counter of the connection is the meter's, in 64 bits. */
  ghost predicate Linked(c: Conn, m: Meter) {
    && c.session == m.session && c.stopped == m.stopped && c.nextId == (m.first + m.drawn) % IDS
    && m.used <= m.drawn && (!m.session ==> m.drawn == 0)
  }

  lemma ActLinked(c: Conn, m: Meter, e: Event)
    requires Linked(c, m)
    ensures Linked(Act(c, e), Count(m, e))
  {
    NextMod(m.first + m.drawn);
  }

  lemma NextMod(n: nat)
    ensures (n % IDS + 1) % IDS == (n + 1) % IDS
  {
  }

  lemma {:induction false} RunLinked(localhost: bool, es: seq<Event>)
    ensures var c := RunEvents(Fresh0(localhost), es); Linked(c, Counted(es)) && c.localhost == localhost
    decreases |es|
  {
    if es != [] {
      RunLinked(localhost, es[..|es| - 1]);
      ActLinked(RunEvents(Fresh0(localhost), es[..|es| - 1]), Counted(es[..|es| - 1]), es[|es| - 1]);
    }
  }

  /** Ids of the current epoch lie between its first one and the next one. */
  ghost predicate Tidy(c: Conn, m: Meter) {
    && IdsUnique(c.sent)
    && (forall i :: 0 <= i < |c.sent| ==> c.sent[i].epoch <= c.epoch)
    && (forall i :: 0 <= i < |c.sent| && c.sent[i].epoch == c.epoch ==> m.session && c.sent[i].pid < m.first % IDS + m.used)
  }

  function OneMore(m: Meter): Meter { m.(drawn := m.drawn + 1, used := m.drawn + 1) }

  /** The id of a frame that still fits, and of the first one that does not. */
  lemma NextId(m: Meter)
    requires Fits(m) && m.used <= m.drawn
    ensures Fits(OneMore(m)) ==> (m.first + m.drawn) % IDS == m.first % IDS + m.drawn > 0
    ensures !Fits(OneMore(m)) && m.used == m.drawn ==> (m.first + m.drawn) % IDS == 0
  {
    var q, r := m.first / IDS, m.first % IDS;
    assert m.first + m.drawn == q * IDS + (r + m.drawn);
  }

  /** One more encrypted frame. */
  lemma FrameTidy(c: Conn, m: Meter, plain: Bytes)
    requires Tidy(c, m) && m.session && m.used <= m.drawn && c.nextId == m.first % IDS + m.drawn > 0
    ensures Tidy(Take(c).(sent := c.sent + [Sent(c.epoch, c.nextId, plain)]), OneMore(m))
  {
  }

  lemma ActTidy(c: Conn, m: Meter, e: Event)
    requires Linked(c, m) && Tidy(c, m) && Fits(m) && (c.localhost || Fits(Count(m, e)))
    requires c.localhost ==> c.sent == []
    ensures Tidy(Act(c, e), Count(m, e))
  {
    if e.DataFrame? && !c.stopped && c.session && !c.localhost {
      NextId(m);
      FrameTidy(c, m, e.plain);
    }
  }

  lemma {:induction false} RunTidy(localhost: bool, es: seq<Event>)
    requires AllFit(es)
    ensures Tidy(RunEvents(Fresh0(localhost), es), Counted(es))
    ensures localhost ==> Encrypted(localhost, es) == []
    decreases |es|
  {
    if es != [] {
      var front := es[..|es| - 1];
      RunTidy(localhost, front);
      RunLinked(localhost, front);
      ActTidy(RunEvents(Fresh0(localhost), front), Counted(front), es[|es| - 1]);
    }
  }

  lemma {:induction false} LocalhostInClear(es: seq<Event>)
    ensures Encrypted(true, es) == []
    decreases |es|
  {
    RunLinked(true, es);
    if es != [] {
      LocalhostInClear(es[..|es| - 1]);
      RunLinked(true, es[..|es| - 1]);
    }
  }

  lemma PrefixUnique(a: seq<Sent>, b: seq<Sent>)
    requires a <= b && IdsUnique(b)
    ensures IdsUnique(a)
  {
  }

  /** In an orderly run every id drawn in a session is used. */
  lemma {:induction false} OrderlyUses(es: seq<Event>)
    requires Orderly(es)
    ensures Counted(es).used == Counted(es).drawn
    decreases |es|
  {
    if es != [] {
      OrderlyUses(es[..|es| - 1]);
    }
  }

  /** The first frame that does not fit is encrypted under id 0. */
  lemma MisfitIsZero(c: Conn, m: Meter, e: Event)
    requires Linked(c, m) && Fits(m) && m.used == m.drawn && !c.localhost && !Fits(Count(m, e))
    ensures !IdsUnique(Act(c, e).sent)
  {
    NextId(m);
    assert e.DataFrame? && !c.stopped && c.session;
    assert Act(c, e).sent[|c.sent|].pid == 0;
  }

  lemma {:induction false} UniqueFits(es: seq<Event>)
    requires Orderly(es) && IdsUnique(Encrypted(false, es))
    ensures AllFit(es)
    decreases |es|
  {
    if es != [] {
      var front, e := es[..|es| - 1], es[|es| - 1];
      var c := RunEvents(Fresh0(false), front);
      RunLinked(false, front);
      OrderlyUses(front);
      PrefixUnique(c.sent, Act(c, e).sent);
      UniqueFits(front);
      if !Fits(Counted(es)) {
        MisfitIsZero(c, Counted(front), e);
      }
    }
  }

  /**
   The id law: over any run of handshake sends, data sends, rekeys and shutdown, no two frames
   encrypted in one key epoch share an id and none uses 0, the id the window refuses, if each epoch
   starts from a positive id and its ids stay within 2^64. In an orderly run, only if.
   */
  lemma UniqueIff(localhost: bool, es: seq<Event>)
    ensures localhost || AllFit(es) ==> IdsUnique(Encrypted(localhost, es))
    ensures Orderly(es) ==> (IdsUnique(Encrypted(localhost, es)) <==> localhost || AllFit(es))
  {
    if localhost {
      LocalhostInClear(es);
    } else if AllFit(es) {
      RunTidy(false, es);
    } else if Orderly(es) && IdsUnique(Encrypted(false, es)) {
      UniqueFits(es);
    }
  }

  predicate Wrote(es: seq<Event>) { exists i :: 0 <= i < |es| && es[i].HandshakeFrame? }

  /** A handshake message is sent before the session starts. */
  predicate WroteFirst(es: seq<Event>) {
    es == [] || (WroteFirst(es[..|es| - 1]) && (es[|es| - 1].Finalize? ==> Wrote(es[..|es| - 1])))
  }

  lemma WroteSnoc(es: seq<Event>)
    requires es != []
    ensures Wrote(es) <==> Wrote(es[..|es| - 1]) || es[|es| - 1].HandshakeFrame?
  {
    var front := es[..|es| - 1];
    if Wrote(front) {
      var i :| 0 <= i < |front| && front[i].HandshakeFrame?;
      assert es[i].HandshakeFrame?;
    }
    if Wrote(es) {
      var i :| 0 <= i < |es| && es[i].HandshakeFrame?;
      assert i < |es| - 1 ==> front[i].HandshakeFrame?;
    }
  }

  /** Fewer events than 2^64 fit, as long as a handshake message is sent before the session starts. */
  lemma {:induction false} ShortRunFits(es: seq<Event>)
    requires |es| < IDS && WroteFirst(es)
    ensures AllFit(es)
    ensures var m := Counted(es);
            && m.first + m.drawn <= |es| && m.used <= m.drawn && (m.session ==> Wrote(es))
            && (Wrote(es) ==> m.first >= 1 || m.stopped) && (m.used > 0 ==> m.first >= 1)
    decreases |es|
  {
    if es != [] {
      ShortRunFits(es[..|es| - 1]);
      WroteSnoc(es);
    }
  }

  // ---- The two ways to fail ----

  /** A session before any frame: its first frame is encrypted under id 0. */
  lemma StartsAtZero(plain: Bytes)
    ensures var es := [Finalize, DataFrame(plain)];
            Encrypted(false, es) == [Sent(0, 0, plain)] && Orderly(es) && !AllFit(es) && !IdsUnique(Encrypted(false, es))
  {
    var es := [Finalize, DataFrame(plain)];
    assert es[..1] == [Finalize] && es[..1][..0] == [];
    assert Counted(es[..1]) == Meter(true, false, 0, 0, 0);
    assert RunEvents(Fresh0(false), es[..1]) == Conn(0, true, false, false, 0, []);
    assert Encrypted(false, es)[0].pid == 0;
  }

  /** n frames after a handshake message and a session. */
  function Repeat(plain: Bytes, n: nat): seq<Event> {
    if n == 0 then [HandshakeFrame, Finalize] else Repeat(plain, n - 1) + [DataFrame(plain)]
  }

  lemma {:induction false} RepeatCounted(plain: Bytes, n: nat)
    ensures Counted(Repeat(plain, n)) == Meter(true, false, 1, n, n) && Orderly(Repeat(plain, n))
    ensures AllFit(Repeat(plain, n)) <==> n < IDS
    decreases n
  {
    var es := Repeat(plain, n);
    if n == 0 {
      assert es[..1] == [HandshakeFrame] && es[..1][..0] == [];
      assert Counted(es[..1]) == Meter(false, false, 1, 0, 0);
      assert Wrote(es[..1]) by {
        assert es[..1][0].HandshakeFrame?;
      }
      ShortRunFits(es);
    } else {
      RepeatCounted(plain, n - 1);
      assert es[..|es| - 1] == Repeat(plain, n - 1);
    }
  }

  /** The law holds of that run exactly for n below 2^64. */
  lemma WrapsAt(plain: Bytes, n: nat)
    ensures IdsUnique(Encrypted(false, Repeat(plain, n))) <==> n < IDS
  {
    RepeatCounted(plain, n);
    UniqueIff(false, Repeat(plain, n));
  }

  // ---- Across the wire ----

  /** What reaches the receiver: a frame the sender encrypted, by index, or anything else. */
  datatype Arrival = Genuine(index: nat) | Foreign(frame: Frame)

  predicate Within(arrivals: seq<Arrival>, n: nat) {
    forall i :: 0 <= i < |arrivals| && arrivals[i].Genuine? ==> arrivals[i].index < n
  }

  function OnWire(suite: Suite, z: Zstd, c: Compression, key: Bytes, sent: seq<Sent>, a: Arrival): Frame
    requires a.Genuine? ==> a.index < |sent|
  {
    match a
    case Genuine(i) => Seal(suite, z, c, key, sent[i].pid, sent[i].plain)
    case Foreign(f) => f
  }

  /** The frames of one key epoch, and others, as they arrive. */
  function Wire(suite: Suite, z: Zstd, c: Compression, key: Bytes, sent: seq<Sent>, arrivals: seq<Arrival>): seq<Frame>
    requires Within(arrivals, |sent|)
  {
    if arrivals == [] then []
    else
      var n := |arrivals| - 1;
      Wire(suite, z, c, key, sent, arrivals[..n]) + [OnWire(suite, z, c, key, sent, arrivals[n])]
  }

  lemma {:induction false} WireAt(suite: Suite, z: Zstd, c: Compression, key: Bytes, sent: seq<Sent>, arrivals: seq<Arrival>)
    requires Within(arrivals, |sent|)
    ensures |Wire(suite, z, c, key, sent, arrivals)| == |arrivals|
    ensures forall k :: 0 <= k < |arrivals| ==>
              Wire(suite, z, c, key, sent, arrivals)[k] == OnWire(suite, z, c, key, sent, arrivals[k])
    decreases |arrivals|
  {
    if arrivals != [] {
      var n := |arrivals| - 1;
      WireAt(suite, z, c, key, sent, arrivals[..n]);
      assert forall k :: 0 <= k < n ==> arrivals[..n][k] == arrivals[k];
    }
  }

  /**
   End to end within a key epoch, in any order, with any losses, repeats (a batch resent on the next
   path included) and foreign frames: what is handed on of a genuine frame is its original, non-empty
   payload, and no genuine frame is handed on twice.
   */
  lemma AtMostOnce(suite: Suite, z: Zstd, c: Compression, key: Bytes, sent: seq<Sent>, arrivals: seq<Arrival>)
    requires suite.Lawful() && z.Lawful() && Within(arrivals, |sent|)
    ensures var outs := Receive(suite, z, key, Wire(suite, z, c, key, sent, arrivals)).1;
            && |outs| == |arrivals|
            && (forall k :: 0 <= k < |arrivals| && arrivals[k].Genuine? && outs[k].Some? ==>
                  outs[k].value == sent[arrivals[k].index].plain && outs[k].value != [])
            && (forall i, j :: 0 <= i < j < |arrivals| && arrivals[i].Genuine? && outs[i].Some? && outs[j].Some? ==>
                  arrivals[i] != arrivals[j])
  {
    var fs := Wire(suite, z, c, key, sent, arrivals);
    var outs := Receive(suite, z, key, fs).1;
    WireAt(suite, z, c, key, sent, arrivals);
    ReceiveRepresents(suite, z, key, fs);
    forall k | 0 <= k < |arrivals| && arrivals[k].Genuine? && outs[k].Some?
      ensures outs[k].value == sent[arrivals[k].index].plain && outs[k].value != []
    {
      var s := sent[arrivals[k].index];
      HandedOnIff(suite, z, c, key, fs, k, s.pid, s.plain);
    }
    forall i, j | 0 <= i < j < |arrivals| && arrivals[i].Genuine? && outs[i].Some? && outs[j].Some?
      ensures arrivals[i] != arrivals[j]
    {
      IdHandedOnOnce(suite, z, key, fs, i, j);
    }
  }

  /** A foreign frame that carries the id or one 256 or more above it, and is long enough to matter. */
  predicate Shadows(f: Frame, pid: nat) { ReachesWindow(f) && (f.pid == pid || f.pid >= pid + WINDOW) }

  /**
   The arrival is the first of its frame, nothing before it, genuine or foreign, has moved the window
   past it or taken its id, and its payload can be restored.
   */
  ghost predicate Deliverable(z: Zstd, c: Compression, sent: seq<Sent>, arrivals: seq<Arrival>, k: nat)
    requires Within(arrivals, |sent|) && k < |arrivals| && arrivals[k].Genuine?
  {
    var s := sent[arrivals[k].index];
    && (forall i :: 0 <= i < k ==>
          match arrivals[i]
          case Genuine(j) => j != arrivals[k].index && sent[j].pid < s.pid + WINDOW
          case Foreign(f) => !Shadows(f, s.pid))
    && Restorable(z, c, s.plain)
  }

  lemma SealReaches(suite: Suite, z: Zstd, c: Compression, key: Bytes, pid: nat, plain: Bytes)
    requires suite.Lawful()
    ensures ReachesWindow(Seal(suite, z, c, key, pid, plain))
  {
    var body := Pack(z, c, plain);
    assert |suite.seal(key, pid, [], body)| == |body| + MACLEN;
  }

  /** What shadows an id among the arrivals is what shadows it among their frames. */
  lemma DeliverableIff(suite: Suite, z: Zstd, c: Compression, key: Bytes, sent: seq<Sent>, arrivals: seq<Arrival>,
                       k: nat, epoch: nat)
    requires suite.Lawful() && Within(arrivals, |sent|) && k < |arrivals| && arrivals[k].Genuine?
    requires IdsUnique(sent) && forall i :: 0 <= i < |sent| ==> sent[i].epoch == epoch
    ensures var s := sent[arrivals[k].index];
            var fs := Wire(suite, z, c, key, sent, arrivals);
            |fs| == |arrivals| &&
            (Deliverable(z, c, sent, arrivals, k) <==> Unshadowed(fs[..k], s.pid) && Restorable(z, c, s.plain))
  {
    var s := sent[arrivals[k].index];
    var fs := Wire(suite, z, c, key, sent, arrivals);
    WireAt(suite, z, c, key, sent, arrivals);
    forall i | 0 <= i < k
      ensures fs[..k][i] == OnWire(suite, z, c, key, sent, arrivals[i])
      ensures arrivals[i].Genuine? ==> ReachesWindow(fs[..k][i])
      ensures arrivals[i].Genuine? ==> (sent[arrivals[i].index].pid == s.pid <==> arrivals[i].index == arrivals[k].index)
    {
      if arrivals[i].Genuine? {
        SealReaches(suite, z, c, key, sent[arrivals[i].index].pid, sent[arrivals[i].index].plain);
      }
    }
  }

  // ---- From a sender's run to the receiver ----

  /** The frames of a run that were encrypted in epoch e, in order. */
  function InEpoch(sent: seq<Sent>, e: nat): seq<Sent> {
    if sent == [] then []
    else
      var last := sent[|sent| - 1];
      InEpoch(sent[..|sent| - 1], e) + if last.epoch == e then [last] else []
  }

  lemma {:induction false} InEpochUnique(sent: seq<Sent>, e: nat)
    requires IdsUnique(sent)
    ensures IdsUnique(InEpoch(sent, e))
    ensures forall i :: 0 <= i < |InEpoch(sent, e)| ==> InEpoch(sent, e)[i].epoch == e && InEpoch(sent, e)[i] in sent
    decreases |sent|
  {
    if sent != [] {
      var n := |sent| - 1;
      InEpochUnique(sent[..n], e);
      var front := InEpoch(sent[..n], e);
      assert sent[n] in sent && |front| <= |InEpoch(sent, e)|;
      forall i | 0 <= i < |front|
        ensures front[i] in sent && (sent[n].epoch == e ==> front[i].pid < sent[n].pid)
      {
        var j :| 0 <= j < n && sent[..n][j] == front[i];
        assert sent[j] == front[i];
      }
    }
  }

  /** Every genuine arrival is handed on, with its own payload, exactly when it is deliverable. */
  ghost predicate RightlyHandedOn(z: Zstd, c: Compression, sent: seq<Sent>, arrivals: seq<Arrival>,
                                  outs: seq<Option<Bytes>>)
    requires Within(arrivals, |sent|)
  {
    && |outs| == |arrivals|
    && (forall k :: 0 <= k < |arrivals| && arrivals[k].Genuine? ==>
          outs[k] == if Deliverable(z, c, sent, arrivals, k) then Some(sent[arrivals[k].index].plain) else None)
  }

  lemma DeliveredExactly(suite: Suite, z: Zstd, c: Compression, key: Bytes, sent: seq<Sent>, arrivals: seq<Arrival>, e: nat)
    requires suite.Lawful() && z.Lawful() && Within(arrivals, |sent|)
    requires IdsUnique(sent) && forall i :: 0 <= i < |sent| ==> sent[i].epoch == e
    ensures RightlyHandedOn(z, c, sent, arrivals, Receive(suite, z, key, Wire(suite, z, c, key, sent, arrivals)).1)
  {
    var fs := Wire(suite, z, c, key, sent, arrivals);
    WireAt(suite, z, c, key, sent, arrivals);
    ReceiveRepresents(suite, z, key, fs);
    forall k | 0 <= k < |arrivals| && arrivals[k].Genuine?
      ensures Receive(suite, z, key, fs).1[k]
              == if Deliverable(z, c, sent, arrivals, k) then Some(sent[arrivals[k].index].plain) else None
    {
      var s := sent[arrivals[k].index];
      HandedOnIff(suite, z, c, key, fs, k, s.pid, s.plain);
      DeliverableIff(suite, z, c, key, sent, arrivals, k, e);
    }
  }

  /** Any run of the sending side whose epochs fit, any epoch of it, any pattern of arrivals. */
  lemma EpochDelivery(suite: Suite, z: Zstd, c: Compression, key: Bytes, localhost: bool, es: seq<Event>, e: nat,
                      arrivals: seq<Arrival>)
    requires suite.Lawful() && z.Lawful() && (localhost || AllFit(es))
    requires Within(arrivals, |InEpoch(Encrypted(localhost, es), e)|)
    ensures var sent := InEpoch(Encrypted(localhost, es), e);
            RightlyHandedOn(z, c, sent, arrivals, Receive(suite, z, key, Wire(suite, z, c, key, sent, arrivals)).1)
  {
    UniqueIff(localhost, es);
    InEpochUnique(Encrypted(localhost, es), e);
    DeliveredExactly(suite, z, c, key, InEpoch(Encrypted(localhost, es), e), arrivals, e);
  }

  // ---- Foreign frames ----

  /** Of the foreign frames only those that are seals under the key and their own id are handed on. */
  ghost predicate OnlySeals(suite: Suite, key: Bytes, arrivals: seq<Arrival>, outs: seq<Option<Bytes>>) {
    && |outs| == |arrivals|
    && (forall k :: 0 <= k < |arrivals| && arrivals[k].Foreign? && outs[k].Some? ==> IsSeal(suite, key, arrivals[k].frame))
  }

  /** A foreign frame that is no seal under the key of the epoch and its own id is never handed on. */
  lemma ForgedRefused(suite: Suite, z: Zstd, c: Compression, key: Bytes, sent: seq<Sent>, arrivals: seq<Arrival>)
    requires Authentic(suite) && Within(arrivals, |sent|)
    ensures OnlySeals(suite, key, arrivals, Receive(suite, z, key, Wire(suite, z, c, key, sent, arrivals)).1)
  {
    var fs := Wire(suite, z, c, key, sent, arrivals);
    WireAt(suite, z, c, key, sent, arrivals);
    ReceiveRepresents(suite, z, key, fs);
    forall k | 0 <= k < |arrivals| && arrivals[k].Foreign? && Receive(suite, z, key, fs).1[k].Some?
      ensures IsSeal(suite, key, arrivals[k].frame)
    {
      OnlySealsHandedOn(suite, z, key, fs, k);
    }
  }
}
