/**
 The layers together: a handshake, rekeys on both sides, a run of the sending side, the frames it
 encrypts on a byte stream cut in any way, reassembly, and what is handed on at the other end.
 */
module Delivery {
  import opened Bytes
  import opened NoiseSpec
  import opened NoiseLockstep
  import opened NoiseAuthentic
  import opened Session
  import opened EndToEnd
  import Reassembly

  /** i and r are the two ends after three messages, each written by one side and read by the other. */
  ghost predicate Handshaken(suite: Suite, si: Bytes, sr: Bytes, p1: Bytes, p2: Bytes, p3: Bytes, ei: Bytes, er: Bytes,
                             i: Hs, r: Hs) {
    var x1 := Exchange(suite, Init(suite, true, suite.publicKey(si), si),
                       Init(suite, false, suite.publicKey(sr), sr), p1, ei);
    x1.Delivered? &&
    var x2 := Exchange(suite, x1.r, x1.w, p2, er);
    x2.Delivered? &&
    var x3 := Exchange(suite, x2.r, x2.w, p3, ei);
    x3.Delivered? && i == x3.w && r == x3.r
  }

  lemma HandshakenComplete(suite: Suite, si: Bytes, sr: Bytes, p1: Bytes, p2: Bytes, p3: Bytes, ei: Bytes, er: Bytes,
                           i: Hs, r: Hs)
    requires suite.Lawful() && Handshaken(suite, si, sr, p1, p2, p3, ei, er, i, r)
    ensures Complete(suite, i, r)
  {
    HandshakeLockstep(suite, si, sr, p1, p2, p3, ei, er);
  }

  /** The keys of the session that finalize_handshake makes of a handshake state. */
  function SessionKeys(suite: Suite, h: Hs): Keys { Keys(Split(suite, h).0.key, Split(suite, h).1.key) }

  /** After equally many rekeys each side opens what the other seals. */
  lemma KeysMeet(suite: Suite, i: Hs, r: Hs, rekeys: nat)
    requires Complete(suite, i, r)
    ensures Crossed(KeysAfter(suite, SessionKeys(suite, i), rekeys), KeysAfter(suite, SessionKeys(suite, r), rekeys))
  {
    RekeyKeepsCrossed(suite, SessionKeys(suite, i), SessionKeys(suite, r), rekeys);
  }

  function FrameOf(p: Reassembly.Packet): Frame { Frame(p.hdr.pid, p.payload) }

  function FramesOf(ps: seq<Reassembly.Packet>): seq<Frame> {
    if ps == [] then [] else FramesOf(ps[..|ps| - 1]) + [FrameOf(ps[|ps| - 1])]
  }

  /** Well-formed packets, of whatever type, around these frames. */
  ghost predicate Carries(ps: seq<Reassembly.Packet>, fs: seq<Frame>) {
    |ps| == |fs| && Reassembly.AllWellFormed(ps) && forall k :: 0 <= k < |ps| ==> FrameOf(ps[k]) == fs[k]
  }

  lemma {:induction false} FramesOfCarried(ps: seq<Reassembly.Packet>, fs: seq<Frame>)
    requires |ps| == |fs| && forall k :: 0 <= k < |ps| ==> FrameOf(ps[k]) == fs[k]
    ensures FramesOf(ps) == fs
    decreases |ps|
  {
    if ps != [] {
      var n := |ps| - 1;
      FramesOfCarried(ps[..n], fs[..n]);
      assert fs == fs[..n] + [fs[n]];
    }
  }

  /**
   From handshake to handler. The sender has rekeyed e times and so has the receiver; ps carry frames
   the sender encrypted in that epoch, in any order, some lost, some repeated, others among them;
   chunks is any cutting of their stream that fits the buffer. Then the receiver hands on a genuine
   frame, with the payload the sender was given, exactly when it is deliverable, and of the others
   none but seals under the key.
   */
  lemma SecureDelivery(suite: Suite, z: Zstd, c: Compression, sender: Hs, receiver: Hs, es: seq<Event>, e: nat,
                       arrivals: seq<Arrival>, ps: seq<Reassembly.Packet>, tail: Bytes, chunks: seq<Bytes>,
                       gone: seq<Reassembly.Packet> -> bool)
    requires suite.Lawful() && z.Lawful() && AllFit(es)
    requires Complete(suite, sender, receiver) || Complete(suite, receiver, sender)
    requires Within(arrivals, |InEpoch(Encrypted(false, es), e)|)
    requires Carries(ps, Wire(suite, z, c, KeysAfter(suite, SessionKeys(suite, sender), e).send,
                              InEpoch(Encrypted(false, es), e), arrivals))
    requires Reassembly.Stays([], ps, gone) && Reassembly.Stuck(tail)
    requires Reassembly.Concat(chunks) == Reassembly.Encode(ps) + tail && Reassembly.Fits(chunks, gone)
    ensures var got := FramesOf(Reassembly.FeedAll(chunks, gone).1);
            RightlyHandedOn(z, c, InEpoch(Encrypted(false, es), e), arrivals,
                            Receive(suite, z, KeysAfter(suite, SessionKeys(suite, receiver), e).recv, got).1)
    ensures var key := KeysAfter(suite, SessionKeys(suite, receiver), e).recv;
            var got := FramesOf(Reassembly.FeedAll(chunks, gone).1);
            Authentic(suite) ==> OnlySeals(suite, key, arrivals, Receive(suite, z, key, got).1)
  {
    var key := KeysAfter(suite, SessionKeys(suite, sender), e).send;
    if Complete(suite, sender, receiver) {
      KeysMeet(suite, sender, receiver, e);
    } else {
      KeysMeet(suite, receiver, sender, e);
    }
    Reassembly.StreamDelivered(ps, tail, chunks, gone);
    FramesOfCarried(ps, Wire(suite, z, c, key, InEpoch(Encrypted(false, es), e), arrivals));
    EpochDelivery(suite, z, c, key, false, es, e, arrivals);
    if Authentic(suite) {
      ForgedRefused(suite, z, c, key, InEpoch(Encrypted(false, es), e), arrivals);
    }
  }

  /** The same, from the static keys on, in the direction of either side. */
  lemma HandshakeToHandler(suite: Suite, z: Zstd, c: Compression, si: Bytes, sr: Bytes, p1: Bytes, p2: Bytes, p3: Bytes,
                           ei: Bytes, er: Bytes, i: Hs, r: Hs, toResponder: bool, es: seq<Event>, e: nat,
                           arrivals: seq<Arrival>, ps: seq<Reassembly.Packet>, tail: Bytes, chunks: seq<Bytes>,
                           gone: seq<Reassembly.Packet> -> bool)
    requires suite.Lawful() && z.Lawful() && AllFit(es)
    requires Handshaken(suite, si, sr, p1, p2, p3, ei, er, i, r)
    requires Within(arrivals, |InEpoch(Encrypted(false, es), e)|)
    requires Carries(ps, Wire(suite, z, c, KeysAfter(suite, SessionKeys(suite, if toResponder then i else r), e).send,
                              InEpoch(Encrypted(false, es), e), arrivals))
    requires Reassembly.Stays([], ps, gone) && Reassembly.Stuck(tail)
    requires Reassembly.Concat(chunks) == Reassembly.Encode(ps) + tail && Reassembly.Fits(chunks, gone)
    ensures var got := FramesOf(Reassembly.FeedAll(chunks, gone).1);
            RightlyHandedOn(z, c, InEpoch(Encrypted(false, es), e), arrivals,
                            Receive(suite, z, KeysAfter(suite, SessionKeys(suite, if toResponder then r else i), e).recv, got).1)
    ensures var key := KeysAfter(suite, SessionKeys(suite, if toResponder then r else i), e).recv;
            var got := FramesOf(Reassembly.FeedAll(chunks, gone).1);
            Authentic(suite) ==> OnlySeals(suite, key, arrivals, Receive(suite, z, key, got).1)
  {
    HandshakenComplete(suite, si, sr, p1, p2, p3, ei, er, i, r);
    if toResponder {
      SecureDelivery(suite, z, c, i, r, es, e, arrivals, ps, tail, chunks, gone);
    } else {
      SecureDelivery(suite, z, c, r, i, es, e, arrivals, ps, tail, chunks, gone);
    }
  }

  // ---- The hypotheses can be met ----

  const PLAIN_ONLY := Compression(false, 0, 0)

  lemma ToyExchanges(w: Hs, r: Hs, payload: Bytes, eph: Bytes)
    requires w.step < 3 && !Exchange(ToySuite(), w, r, payload, eph).Rejected?
    requires (w.step == 1 ==> !w.initiator) && (w.step == 2 ==> w.initiator)
    ensures Exchange(ToySuite(), w, r, payload, eph).Delivered?
  {
    if w.step == 1 {
      SecondRefusedIff(ToySuite(), w, payload, eph);
    } else if w.step == 2 {
      ThirdRefusedIff(ToySuite(), w, payload, eph);
    } else {
      assert XX[0] == [E] && [E][1..] == [];
      var h1 := WriteToken(ToySuite(), w, E, eph).0;
      assert WriteTokens(ToySuite(), h1, [], eph) == (h1, Some([]));
    }
  }

  /** A handshake over the toy suite goes through. */
  lemma ToyHandshake() returns (i: Hs, r: Hs)
    ensures Handshaken(ToySuite(), [], [], [], [], [], [], [], i, r)
  {
    var suite := ToySuite();
    LawsConsistent();
    XXUsable();
    var i0, r0 := Init(suite, true, suite.publicKey([]), []), Init(suite, false, suite.publicKey([]), []);
    FirstMessage(suite, i0, r0, [], []);
    var x1 := Exchange(suite, i0, r0, [], []);
    ExchangeLockstep(suite, x1.r, x1.w, Known(true, false, false, false), false, [], []);
    ToyExchanges(x1.r, x1.w, [], []);
    var x2 := Exchange(suite, x1.r, x1.w, [], []);
    ExchangeLockstep(suite, x2.r, x2.w, Known(true, false, true, true), true, [], []);
    ToyExchanges(x2.r, x2.w, [], []);
    var x3 := Exchange(suite, x2.r, x2.w, [], []);
    i, r := x3.w, x3.r;
  }

  const ONE_SEND: seq<Event> := [HandshakeFrame, Finalize, DataFrame([1])]

  lemma OneSend()
    ensures AllFit(ONE_SEND) && InEpoch(Encrypted(false, ONE_SEND), 0) == [Sent(0, 1, [1])]
  {
    var es := ONE_SEND;
    assert es == Repeat([1], 0) + [DataFrame([1])] == Repeat([1], 1);
    RepeatCounted([1], 1);
    assert es[..2][..1] == [HandshakeFrame] && es[..2][..1][..0] == [];
    assert RunEvents(Fresh0(false), es[..2][..1]) == Conn(1, false, false, false, 0, []);
    assert RunEvents(Fresh0(false), es[..2]) == Conn(1, true, false, false, 0, []);
    assert Encrypted(false, es) == [Sent(0, 1, [1])];
    assert [Sent(0, 1, [1])][..0] == [];
    assert InEpoch([], 0) == [];
  }

  /** The packet of a short frame. */
  function Boxed(f: Frame): Reassembly.Packet {
    Reassembly.Packet(Reassembly.Header(Reassembly.GNET_MAGIC, Reassembly.GNET_PROTO_VER, 0, 100, |f.wire|, f.pid), f.wire)
  }

  lemma OneBoxed(f: Frame, gone: seq<Reassembly.Packet> -> bool)
    requires |f.wire| <= 100 && f.pid == 1 && forall ps :: !gone(ps)
    ensures Carries([Boxed(f)], [f]) && Reassembly.Stays([], [Boxed(f)], gone)
    ensures var stream := Reassembly.Encode([Boxed(f)]);
            Reassembly.Concat([stream]) == stream + [] && Reassembly.Fits([stream], gone)
  {
    Pow256Values();
    var p := Boxed(f);
    var stream := Reassembly.Encode([p]);
    assert Reassembly.WellFormed(p);
    var chunks: seq<Bytes> := [stream];
    assert [p][1..] == [] && chunks[..0] == [];
    assert stream == Reassembly.WriteHeader(p.hdr) + p.payload + Reassembly.Encode([]);
    assert Reassembly.Concat([stream]) == Reassembly.Concat([]) + stream;
    assert Reassembly.Parse([], [], gone) == Reassembly.Parsed([], [], Reassembly.Pending);
  }

  lemma OneFrame(suite: Suite, z: Zstd, key: Bytes) returns (f: Frame)
    requires suite.Lawful()
    ensures Wire(suite, z, PLAIN_ONLY, key, [Sent(0, 1, [1])], [Genuine(0)]) == [f]
    ensures |f.wire| <= 100 && f.pid == 1
  {
    f := Seal(suite, z, PLAIN_ONLY, key, 1, [1]);
    WireAt(suite, z, PLAIN_ONLY, key, [Sent(0, 1, [1])], [Genuine(0)]);
    assert Pack(z, PLAIN_ONLY, [1]) == [FLAG_RAW] + [1];
    assert |suite.seal(key, 1, [], [FLAG_RAW] + [1])| == 18;
  }

  /**
   One frame meets every hypothesis of the theorem above that is not about the handshake, whatever the
   suite and the sender; ToyHandshake meets that one.
   */
  lemma HypothesesMet(suite: Suite, z: Zstd, sender: Hs) returns (ps: seq<Reassembly.Packet>, chunks: seq<Bytes>)
    requires suite.Lawful()
    ensures AllFit(ONE_SEND) && Within([Genuine(0)], |InEpoch(Encrypted(false, ONE_SEND), 0)|)
    ensures Carries(ps, Wire(suite, z, PLAIN_ONLY, KeysAfter(suite, SessionKeys(suite, sender), 0).send,
                             InEpoch(Encrypted(false, ONE_SEND), 0), [Genuine(0)]))
    ensures Reassembly.Stays([], ps, _ => false) && Reassembly.Stuck([])
    ensures Reassembly.Concat(chunks) == Reassembly.Encode(ps) + [] && Reassembly.Fits(chunks, _ => false)
  {
    OneSend();
    var f := OneFrame(suite, z, KeysAfter(suite, SessionKeys(suite, sender), 0).send);
    OneBoxed(f, _ => false);
    ps, chunks := [Boxed(f)], [Reassembly.Encode([Boxed(f)])];
  }
}
