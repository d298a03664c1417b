/**
 How an ICE agent tells its credentials and candidates to its peer: a 44-byte header and 24 bytes
 per candidate, the structures of a little-endian host copied as they lie in memory.
 */
module IceSignal {
  import opened Bytes
  import opened Stun
  import opened IceCandidates

  const SIGNAL_SIZE: nat := 44
  const WIRE_SIZE: nat := 24
  const UFRAG_SIZE: nat := 16
  const PWD_SIZE: nat := 24

  // ---- One candidate ----

  function Octets(ip: Address): (s: Bytes)
    ensures |s| == 16
  {
    match ip
    case V4(quad) => quad + Blank(12)
    case V6(octets) => octets
  }

  /** candidate_to_wire. */
  function ToWire(c: Candidate): (w: Bytes)
    ensures |w| == WIRE_SIZE
  {
    [c.kind, if c.endpoint.ip.V4? then 4 else 6] + LittleEndian(c.endpoint.port, 2) + LittleEndian(c.priority, 4) +
    Octets(c.endpoint.ip)
  }

  /** wire_to_candidate: every family but 4 is taken for IPv6. */
  function FromWire(w: Bytes): Candidate
    requires |w| == WIRE_SIZE
  {
    var ip := if w[1] == 4 then V4(w[8..12]) else V6(w[8..24]);
    Candidate(w[0], Mapped(ip, FromLittleEndian(w[2..4])), FromLittleEndian(w[4..8]))
  }

  lemma WireParts(kind: Byte, family: Byte, port: Bytes, priority: Bytes, octets: Bytes)
    requires |port| == 2 && |priority| == 4 && |octets| == 16
    ensures var w := [kind, family] + port + priority + octets;
            w[2..4] == port && w[4..8] == priority && w[8..24] == octets && w[8..12] == octets[..4]
  {
    var w := [kind, family] + port + priority + octets;
    assert w[8..24] == octets;
    assert w[8..12] == w[8..24][..4];
  }

  lemma WireRoundTrip(c: Candidate)
    requires Good(c)
    ensures FromWire(ToWire(c)) == c
  {
    Pow256Values();
    LittleEndianRoundTrip(c.endpoint.port, 2);
    LittleEndianRoundTrip(c.priority, 4);
    WireParts(c.kind, if c.endpoint.ip.V4? then 4 else 6, LittleEndian(c.endpoint.port, 2),
              LittleEndian(c.priority, 4), Octets(c.endpoint.ip));
    if c.endpoint.ip.V4? {
      assert Octets(c.endpoint.ip)[..4] == c.endpoint.ip.quad;
    }
  }

  // ---- Many candidates ----

  ghost predicate AllGood(cs: seq<Candidate>) { forall i :: 0 <= i < |cs| ==> Good(cs[i]) }

  function Wires(cs: seq<Candidate>): (s: Bytes)
    ensures |s| == WIRE_SIZE * |cs|
  {
    if cs == [] then [] else ToWire(cs[0]) + Wires(cs[1..])
  }

  function ReadWires(s: Bytes, n: nat): seq<Candidate>
    requires |s| >= WIRE_SIZE * n
    decreases |s|, n
  {
    if n == 0 then [] else [FromWire(s[..WIRE_SIZE])] + ReadWires(s[WIRE_SIZE..], n - 1)
  }

  lemma {:induction false} WiresSnoc(cs: seq<Candidate>, c: Candidate)
    ensures Wires(cs + [c]) == Wires(cs) + ToWire(c)
  {
    if cs == [] {
      assert Wires([c]) == ToWire(c) + Wires([]);
      assert cs + [c] == [c];
    } else {
      WiresSnoc(cs[1..], c);
      assert (cs + [c])[1..] == cs[1..] + [c];
    }
  }

  /** Reading the first n of the candidates sent. */
  lemma {:induction false} WiresRoundTrip(cs: seq<Candidate>, n: nat)
    requires n <= |cs| && AllGood(cs)
    ensures ReadWires(Wires(cs), n) == cs[..n]
    decreases n
  {
    if n > 0 {
      var w, rest := ToWire(cs[0]), Wires(cs[1..]);
      assert (w + rest)[..WIRE_SIZE] == w && (w + rest)[WIRE_SIZE..] == rest;
      WiresRoundTrip(cs[1..], n - 1);
      WireRoundTrip(cs[0]);
      assert cs[..n] == [cs[0]] + cs[1..][..n - 1];
    }
  }

  // ---- Credentials in fixed-size fields ----

  /** A string copied into a zeroed field of n bytes. */
  function Field(s: Bytes, n: nat): (f: Bytes)
    ensures |f| == n
  {
    if |s| >= n then s[..n] else s + Blank(n - |s|)
  }

  /** strnlen: the part before the first zero byte. */
  function BeforeZero(s: Bytes): Bytes {
    if s == [] || s[0] == 0 then [] else [s[0]] + BeforeZero(s[1..])
  }

  lemma {:induction false} BeforeZeroBlank(s: Bytes, n: nat)
    ensures BeforeZero(s + Blank(n)) == BeforeZero(s)
    decreases |s|, n
  {
    if s == [] {
      assert s + Blank(n) == Blank(n);
      BlankStartsZero(n);
    } else {
      BeforeZeroBlank(s[1..], n);
      assert (s + Blank(n))[1..] == s[1..] + Blank(n);
    }
  }

  lemma {:induction false} BeforeZeroIff(s: Bytes)
    ensures |BeforeZero(s)| <= |s|
    ensures BeforeZero(s) == s <==> forall i :: 0 <= i < |s| ==> s[i] != 0
    decreases |s|
  {
    if s != [] && s[0] != 0 {
      BeforeZeroIff(s[1..]);
      assert s == [s[0]] + s[1..];
      assert (forall i :: 0 <= i < |s| ==> s[i] != 0) ==> forall i :: 0 <= i < |s[1..]| ==> s[1..][i] != 0;
    }
  }

  /** A string survives its field exactly when it fits and holds no zero byte. */
  lemma FieldKeptIff(s: Bytes, n: nat)
    ensures BeforeZero(Field(s, n)) == s <==> |s| <= n && forall i :: 0 <= i < |s| ==> s[i] != 0
  {
    if |s| <= n {
      BeforeZeroBlank(s, n - |s|);
      BeforeZeroIff(s);
      assert |s| == n ==> s[..n] == s;
    } else {
      BeforeZeroIff(s[..n]);
    }
  }

  // ---- The whole signal ----

  datatype Remote = Remote(ufrag: Bytes, pwd: Bytes, candidates: seq<Candidate>)

  function Header(ufrag: Bytes, pwd: Bytes, count: nat): (s: Bytes)
    ensures |s| == SIGNAL_SIZE
  {
    Field(ufrag, UFRAG_SIZE) + Field(pwd, PWD_SIZE) + LittleEndian(count, 2) + [0, 0]
  }

  /** What set_remote makes of a signal that on_ice_signal let through. */
  function ReadSignal(s: Bytes): Option<Remote> {
    if |s| < SIGNAL_SIZE then None
    else
      var n := FromLittleEndian(s[40..42]);
      if |s| < SIGNAL_SIZE + WIRE_SIZE * n then None
      else Some(Remote(BeforeZero(s[..16]), BeforeZero(s[16..40]), ReadWires(s[SIGNAL_SIZE..], n)))
  }

  function Signal(r: Remote): Bytes { Header(r.ufrag, r.pwd, |r.candidates|) + Wires(r.candidates) }

  lemma HeaderParts(u: Bytes, p: Bytes, n: Bytes, rest: Bytes)
    requires |u| == 16 && |p| == 24 && |n| == 2
    ensures var s := u + p + n + [0, 0] + rest;
            s[..16] == u && s[16..40] == p && s[40..42] == n && s[44..] == rest
  {
  }

  lemma Count16(n: nat)
    ensures FromLittleEndian(LittleEndian(n, 2)) == n % MAX16
  {
    Pow256Values();
    LittleEndianIgnoresHigh(n % MAX16, n / MAX16, 2);
    LittleEndianRoundTrip(n % MAX16, 2);
  }

  /** What the peer reads of any signal: the fields cut at a zero, and as many candidates as 16 bits count. */
  lemma SignalRead(r: Remote)
    requires AllGood(r.candidates)
    ensures ReadSignal(Signal(r))
            == Some(Remote(BeforeZero(Field(r.ufrag, UFRAG_SIZE)), BeforeZero(Field(r.pwd, PWD_SIZE)),
                           r.candidates[..|r.candidates| % MAX16]))
  {
    var n := |r.candidates|;
    HeaderParts(Field(r.ufrag, UFRAG_SIZE), Field(r.pwd, PWD_SIZE), LittleEndian(n, 2), Wires(r.candidates));
    Count16(n);
    WiresRoundTrip(r.candidates, n % MAX16);
  }

  /** The peer learns exactly what was sent if and only if every part fits its field. */
  lemma SignalRecoveredIff(r: Remote)
    requires AllGood(r.candidates)
    ensures ReadSignal(Signal(r)) == Some(r) <==>
            |r.ufrag| <= UFRAG_SIZE && |r.pwd| <= PWD_SIZE && |r.candidates| < MAX16 &&
            (forall i :: 0 <= i < |r.ufrag| ==> r.ufrag[i] != 0) && (forall i :: 0 <= i < |r.pwd| ==> r.pwd[i] != 0)
  {
    SignalRead(r);
    FieldKeptIff(r.ufrag, UFRAG_SIZE);
    FieldKeptIff(r.pwd, PWD_SIZE);
    assert |r.candidates| < MAX16 ==> r.candidates[..|r.candidates| % MAX16] == r.candidates;
    assert |r.candidates| >= MAX16 ==> |r.candidates[..|r.candidates| % MAX16]| < |r.candidates|;
  }

  /** serialize_signal: the candidate loop. */
  method SerializeSignal(ufrag: Bytes, pwd: Bytes, local: seq<Candidate>) returns (s: Bytes)
    ensures s == Signal(Remote(ufrag, pwd, local))
  {
    var wires: Bytes := [];
    for i := 0 to |local|
      invariant wires == Wires(local[..i])
    {
      WiresSnoc(local[..i], local[i]);
      assert local[..i + 1] == local[..i] + [local[i]];
      wires := wires + ToWire(local[i]);
    }
    assert local[..|local|] == local;
    s := Header(ufrag, pwd, |local|) + wires;
  }

  /** The candidates a peer knows of after it has been sent a signal. */
  function Learned(r: Remote): seq<Candidate> {
    match ReadSignal(Signal(r)) case None => [] case Some(got) => got.candidates
  }

  lemma CandidatesArrive(r: Remote)
    requires AllGood(r.candidates) && |r.candidates| < MAX16
    ensures Learned(r) == r.candidates
  {
    SignalRead(r);
  }

  /**
   Two agents that send each other their candidates form check lists of the same pairs and in the
   same order: what the controlled agent lists is what the controlling one lists, turned around.
   */
  lemma ExchangedLists(mine: Remote, yours: Remote, a: seq<Pair>, b: seq<Pair>, p: Pair)
    requires AllGood(mine.candidates) && |mine.candidates| < MAX16
    requires AllGood(yours.candidates) && |yours.candidates| < MAX16
    requires IsCheckList(a, mine.candidates, Learned(yours), true)
    requires IsCheckList(b, yours.candidates, Learned(mine), false)
    ensures p in a <==> Flip(p) in b
    ensures UpTo31(mine.candidates) && UpTo31(yours.candidates) ==>
              |a| == |b| && forall i :: 0 <= i < |a| ==>
                a[i].priority == b[i].priority && a[i].ours.priority == b[i].theirs.priority &&
                a[i].theirs.priority == b[i].ours.priority
  {
    CandidatesArrive(mine);
    CandidatesArrive(yours);
    HeldMirrored(a, b, mine.candidates, yours.candidates, p);
    if UpTo31(mine.candidates) && UpTo31(yours.candidates) {
      SameOrder(a, b, mine.candidates, yours.candidates);
    }
  }
}
