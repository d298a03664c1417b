/**
 The Noise_XX handshake as the Noise Protocol Framework words it: a symmetric state
 (section 5.2), a token interpreter (section 5.3) and the XX pattern (section 7.5).
 The primitives of libsodium are values of the type Suite; nothing is assumed of them
 beyond the laws of Suite.Lawful.
 */
module NoiseSpec {
  import opened Bytes

  const DHLEN: nat := 32
  const HASHLEN: nat := 32
  const KEYLEN: nat := 32
  const MACLEN: nat := 16
  const NONCES: nat := 0x1_0000_0000_0000_0000

  /** "Noise_XX_25519_ChaChaPoly_BLAKE2b": 33 bytes, one more than a digest. */
  const PROTOCOL_NAME: Bytes := [
    78, 111, 105, 115, 101, 95, 88, 88, 95, 50, 53, 53, 49, 57, 95, 67,
    104, 97, 67, 104, 97, 80, 111, 108, 121, 95, 66, 76, 65, 75, 69, 50, 98]

  /** X25519, BLAKE2b and ChaCha20-Poly1305, as functions. */
  datatype Suite = Suite(
    publicKey: Bytes -> Bytes,
    dh: (Bytes, Bytes) -> Option<Bytes>,
    hash: Bytes -> Bytes,
    keyedHash: (Bytes, Bytes) -> Bytes,
    seal: (Bytes, nat, Bytes, Bytes) -> Bytes,
    open: (Bytes, nat, Bytes, Bytes) -> Option<Bytes>)
  {
    /** Output sizes, commutation of DH, and decryption undoing encryption. */
    ghost predicate Lawful() {
      && (forall sk :: |publicKey(sk)| == DHLEN)
      && (forall a, b :: dh(a, publicKey(b)) == dh(b, publicKey(a)))
      && (forall m :: |hash(m)| == HASHLEN)
      && (forall k, m :: |keyedHash(k, m)| == HASHLEN)
      && (forall k, n, ad, p :: |seal(k, n, ad, p)| == |p| + MACLEN)
      && (forall k, n, ad, p :: open(k, n, ad, seal(k, n, ad, p)) == Some(p))
    }
  }

  // ---- CipherState and SymmetricState ----

  datatype Cipher = Cipher(key: Bytes, nonce: nat, hasKey: bool)

  const NO_CIPHER := Cipher(Blank(KEYLEN), 0, false)

  datatype Sym = Sym(ck: Bytes, h: Bytes, cipher: Cipher)

  function Bump(n: nat): nat { (n + 1) % NONCES }

  function Encrypt(suite: Suite, c: Cipher, ad: Bytes, plain: Bytes): (Cipher, Bytes) {
    if !c.hasKey then (c, plain)
    else (c.(nonce := Bump(c.nonce)), suite.seal(c.key, c.nonce, ad, plain))
  }

  function Decrypt(suite: Suite, c: Cipher, ad: Bytes, text: Bytes): (Cipher, Option<Bytes>) {
    if !c.hasKey then (c, Some(text))
    else if |text| < MACLEN then (c, None)
    else
      match suite.open(c.key, c.nonce, ad, text)
      case None => (c, None)
      case Some(p) => (c.(nonce := Bump(c.nonce)), Some(p))
  }

  function HkdfFirst(suite: Suite, ck: Bytes, ikm: Bytes): Bytes {
    suite.keyedHash(suite.keyedHash(ck, ikm), [1])
  }

  function HkdfSecond(suite: Suite, ck: Bytes, ikm: Bytes): Bytes {
    suite.keyedHash(suite.keyedHash(ck, ikm), HkdfFirst(suite, ck, ikm) + [2])
  }

  /** A name longer than a digest is hashed, a shorter one is padded with zeros. */
  function InitSym(suite: Suite, name: Bytes): Sym {
    var h := if |name| <= HASHLEN then name + Blank(HASHLEN - |name|) else suite.hash(name);
    Sym(h, h, NO_CIPHER)
  }

  function MixHash(suite: Suite, s: Sym, data: Bytes): Sym {
    s.(h := suite.hash(s.h + data))
  }

  function MixKey(suite: Suite, s: Sym, ikm: Bytes): Sym {
    s.(ck := HkdfFirst(suite, s.ck, ikm), cipher := Cipher(HkdfSecond(suite, s.ck, ikm), 0, true))
  }

  function EncryptAndHash(suite: Suite, s: Sym, plain: Bytes): (Sym, Bytes) {
    var (c, text) := Encrypt(suite, s.cipher, s.h, plain);
    (MixHash(suite, s.(cipher := c), text), text)
  }

  function DecryptAndHash(suite: Suite, s: Sym, text: Bytes): (Sym, Option<Bytes>) {
    var (c, plain) := Decrypt(suite, s.cipher, s.h, text);
    if plain.None? then (s, None) else (MixHash(suite, s.(cipher := c), text), plain)
  }

  /** The two transport ciphers: initiator to responder first. */
  function SplitSym(suite: Suite, s: Sym): (Cipher, Cipher) {
    (Cipher(HkdfFirst(suite, s.ck, []), 0, true), Cipher(HkdfSecond(suite, s.ck, []), 0, true))
  }

  // ---- HandshakeState: tokens and the XX pattern ----

  datatype Hs = Hs(sym: Sym, sPk: Bytes, sSk: Bytes, ePk: Bytes, eSk: Bytes, rs: Bytes, re: Bytes,
                   initiator: bool, step: nat)

  datatype Token = E | S | EE | ES | SE

  const XX: seq<seq<Token>> := [[E], [E, EE, S, ES], [S, SE]]

  const ZERO_KEY: Bytes := Blank(DHLEN)

  function Init(suite: Suite, initiator: bool, sPk: Bytes, sSk: Bytes): Hs {
    Hs(InitSym(suite, PROTOCOL_NAME), sPk, sSk, ZERO_KEY, ZERO_KEY, ZERO_KEY, ZERO_KEY, initiator, 0)
  }

  /** The shared secret a DH token asks of this side. */
  function Secret(suite: Suite, hs: Hs, t: Token): Option<Bytes>
    requires t.EE? || t.ES? || t.SE?
  {
    match t
    case EE => suite.dh(hs.eSk, hs.re)
    case ES => if hs.initiator then suite.dh(hs.eSk, hs.rs) else suite.dh(hs.sSk, hs.re)
    case SE => if hs.initiator then suite.dh(hs.sSk, hs.re) else suite.dh(hs.eSk, hs.rs)
  }

  function Agree(suite: Suite, hs: Hs, t: Token): (Hs, bool)
    requires t.EE? || t.ES? || t.SE?
  {
    match Secret(suite, hs, t)
    case None => (hs, false)
    case Some(k) => (hs.(sym := MixKey(suite, hs.sym, k)), true)
  }

  /** Writing one token: the new state and the bytes sent, or None when DH refuses the key. */
  function WriteToken(suite: Suite, hs: Hs, t: Token, eph: Bytes): (Hs, Option<Bytes>) {
    match t
    case E =>
      var pk := suite.publicKey(eph);
      (hs.(ePk := pk, eSk := eph, sym := MixHash(suite, hs.sym, pk)), Some(pk))
    case S =>
      var (sym, text) := EncryptAndHash(suite, hs.sym, hs.sPk);
      (hs.(sym := sym), Some(text))
    case _ =>
      var (hs', ok) := Agree(suite, hs, t);
      (hs', if ok then Some([]) else None)
  }

  /** Reading one token off the front of msg: the new state and the bytes left. */
  function ReadToken(suite: Suite, hs: Hs, t: Token, msg: Bytes): (Hs, Option<Bytes>) {
    match t
    case E =>
      if |msg| < DHLEN then (hs, None)
      else (hs.(re := msg[..DHLEN], sym := MixHash(suite, hs.sym, msg[..DHLEN])), Some(msg[DHLEN..]))
    case S =>
      var n := DHLEN + if hs.sym.cipher.hasKey then MACLEN else 0;
      if |msg| < n then (hs, None)
      else
        var (sym, plain) := DecryptAndHash(suite, hs.sym, msg[..n]);
        // a refused key leaves zeros where it would have gone
        if plain.None? then (hs.(rs := ZERO_KEY), None) else (hs.(sym := sym, rs := plain.value), Some(msg[n..]))
    case _ =>
      var (hs', ok) := Agree(suite, hs, t);
      (hs', if ok then Some(msg) else None)
  }

  function WriteTokens(suite: Suite, hs: Hs, ts: seq<Token>, eph: Bytes): (Hs, Option<Bytes>)
    decreases ts
  {
    if ts == [] then (hs, Some([]))
    else
      var (hs', head) := WriteToken(suite, hs, ts[0], eph);
      if head.None? then (hs', None)
      else
        var (hs'', tail) := WriteTokens(suite, hs', ts[1..], eph);
        (hs'', if tail.None? then None else Some(head.value + tail.value))
  }

  function ReadTokens(suite: Suite, hs: Hs, ts: seq<Token>, msg: Bytes): (Hs, Option<Bytes>)
    decreases ts
  {
    if ts == [] then (hs, Some(msg))
    else
      var (hs', rest) := ReadToken(suite, hs, ts[0], msg);
      if rest.None? then (hs', None) else ReadTokens(suite, hs', ts[1..], rest.value)
  }

  /** WriteMessage of section 5.3: the tokens of the current step, then the payload. */
  function WriteMessage(suite: Suite, hs: Hs, payload: Bytes, eph: Bytes): (Hs, Option<Bytes>) {
    if hs.step >= |XX| then (hs, None)
    else
      var (hs', head) := WriteTokens(suite, hs, XX[hs.step], eph);
      if head.None? then (hs', None)
      else
        var (sym, text) := EncryptAndHash(suite, hs'.sym, payload);
        (hs'.(sym := sym, step := hs.step + 1), Some(head.value + text))
  }

  /** ReadMessage of section 5.3: the tokens of the current step, then the payload. */
  function ReadMessage(suite: Suite, hs: Hs, msg: Bytes): (Hs, Option<Bytes>) {
    if hs.step >= |XX| then (hs, None)
    else
      var (hs', rest) := ReadTokens(suite, hs, XX[hs.step], msg);
      if rest.None? then (hs', None)
      else
        var (sym, payload) := DecryptAndHash(suite, hs'.sym, rest.value);
        if payload.None? then (hs', None) else (hs'.(sym := sym, step := hs.step + 1), payload)
  }

  /** Transport ciphers as this side uses them: (send, receive). */
  function Split(suite: Suite, hs: Hs): (Cipher, Cipher) {
    var (c1, c2) := SplitSym(suite, hs.sym);
    if hs.initiator then (c1, c2) else (c2, c1)
  }
}

/** Both ends of a handshake stay in lockstep. */
module NoiseLockstep {
  import opened Bytes
  import opened NoiseSpec

  /** Which public keys have crossed the wire so far. */
  datatype Known = Known(ie: bool, is_: bool, re: bool, rs: bool)

  /** What both ends agree on once the keys of k have been exchanged. */
  ghost predicate Sync(suite: Suite, i: Hs, r: Hs, k: Known) {
    && i.sym == r.sym && i.initiator && !r.initiator && i.step == r.step
    && i.sPk == suite.publicKey(i.sSk) && r.sPk == suite.publicKey(r.sSk)
    && (k.ie ==> r.re == suite.publicKey(i.eSk))
    && (k.is_ ==> r.rs == i.sPk)
    && (k.re ==> i.re == suite.publicKey(r.eSk))
    && (k.rs ==> i.rs == r.sPk)
  }

  /** The token uses only keys that have already been exchanged. */
  predicate Usable(t: Token, k: Known, byInitiator: bool) {
    match t
    case E => if byInitiator then !k.ie else !k.re
    case S => true
    case EE => k.ie && k.re
    case ES => k.ie && k.rs
    case SE => k.is_ && k.re
  }

  function Learn(t: Token, k: Known, byInitiator: bool): Known {
    match t
    case E => if byInitiator then k.(ie := true) else k.(re := true)
    case S => if byInitiator then k.(is_ := true) else k.(rs := true)
    case _ => k
  }

  predicate UsableAll(ts: seq<Token>, k: Known, byInitiator: bool) {
    ts == [] || (Usable(ts[0], k, byInitiator) && UsableAll(ts[1..], Learn(ts[0], k, byInitiator), byInitiator))
  }

  function LearnAll(ts: seq<Token>, k: Known, byInitiator: bool): Known {
    if ts == [] then k else LearnAll(ts[1..], Learn(ts[0], k, byInitiator), byInitiator)
  }

  ghost predicate SyncBy(suite: Suite, w: Hs, r: Hs, k: Known, byInitiator: bool) {
    if byInitiator then Sync(suite, w, r, k) else Sync(suite, r, w, k)
  }

  /** Two equal symmetric states encrypt and decrypt to equal symmetric states. */
  lemma HashedTextLockstep(suite: Suite, s: Sym, plain: Bytes)
    requires suite.Lawful()
    ensures DecryptAndHash(suite, s, EncryptAndHash(suite, s, plain).1)
            == (EncryptAndHash(suite, s, plain).0, Some(plain))
    ensures |EncryptAndHash(suite, s, plain).1| == |plain| + if s.cipher.hasKey then MACLEN else 0
  {
    if s.cipher.hasKey {
      assert |suite.seal(s.cipher.key, s.cipher.nonce, s.h, plain)| == |plain| + MACLEN;
    }
  }

  /** Both ends derive the same secret, or both are refused. */
  lemma SecretLockstep(suite: Suite, w: Hs, r: Hs, k: Known, byInitiator: bool, t: Token)
    requires suite.Lawful() && SyncBy(suite, w, r, k, byInitiator)
    requires t.EE? || t.ES? || t.SE?
    requires Usable(t, k, byInitiator)
    ensures Secret(suite, w, t) == Secret(suite, r, t)
  {
  }

  /** One token: whenever it can be written it can be read, and the ends still agree. */
  lemma TokenLockstep(suite: Suite, w: Hs, r: Hs, k: Known, byInitiator: bool, t: Token, eph: Bytes, tail: Bytes)
    requires suite.Lawful() && SyncBy(suite, w, r, k, byInitiator) && Usable(t, k, byInitiator)
    ensures var (w', out) := WriteToken(suite, w, t, eph);
            out.Some? ==>
              var (r', rest) := ReadToken(suite, r, t, out.value + tail);
              rest == Some(tail) && SyncBy(suite, w', r', Learn(t, k, byInitiator), byInitiator)
  {
    match t {
      case E =>
        var pk := suite.publicKey(eph);
        assert (pk + tail)[..DHLEN] == pk && (pk + tail)[DHLEN..] == tail;
      case S =>
        HashedTextLockstep(suite, w.sym, w.sPk);
        var text := EncryptAndHash(suite, w.sym, w.sPk).1;
        assert (text + tail)[..|text|] == text && (text + tail)[|text|..] == tail;
      case _ =>
        SecretLockstep(suite, w, r, k, byInitiator, t);
        assert [] + tail == tail;
    }
  }

  lemma {:induction false} TokensLockstep(suite: Suite, w: Hs, r: Hs, k: Known, byInitiator: bool,
                                          ts: seq<Token>, eph: Bytes, tail: Bytes)
    requires suite.Lawful() && SyncBy(suite, w, r, k, byInitiator) && UsableAll(ts, k, byInitiator)
    ensures var (w', out) := WriteTokens(suite, w, ts, eph);
            out.Some? ==>
              var (r', rest) := ReadTokens(suite, r, ts, out.value + tail);
              rest == Some(tail) && SyncBy(suite, w', r', LearnAll(ts, k, byInitiator), byInitiator)
    decreases |ts|
  {
    if ts == [] {
      assert [] + tail == tail;
    } else {
      var (w1, head) := WriteToken(suite, w, ts[0], eph);
      var (w2, more) := WriteTokens(suite, w1, ts[1..], eph);
      if head.Some? && more.Some? {
        TokenLockstep(suite, w, r, k, byInitiator, ts[0], eph, more.value + tail);
        assert head.value + more.value + tail == head.value + (more.value + tail);
        var (r1, _) := ReadToken(suite, r, ts[0], head.value + (more.value + tail));
        TokensLockstep(suite, w1, r1, Learn(ts[0], k, byInitiator), byInitiator, ts[1..], eph, tail);
      }
    }
  }

  /**
   One message of any pattern step whose tokens are usable: if the writer sends it, the reader
   accepts it, recovers the payload, and h, ck, key and nonce are equal again on both sides.
   */
  lemma MessageLockstep(suite: Suite, w: Hs, r: Hs, k: Known, byInitiator: bool, payload: Bytes, eph: Bytes)
    requires suite.Lawful() && SyncBy(suite, w, r, k, byInitiator)
    requires w.step < |XX| && UsableAll(XX[w.step], k, byInitiator)
    ensures var (w', msg) := WriteMessage(suite, w, payload, eph);
            msg.Some? ==>
              var (r', got) := ReadMessage(suite, r, msg.value);
              && got == Some(payload) && w'.step == w.step + 1
              && SyncBy(suite, w', r', LearnAll(XX[w.step], k, byInitiator), byInitiator)
  {
    var ts := XX[w.step];
    var (w1, head) := WriteTokens(suite, w, ts, eph);
    if head.Some? {
      var text := EncryptAndHash(suite, w1.sym, payload).1;
      TokensLockstep(suite, w, r, k, byInitiator, ts, eph, text);
      HashedTextLockstep(suite, w1.sym, payload);
    }
  }

  /** The six facts the XX pattern leaves behind, token by token. */
  lemma XXUsable()
    ensures UsableAll(XX[0], Known(false, false, false, false), true)
    ensures LearnAll(XX[0], Known(false, false, false, false), true) == Known(true, false, false, false)
    ensures UsableAll(XX[1], Known(true, false, false, false), false)
    ensures LearnAll(XX[1], Known(true, false, false, false), false) == Known(true, false, true, true)
    ensures UsableAll(XX[2], Known(true, false, true, true), true)
    ensures LearnAll(XX[2], Known(true, false, true, true), true) == Known(true, true, true, true)
  {
    var m2 := XX[1];
    assert m2[1..] == [EE, S, ES] && m2[1..][1..] == [S, ES] && m2[1..][1..][1..] == [ES];
    assert m2[1..][1..][1..][1..] == [];
    var m3 := XX[2];
    assert m3[1..] == [SE] && m3[1..][1..] == [];
    var k1 := Known(true, false, true, false);
    assert LearnAll([ES], Known(true, false, true, true), false) == Known(true, false, true, true);
    assert LearnAll([S, ES], k1, false) == Known(true, false, true, true);
    assert UsableAll([ES], Known(true, false, true, true), false);
    assert UsableAll([S, ES], k1, false);
  }

  /** One message on an honest wire: refused by the writer, rejected by the reader, or delivered. */
  datatype Outcome = Refused | Rejected | Delivered(w: Hs, r: Hs, got: Bytes)

  function Exchange(suite: Suite, w: Hs, r: Hs, payload: Bytes, eph: Bytes): Outcome {
    var (w', msg) := WriteMessage(suite, w, payload, eph);
    if msg.None? then Refused
    else
      var (r', got) := ReadMessage(suite, r, msg.value);
      if got.None? then Rejected else Delivered(w', r', got.value)
  }

  lemma ExchangeLockstep(suite: Suite, w: Hs, r: Hs, k: Known, byInitiator: bool, payload: Bytes, eph: Bytes)
    requires suite.Lawful() && SyncBy(suite, w, r, k, byInitiator)
    requires w.step < |XX| && UsableAll(XX[w.step], k, byInitiator)
    ensures var x := Exchange(suite, w, r, payload, eph);
            && !x.Rejected?
            && (x.Delivered? ==>
                  && x.got == payload && x.w.step == w.step + 1 && x.w.sSk == w.sSk
                  && SyncBy(suite, x.w, x.r, LearnAll(XX[w.step], k, byInitiator), byInitiator))
  {
    MessageLockstep(suite, w, r, k, byInitiator, payload, eph);
    WriteKeepsRemote(suite, w, payload, eph);
  }

  /** The first message carries no key agreement, so it is always delivered. */
  lemma FirstMessageDelivered(suite: Suite, i: Hs, r: Hs, payload: Bytes, eph: Bytes)
    requires suite.Lawful() && i.step == 0
    requires Sync(suite, i, r, Known(false, false, false, false))
    ensures Exchange(suite, i, r, payload, eph).Delivered?
  {
    XXUsable();
    ExchangeLockstep(suite, i, r, Known(false, false, false, false), true, payload, eph);
    var i1 := WriteToken(suite, i, E, eph).0;
    assert XX[0][1..] == [];
    assert WriteTokens(suite, i1, [], eph) == (i1, Some([]));
  }

  /** What a completed handshake leaves on both sides. */
  ghost predicate Complete(suite: Suite, i: Hs, r: Hs) {
    && i.step == 3 && r.step == 3 && i.sym == r.sym
    && i.rs == r.sPk && r.rs == i.sPk
    && Split(suite, i).0 == Split(suite, r).1
    && Split(suite, i).1 == Split(suite, r).0
  }

  lemma ThirdMessage(suite: Suite, i: Hs, r: Hs, p3: Bytes, eph: Bytes)
    requires suite.Lawful() && i.step == 2
    requires Sync(suite, i, r, Known(true, false, true, true))
    ensures var x := Exchange(suite, i, r, p3, eph);
            !x.Rejected? && (x.Delivered? ==> x.got == p3 && Complete(suite, x.w, x.r))
  {
    XXUsable();
    ExchangeLockstep(suite, i, r, Known(true, false, true, true), true, p3, eph);
  }

  /** From the second message on: what holds if it is delivered, and of the third after it. */
  ghost predicate Rest(suite: Suite, i: Hs, r: Hs, p2: Bytes, p3: Bytes, ei: Bytes, er: Bytes) {
    var x2 := Exchange(suite, r, i, p2, er);
    && !x2.Rejected?
    && (x2.Delivered? ==>
          && x2.got == p2 && x2.w.sym == x2.r.sym && x2.r.rs == r.sPk
          && var x3 := Exchange(suite, x2.r, x2.w, p3, ei);
          && !x3.Rejected?
          && (x3.Delivered? ==> x3.got == p3 && Complete(suite, x3.w, x3.r)))
  }

  lemma SecondAndThirdMessage(suite: Suite, i: Hs, r: Hs, p2: Bytes, p3: Bytes, ei: Bytes, er: Bytes)
    requires suite.Lawful() && i.step == 1
    requires Sync(suite, i, r, Known(true, false, false, false))
    ensures Rest(suite, i, r, p2, p3, ei, er)
  {
    XXUsable();
    ExchangeLockstep(suite, r, i, Known(true, false, false, false), false, p2, er);
    var x2 := Exchange(suite, r, i, p2, er);
    if x2.Delivered? {
      ThirdMessage(suite, x2.r, x2.w, p3, ei);
    }
  }

  /**
   The handshake theorem. For all static and ephemeral keys and payloads, every message that is
   sent is accepted with its exact payload; the second gives the initiator the responder's static
   key; the third leaves both sides with equal h, ck, key and nonce, with each other's static key
   and with crossed transport ciphers. The only way to stop is a refused Diffie-Hellman.
   */
  lemma HandshakeLockstep(suite: Suite, si: Bytes, sr: Bytes, p1: Bytes, p2: Bytes, p3: Bytes, ei: Bytes, er: Bytes)
    requires suite.Lawful()
    ensures
      var x1 := Exchange(suite, Init(suite, true, suite.publicKey(si), si),
                         Init(suite, false, suite.publicKey(sr), sr), p1, ei);
      && x1.Delivered? && x1.got == p1 && x1.w.sym == x1.r.sym
      && x1.w.sPk == suite.publicKey(si) && x1.r.sPk == suite.publicKey(sr)
      && Rest(suite, x1.w, x1.r, p2, p3, ei, er)
  {
    var i0 := Init(suite, true, suite.publicKey(si), si);
    var r0 := Init(suite, false, suite.publicKey(sr), sr);
    assert Sync(suite, i0, r0, Known(false, false, false, false));
    assert i0.step == 0 && r0.sPk == suite.publicKey(sr);
    FirstMessage(suite, i0, r0, p1, ei);
    var x1 := Exchange(suite, i0, r0, p1, ei);
    SecondAndThirdMessage(suite, x1.w, x1.r, p2, p3, ei, er);
  }

  lemma FirstMessage(suite: Suite, i: Hs, r: Hs, p1: Bytes, eph: Bytes)
    requires suite.Lawful() && i.step == 0
    requires Sync(suite, i, r, Known(false, false, false, false))
    ensures var x := Exchange(suite, i, r, p1, eph);
            && x.Delivered? && x.got == p1 && x.w.step == 1 && x.w.sPk == i.sPk && x.r.sPk == r.sPk
            && Sync(suite, x.w, x.r, Known(true, false, false, false))
  {
    XXUsable();
    FirstMessageDelivered(suite, i, r, p1, eph);
    ExchangeLockstep(suite, i, r, Known(false, false, false, false), true, p1, eph);
    WriteKeepsRemote(suite, i, p1, eph);
    ReadKeepsLocal(suite, r, WriteMessage(suite, i, p1, eph).1.value);
  }

  /** The second message is refused exactly when one of its two key agreements is. */
  lemma SecondRefusedIff(suite: Suite, r: Hs, payload: Bytes, eph: Bytes)
    requires r.step == 1 && !r.initiator
    ensures WriteMessage(suite, r, payload, eph).1.None?
            <==> suite.dh(eph, r.re).None? || suite.dh(r.sSk, r.re).None?
  {
    var ts := XX[1];
    var a := WriteToken(suite, r, E, eph).0;
    var b := WriteToken(suite, a, EE, eph).0;
    var c := WriteToken(suite, b, S, eph).0;
    var d := WriteToken(suite, c, ES, eph).0;
    assert ts[1..] == [EE, S, ES] && [EE, S, ES][1..] == [S, ES] && [S, ES][1..] == [ES] && [ES][1..] == [];
    assert WriteTokens(suite, d, [], eph).1 == Some([]);
    assert WriteTokens(suite, c, [ES], eph).1.None? <==> suite.dh(r.sSk, r.re).None?;
    assert WriteTokens(suite, b, [S, ES], eph).1.None? <==> suite.dh(r.sSk, r.re).None?;
    if suite.dh(eph, r.re).Some? {
      assert WriteTokens(suite, a, [EE, S, ES], eph).1.None? <==> suite.dh(r.sSk, r.re).None?;
    }
  }

  /** The third message is refused exactly when its key agreement is. */
  lemma ThirdRefusedIff(suite: Suite, i: Hs, payload: Bytes, eph: Bytes)
    requires i.step == 2 && i.initiator
    ensures WriteMessage(suite, i, payload, eph).1.None? <==> suite.dh(i.sSk, i.re).None?
  {
    var ts := XX[2];
    var a := WriteToken(suite, i, S, eph).0;
    var b := WriteToken(suite, a, SE, eph).0;
    assert ts[1..] == [SE] && [SE][1..] == [];
    assert WriteTokens(suite, b, [], eph).1 == Some([]);
    assert WriteTokens(suite, a, [SE], eph).1.None? <==> suite.dh(i.sSk, i.re).None?;
  }

  /** Reading never touches the local keys. */
  lemma {:induction false} ReadTokensKeepLocal(suite: Suite, hs: Hs, ts: seq<Token>, msg: Bytes)
    ensures var hs' := ReadTokens(suite, hs, ts, msg).0;
            && hs'.sSk == hs.sSk && hs'.sPk == hs.sPk && hs'.eSk == hs.eSk && hs'.ePk == hs.ePk
            && hs'.initiator == hs.initiator && hs'.step == hs.step
    decreases |ts|
  {
    if ts != [] {
      var (hs', rest) := ReadToken(suite, hs, ts[0], msg);
      if rest.Some? {
        ReadTokensKeepLocal(suite, hs', ts[1..], rest.value);
      }
    }
  }

  lemma ReadKeepsLocal(suite: Suite, hs: Hs, msg: Bytes)
    ensures var hs' := ReadMessage(suite, hs, msg).0;
            && hs'.sSk == hs.sSk && hs'.sPk == hs.sPk && hs'.eSk == hs.eSk && hs'.ePk == hs.ePk
            && hs'.initiator == hs.initiator
  {
    if hs.step < |XX| {
      ReadTokensKeepLocal(suite, hs, XX[hs.step], msg);
    }
  }

  /** Writing never touches what is known of the peer, nor the local static key. */
  lemma {:induction false} WriteTokensKeepRemote(suite: Suite, hs: Hs, ts: seq<Token>, eph: Bytes)
    ensures var hs' := WriteTokens(suite, hs, ts, eph).0;
            && hs'.rs == hs.rs && hs'.re == hs.re && hs'.sSk == hs.sSk && hs'.sPk == hs.sPk
            && hs'.initiator == hs.initiator && hs'.step == hs.step
    decreases |ts|
  {
    if ts != [] {
      WriteTokensKeepRemote(suite, WriteToken(suite, hs, ts[0], eph).0, ts[1..], eph);
    }
  }

  lemma WriteKeepsRemote(suite: Suite, hs: Hs, payload: Bytes, eph: Bytes)
    ensures var hs' := WriteMessage(suite, hs, payload, eph).0;
            && hs'.rs == hs.rs && hs'.re == hs.re && hs'.sSk == hs.sSk && hs'.sPk == hs.sPk
            && hs'.initiator == hs.initiator
  {
    if hs.step < |XX| {
      WriteTokensKeepRemote(suite, hs, XX[hs.step], eph);
    }
  }

  /** A suite of no cryptographic worth: every key agreement and hash is zero, a seal appends zeros. */
  function ToySuite(): Suite {
    Suite(_ => Blank(DHLEN), (_, _) => Some(Blank(DHLEN)), _ => Blank(HASHLEN), (_, _) => Blank(HASHLEN),
          (_, _, _, p) => p + Blank(MACLEN),
          (_, _, _, c: Bytes) =>
            if |c| < MACLEN || c[|c| - MACLEN..] != Blank(MACLEN) then None else Some(c[..|c| - MACLEN]))
  }

  /** The laws asked of a suite can be met together. */
  lemma LawsConsistent()
    ensures ToySuite().Lawful()
  {
    forall p: Bytes
      ensures (p + Blank(MACLEN))[..|p|] == p && (p + Blank(MACLEN))[|p|..] == Blank(MACLEN)
    {
    }
  }
}
