/**
 What a handshake message must be to be read: the other half of the lockstep. Everything here is for
 suites whose decryption accepts nothing but seals.
 */
module NoiseAuthentic {
  import opened Bytes
  import opened NoiseSpec
  import opened NoiseLockstep

  /** A text that opens is a seal of what it opens to. */
  ghost predicate Authentic(suite: Suite) {
    forall k, n, ad, t :: suite.open(k, n, ad, t).Some? ==> t == suite.seal(k, n, ad, suite.open(k, n, ad, t).value)
  }

  /** The toy suite checks its tag of zeros, so the laws and this one can be met together. */
  lemma AuthenticConsistent()
    ensures ToySuite().Lawful() && Authentic(ToySuite())
  {
    LawsConsistent();
    forall t: Bytes | |t| >= MACLEN && t[|t| - MACLEN..] == Blank(MACLEN)
      ensures t == t[..|t| - MACLEN] + Blank(MACLEN)
    {
    }
  }

  // ---- HKDF ----

  /** The expansion of RFC 5869, section 2.3: block i is keyed by the extract and fed the block before it and i. */
  function Block(suite: Suite, extract: Bytes, i: nat): Bytes
    requires 1 <= i < 256
  {
    suite.keyedHash(extract, (if i == 1 then [] else Block(suite, extract, i - 1)) + [i])
  }

  /** The two outputs are the first two blocks of the general expansion. */
  lemma HkdfBlocks(suite: Suite, ck: Bytes, ikm: Bytes)
    ensures HkdfFirst(suite, ck, ikm) == Block(suite, suite.keyedHash(ck, ikm), 1)
    ensures HkdfSecond(suite, ck, ikm) == Block(suite, suite.keyedHash(ck, ikm), 2)
  {
    assert [] + [1] == [1];
  }

  // ---- The text of a message, from what it tells ----

  /** The only text that decrypts to plain, when there is a key. */
  lemma DecryptedIff(suite: Suite, s: Sym, text: Bytes, plain: Bytes)
    requires suite.Lawful() && Authentic(suite) && s.cipher.hasKey
    ensures DecryptAndHash(suite, s, text).1 == Some(plain) <==> text == EncryptAndHash(suite, s, plain).1
    ensures text == EncryptAndHash(suite, s, plain).1 ==>
              DecryptAndHash(suite, s, text).0 == EncryptAndHash(suite, s, plain).0
  {
    assert suite.open(s.cipher.key, s.cipher.nonce, s.h, suite.seal(s.cipher.key, s.cipher.nonce, s.h, plain)) == Some(plain);
    assert |suite.seal(s.cipher.key, s.cipher.nonce, s.h, plain)| == |plain| + MACLEN;
  }

  /** A sealed static key, the key agreement t, and a sealed payload: the end of the second and third message. */
  function Tail(suite: Suite, h: Hs, t: Token, rs: Bytes, p: Bytes): Option<Bytes>
    requires t.ES? || t.SE?
  {
    var (sym, key) := EncryptAndHash(suite, h.sym, rs);
    var (h', ok) := Agree(suite, h.(sym := sym, rs := rs), t);
    if !ok then None else Some(key + EncryptAndHash(suite, h'.sym, p).1)
  }

  /** The second message that tells this reader re, rs and p. */
  function SecondText(suite: Suite, h: Hs, re: Bytes, rs: Bytes, p: Bytes): Option<Bytes> {
    var (h', ok) := Agree(suite, h.(re := re, sym := MixHash(suite, h.sym, re)), EE);
    if !ok then None
    else
      match Tail(suite, h', ES, rs, p)
      case None => None
      case Some(tail) => Some(re + tail)
  }

  /** The third message that tells this reader rs and p. */
  function ThirdText(suite: Suite, h: Hs, rs: Bytes, p: Bytes): Option<Bytes> { Tail(suite, h, SE, rs, p) }

  /** Reading the tail: s, a key agreement, the payload. */
  function ReadTail(suite: Suite, h: Hs, t: Token, m: Bytes): (Hs, Option<Bytes>)
    requires t.ES? || t.SE?
  {
    var (h1, r1) := ReadToken(suite, h, S, m);
    if r1.None? then (h1, None)
    else
      var (h2, r2) := ReadToken(suite, h1, t, r1.value);
      if r2.None? then (h2, None)
      else
        var (sym, p) := DecryptAndHash(suite, h2.sym, r2.value);
        (h2.(sym := sym), p)
  }

  /** A tail is read, with rs and p, exactly when it is the text for them. */
  lemma TailIff(suite: Suite, h: Hs, t: Token, m: Bytes, rs: Bytes, p: Bytes)
    requires suite.Lawful() && Authentic(suite) && h.sym.cipher.hasKey && (t.ES? || t.SE?) && |rs| == DHLEN
    ensures (ReadTail(suite, h, t, m).1 == Some(p) && ReadTail(suite, h, t, m).0.rs == rs)
            <==> Tail(suite, h, t, rs, p) == Some(m)
  {
    var (sym, key) := EncryptAndHash(suite, h.sym, rs);
    assert |key| == 48 by {
      assert |suite.seal(h.sym.cipher.key, h.sym.cipher.nonce, h.sym.h, rs)| == |rs| + MACLEN;
    }
    if |m| >= 48 {
      DecryptedIff(suite, h.sym, m[..48], rs);
      var a := Agree(suite, h.(sym := sym, rs := rs), t);
      if a.1 {
        DecryptedIff(suite, a.0.sym, m[48..], p);
        CutAt(m, 48, key, EncryptAndHash(suite, a.0.sym, p).1);
      }
    }
  }

  lemma CutAt(m: Bytes, n: nat, front: Bytes, rest: Bytes)
    requires n == |front| <= |m|
    ensures m == front + rest <==> m[..n] == front && m[n..] == rest
  {
    assert m == m[..n] + m[n..];
    assert (front + rest)[..n] == front && (front + rest)[n..] == rest;
  }

  lemma ThirdIsTail(suite: Suite, h: Hs, m: Bytes)
    requires h.step == 2
    ensures var (h', p), (t, q) := ReadMessage(suite, h, m), ReadTail(suite, h, SE, m);
            p == q && (p.Some? ==> h'.rs == t.rs)
  {
    var ts := XX[2];
    assert ts[1..] == [SE] && [SE][1..] == [];
    var (h1, r1) := ReadToken(suite, h, S, m);
    if r1.Some? {
      var (h2, r2) := ReadToken(suite, h1, SE, r1.value);
      assert r2.Some? ==> ReadTokens(suite, h2, [], r2.value) == (h2, r2);
      assert ReadTokens(suite, h1, [SE], r1.value) == (h2, r2);
    }
  }

  /** The state of a reader of the second message once it has agreed on the ee secret. */
  function Agreed(suite: Suite, h: Hs, re: Bytes): (Hs, bool) {
    Agree(suite, h.(re := re, sym := MixHash(suite, h.sym, re)), EE)
  }

  lemma SecondIsTail(suite: Suite, h: Hs, m: Bytes)
    requires h.step == 1 && |m| >= DHLEN && Agreed(suite, h, m[..DHLEN]).1
    ensures var (h', p), (t, q) := ReadMessage(suite, h, m), ReadTail(suite, Agreed(suite, h, m[..DHLEN]).0, ES, m[DHLEN..]);
            p == q && (p.Some? ==> h'.rs == t.rs && h'.re == m[..DHLEN])
  {
    var ts := XX[1];
    assert ts[1..] == [EE, S, ES] && [EE, S, ES][1..] == [S, ES] && [S, ES][1..] == [ES] && [ES][1..] == [];
    var (h1, r1) := ReadToken(suite, h, E, m);
    var (h2, r2) := ReadToken(suite, h1, EE, r1.value);
    assert h2 == Agreed(suite, h, m[..DHLEN]).0 && r2 == Some(m[DHLEN..]);
    var (h3, r3) := ReadToken(suite, h2, S, r2.value);
    if r3.Some? {
      var (h4, r4) := ReadToken(suite, h3, ES, r3.value);
      assert r4.Some? ==> ReadTokens(suite, h4, [], r4.value) == (h4, r4);
      assert ReadTokens(suite, h3, [ES], r3.value) == (h4, r4);
      assert ReadTokens(suite, h2, [S, ES], r2.value) == (h4, r4);
    }
  }

  lemma SecondNeedsKey(suite: Suite, h: Hs, m: Bytes)
    requires h.step == 1 && ReadMessage(suite, h, m).1.Some?
    ensures |m| >= DHLEN && Agreed(suite, h, m[..DHLEN]).1
  {
    var ts := XX[1];
    assert ts[1..] == [EE, S, ES];
    var (h1, r1) := ReadToken(suite, h, E, m);
    var (h2, r2) := ReadToken(suite, h1, EE, r1.value);
  }

  /** A key that was read has the size of a key. */
  lemma TailKeySize(suite: Suite, h: Hs, t: Token, m: Bytes)
    requires suite.Lawful() && Authentic(suite) && h.sym.cipher.hasKey && (t.ES? || t.SE?)
    requires ReadTail(suite, h, t, m).1.Some?
    ensures |ReadTail(suite, h, t, m).0.rs| == DHLEN
  {
    var (h1, r1) := ReadToken(suite, h, S, m);
    DecryptedIff(suite, h.sym, m[..48], h1.rs);
    assert |suite.seal(h.sym.cipher.key, h.sym.cipher.nonce, h.sym.h, h1.rs)| == |h1.rs| + MACLEN;
  }

  /**
   What it takes to be read as a second message, in either role: to be the text that seals the static
   key and the payload under the secrets this side agrees on with the ephemeral key in front.
   */
  lemma ReadSecondIff(suite: Suite, h: Hs, m: Bytes, re: Bytes, rs: Bytes, p: Bytes)
    requires suite.Lawful() && Authentic(suite) && h.step == 1 && |re| == DHLEN && |rs| == DHLEN
    ensures var (h', got) := ReadMessage(suite, h, m);
            (got == Some(p) && h'.re == re && h'.rs == rs) <==> SecondText(suite, h, re, rs, p) == Some(m)
  {
    if ReadMessage(suite, h, m).1.Some? {
      SecondNeedsKey(suite, h, m);
    }
    if |m| >= DHLEN && Agreed(suite, h, m[..DHLEN]).1 {
      SecondIsTail(suite, h, m);
      TailIff(suite, Agreed(suite, h, m[..DHLEN]).0, ES, m[DHLEN..], rs, p);
    }
    SecondTextIs(suite, h, m, re, rs, p);
  }

  lemma SecondTextIs(suite: Suite, h: Hs, m: Bytes, re: Bytes, rs: Bytes, p: Bytes)
    requires |re| == DHLEN
    ensures SecondText(suite, h, re, rs, p) == Some(m) <==>
            |m| >= DHLEN && m[..DHLEN] == re && Agreed(suite, h, re).1 && Tail(suite, Agreed(suite, h, re).0, ES, rs, p) == Some(m[DHLEN..])
  {
    if |m| >= DHLEN && m[..DHLEN] == re {
      assert m == re + m[DHLEN..];
    }
    if SecondText(suite, h, re, rs, p) == Some(m) {
      var tail := Tail(suite, Agreed(suite, h, re).0, ES, rs, p).value;
      assert (re + tail)[..DHLEN] == re && (re + tail)[DHLEN..] == tail;
    }
  }

  /** The same for a third message. */
  lemma ReadThirdIff(suite: Suite, h: Hs, m: Bytes, rs: Bytes, p: Bytes)
    requires suite.Lawful() && Authentic(suite) && h.step == 2 && h.sym.cipher.hasKey && |rs| == DHLEN
    ensures var (h', got) := ReadMessage(suite, h, m);
            (got == Some(p) && h'.rs == rs) <==> ThirdText(suite, h, rs, p) == Some(m)
  {
    ThirdIsTail(suite, h, m);
    TailIff(suite, h, SE, m, rs, p);
  }

  /**
   Nothing can be altered: two messages read in one state that tell the same ephemeral key, static key
   and payload are the same message. So an altered one is refused, or tells something else.
   */
  lemma SecondDetermined(suite: Suite, h: Hs, m: Bytes, n: Bytes)
    requires suite.Lawful() && Authentic(suite) && h.step == 1
    requires ReadMessage(suite, h, m).1.Some? && ReadMessage(suite, h, m).1 == ReadMessage(suite, h, n).1
    requires ReadMessage(suite, h, m).0.re == ReadMessage(suite, h, n).0.re
    requires ReadMessage(suite, h, m).0.rs == ReadMessage(suite, h, n).0.rs
    ensures m == n
  {
    var (h', p) := ReadMessage(suite, h, m);
    SecondNeedsKey(suite, h, m);
    SecondIsTail(suite, h, m);
    TailKeySize(suite, Agreed(suite, h, m[..DHLEN]).0, ES, m[DHLEN..]);
    ReadSecondIff(suite, h, m, h'.re, h'.rs, p.value);
    ReadSecondIff(suite, h, n, h'.re, h'.rs, p.value);
  }

  lemma ThirdDetermined(suite: Suite, h: Hs, m: Bytes, n: Bytes)
    requires suite.Lawful() && Authentic(suite) && h.step == 2 && h.sym.cipher.hasKey
    requires ReadMessage(suite, h, m).1.Some? && ReadMessage(suite, h, m).1 == ReadMessage(suite, h, n).1
    requires ReadMessage(suite, h, m).0.rs == ReadMessage(suite, h, n).0.rs
    ensures m == n
  {
    var (h', p) := ReadMessage(suite, h, m);
    ThirdIsTail(suite, h, m);
    TailKeySize(suite, h, SE, m);
    ReadThirdIff(suite, h, m, h'.rs, p.value);
    ReadThirdIff(suite, h, n, h'.rs, p.value);
  }

  // ---- The whole handshake, written out ----

  /** One HKDF step of the chain, as (chaining key, cipher key). */
  function Chain(suite: Suite, ck: Bytes, secret: Bytes): (Bytes, Bytes) {
    var extract := suite.keyedHash(ck, secret);
    (Block(suite, extract, 1), Block(suite, extract, 2))
  }

  /** Both sides start from the hash of the protocol name, without a key. */
  lemma InitWritten(suite: Suite, initiator: bool, pk: Bytes, sk: Bytes)
    ensures var h0 := suite.hash(PROTOCOL_NAME);
            var s := Init(suite, initiator, pk, sk).sym;
            s.ck == h0 && s.h == h0 && !s.cipher.hasKey
  {
  }

  /** The first message is an ephemeral key and a payload in clear; nothing else is asked of it. */
  lemma ReadFirstIff(suite: Suite, r: Hs, m: Bytes)
    requires r.step == 0 && !r.sym.cipher.hasKey
    ensures var (r', got) := ReadMessage(suite, r, m);
            got == (if |m| >= DHLEN then Some(m[DHLEN..]) else None) &&
            (got.Some? ==> r' == r.(re := m[..DHLEN], step := 1,
                                    sym := r.sym.(h := suite.hash(suite.hash(r.sym.h + m[..DHLEN]) + m[DHLEN..]))))
  {
    assert XX[0] == [E] && [E][1..] == [];
    var (h1, rest) := ReadToken(suite, r, E, m);
    assert rest.Some? ==> ReadTokens(suite, h1, [], rest.value) == (h1, rest);
  }

  lemma FirstWritten(suite: Suite, w: Hs, p: Bytes, eph: Bytes)
    requires w.step == 0 && !w.sym.cipher.hasKey
    ensures var e := suite.publicKey(eph);
            var h1 := suite.hash(w.sym.h + e);
            WriteMessage(suite, w, p, eph)
            == (w.(ePk := e, eSk := eph, step := 1, sym := w.sym.(h := suite.hash(h1 + p))), Some(e + p))
  {
    assert XX[0] == [E] && [E][1..] == [];
    var h1 := WriteToken(suite, w, E, eph).0;
    assert WriteTokens(suite, h1, [], eph) == (h1, Some([]));
    assert suite.publicKey(eph) + [] == suite.publicKey(eph);
  }

  /** e, ee, s, es: the ephemeral key in clear, the static key under the ee key, the payload under the es key. */
  lemma SecondWritten(suite: Suite, w: Hs, p: Bytes, eph: Bytes, ee: Bytes, es: Bytes)
    requires w.step == 1 && !w.initiator && suite.dh(eph, w.re) == Some(ee) && suite.dh(w.sSk, w.re) == Some(es)
    ensures var e := suite.publicKey(eph);
            var h3 := suite.hash(w.sym.h + e);
            var (ck1, k1) := Chain(suite, w.sym.ck, ee);
            var s := suite.seal(k1, 0, h3, w.sPk);
            var h4 := suite.hash(h3 + s);
            var (ck2, k2) := Chain(suite, ck1, es);
            var c := suite.seal(k2, 0, h4, p);
            var (w', m) := WriteMessage(suite, w, p, eph);
            m == Some(e + s + c) && w'.step == 2 && w'.sym == Sym(ck2, suite.hash(h4 + c), Cipher(k2, 1, true))
  {
    HkdfBlocks(suite, w.sym.ck, ee);
    var (ck1, k1) := Chain(suite, w.sym.ck, ee);
    HkdfBlocks(suite, ck1, es);
    var ts := XX[1];
    assert ts[1..] == [EE, S, ES] && [EE, S, ES][1..] == [S, ES] && [S, ES][1..] == [ES] && [ES][1..] == [];
    var (a, m1) := WriteToken(suite, w, E, eph);
    var (b, m2) := WriteToken(suite, a, EE, eph);
    var (c, m3) := WriteToken(suite, b, S, eph);
    var (d, m4) := WriteToken(suite, c, ES, eph);
    assert WriteTokens(suite, d, [], eph) == (d, Some([]));
    assert WriteTokens(suite, c, [ES], eph) == (d, Some([] + []));
    assert WriteTokens(suite, b, [S, ES], eph) == (d, Some(m3.value + ([] + [])));
    assert WriteTokens(suite, a, [EE, S, ES], eph) == (d, Some([] + (m3.value + ([] + []))));
    assert m1.value + ([] + (m3.value + ([] + []))) == m1.value + m3.value;
  }

  /** s, se: the static key under the es key again, with the next nonce, the payload under the se key. */
  lemma ThirdWritten(suite: Suite, w: Hs, p: Bytes, eph: Bytes, se: Bytes)
    requires w.step == 2 && w.initiator && w.sym.cipher.hasKey && suite.dh(w.sSk, w.re) == Some(se)
    ensures var s := suite.seal(w.sym.cipher.key, w.sym.cipher.nonce, w.sym.h, w.sPk);
            var h6 := suite.hash(w.sym.h + s);
            var (ck3, k3) := Chain(suite, w.sym.ck, se);
            var c := suite.seal(k3, 0, h6, p);
            var (w', m) := WriteMessage(suite, w, p, eph);
            m == Some(s + c) && w'.step == 3 && w'.sym == Sym(ck3, suite.hash(h6 + c), Cipher(k3, 1, true))
  {
    HkdfBlocks(suite, w.sym.ck, se);
    var ts := XX[2];
    assert ts[1..] == [SE] && [SE][1..] == [];
    var (a, m1) := WriteToken(suite, w, S, eph);
    var (b, m2) := WriteToken(suite, a, SE, eph);
    assert WriteTokens(suite, b, [], eph) == (b, Some([]));
    assert WriteTokens(suite, a, [SE], eph) == (b, Some([] + []));
    assert m1.value + ([] + []) == m1.value;
  }

  /** The transport keys: both blocks of one more expansion, the first for the initiator to send with. */
  lemma SplitWritten(suite: Suite, h: Hs)
    ensures var (first, second) := Chain(suite, h.sym.ck, []);
            Split(suite, h).0.key == (if h.initiator then first else second) &&
            Split(suite, h).1.key == (if h.initiator then second else first) &&
            Split(suite, h).0.nonce == 0 && Split(suite, h).1.nonce == 0
  {
    HkdfBlocks(suite, h.sym.ck, []);
  }
}
