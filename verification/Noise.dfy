/** The handshake engine of core/crypto/noise.cpp: buffers overwritten in place, one switch per message. */
module Noise {
  import opened Bytes
  import opened NoiseSpec

  /** memcpy of a whole digest. */
  method Copy(dst: array<Byte>, src: Bytes)
    requires |src| == dst.Length
    modifies dst
    ensures dst[..] == src
  {
    forall i | 0 <= i < dst.Length {
      dst[i] := src[i];
    }
  }

  /**
   Two outputs of HKDF. MixKey passes ck as out1 as well, so the outputs are stated of the
   chaining key as it was on entry, whichever of the two outputs it shares memory with.
   */
  method Hkdf2(suite: Suite, ck: array<Byte>, ikm: Bytes, out1: array<Byte>, out2: array<Byte>)
    requires suite.Lawful()
    requires out1.Length == HASHLEN && out2.Length == HASHLEN && out1 != out2
    modifies out1, out2
    ensures out1[..] == HkdfFirst(suite, old(ck[..]), ikm)
    ensures out2[..] == HkdfSecond(suite, old(ck[..]), ikm)
  {
    var tempKey := suite.keyedHash(ck[..], ikm);
    Copy(out1, suite.keyedHash(tempKey, [1]));
    var buf := out1[..] + [2];
    Copy(out2, suite.keyedHash(tempKey, buf));
  }

  // ---- The token interpreter, one token at a time from the left ----

  function AndWrite(suite: Suite, r: (Hs, Option<Bytes>), t: Token, eph: Bytes): (Hs, Option<Bytes>) {
    if r.1.None? then r
    else
      var (hs, out) := WriteToken(suite, r.0, t, eph);
      (hs, if out.None? then None else Some(r.1.value + out.value))
  }

  function AndRead(suite: Suite, r: (Hs, Option<Bytes>), t: Token): (Hs, Option<Bytes>) {
    if r.1.None? then r else ReadToken(suite, r.0, t, r.1.value)
  }

  lemma {:induction false} WriteSnoc(suite: Suite, hs: Hs, ts: seq<Token>, t: Token, eph: Bytes)
    ensures WriteTokens(suite, hs, ts + [t], eph) == AndWrite(suite, WriteTokens(suite, hs, ts, eph), t, eph)
    decreases |ts|
  {
    var all := ts + [t];
    if ts == [] {
      assert all[1..] == [];
      var (hs', out) := WriteToken(suite, hs, t, eph);
      assert WriteTokens(suite, hs', [], eph) == (hs', Some([]));
      if out.Some? {
        assert out.value + [] == out.value && [] + out.value == out.value;
      }
    } else {
      assert all[1..] == ts[1..] + [t];
      var (hs', out) := WriteToken(suite, hs, ts[0], eph);
      if out.Some? {
        WriteSnoc(suite, hs', ts[1..], t, eph);
        var (hs'', tail) := WriteTokens(suite, hs', ts[1..], eph);
        if tail.Some? {
          var last := WriteToken(suite, hs'', t, eph).1;
          if last.Some? {
            assert out.value + (tail.value + last.value) == out.value + tail.value + last.value;
          }
        }
      }
    }
  }

  lemma {:induction false} ReadSnoc(suite: Suite, hs: Hs, ts: seq<Token>, t: Token, msg: Bytes)
    ensures ReadTokens(suite, hs, ts + [t], msg) == AndRead(suite, ReadTokens(suite, hs, ts, msg), t)
    decreases |ts|
  {
    var all := ts + [t];
    if ts == [] {
      assert all[1..] == [];
    } else {
      assert all[1..] == ts[1..] + [t];
      var (hs', rest) := ReadToken(suite, hs, ts[0], msg);
      if rest.Some? {
        ReadSnoc(suite, hs', ts[1..], t, rest.value);
      }
    }
  }

  /** A step of XX as a chain of single tokens. */
  lemma WriteStep(suite: Suite, hs: Hs, eph: Bytes)
    ensures WriteTokens(suite, hs, XX[0], eph) == AndWrite(suite, (hs, Some([])), E, eph)
    ensures WriteTokens(suite, hs, XX[1], eph)
            == var r := AndWrite(suite, AndWrite(suite, (hs, Some([])), E, eph), EE, eph);
               AndWrite(suite, AndWrite(suite, r, S, eph), ES, eph)
    ensures WriteTokens(suite, hs, XX[2], eph)
            == AndWrite(suite, AndWrite(suite, (hs, Some([])), S, eph), SE, eph)
  {
    assert XX[0] == [] + [E] && XX[2] == [] + [S] + [SE] && XX[1] == [] + [E] + [EE] + [S] + [ES];
    WriteSnoc(suite, hs, [], E, eph);
    WriteSnoc(suite, hs, [] + [E], EE, eph);
    WriteSnoc(suite, hs, [] + [E] + [EE], S, eph);
    WriteSnoc(suite, hs, [] + [E] + [EE] + [S], ES, eph);
    WriteSnoc(suite, hs, [], S, eph);
    WriteSnoc(suite, hs, [] + [S], SE, eph);
  }

  lemma ReadStep(suite: Suite, hs: Hs, msg: Bytes)
    ensures ReadTokens(suite, hs, XX[0], msg) == AndRead(suite, (hs, Some(msg)), E)
    ensures ReadTokens(suite, hs, XX[1], msg)
            == var r := AndRead(suite, AndRead(suite, (hs, Some(msg)), E), EE);
               AndRead(suite, AndRead(suite, r, S), ES)
    ensures ReadTokens(suite, hs, XX[2], msg)
            == AndRead(suite, AndRead(suite, (hs, Some(msg)), S), SE)
  {
    assert XX[0] == [] + [E] && XX[2] == [] + [S] + [SE] && XX[1] == [] + [E] + [EE] + [S] + [ES];
    ReadSnoc(suite, hs, [], E, msg);
    ReadSnoc(suite, hs, [] + [E], EE, msg);
    ReadSnoc(suite, hs, [] + [E] + [EE], S, msg);
    ReadSnoc(suite, hs, [] + [E] + [EE] + [S], ES, msg);
    ReadSnoc(suite, hs, [], S, msg);
    ReadSnoc(suite, hs, [] + [S], SE, msg);
  }

  class SymmetricState {
    const ck: array<Byte>
    const h: array<Byte>
    var cipher: Cipher

    ghost predicate Valid()
      reads this
    {
      ck != h && ck.Length == HASHLEN && h.Length == HASHLEN
    }

    ghost function View(): Sym
      reads this, ck, h
    {
      Sym(ck[..], h[..], cipher)
    }

    constructor (suite: Suite, name: Bytes)
      requires suite.Lawful()
      ensures Valid() && fresh(ck) && fresh(h)
      ensures View() == InitSym(suite, name)
    {
      ck := new Byte[HASHLEN];
      h := new Byte[HASHLEN];
      cipher := NO_CIPHER;
      new;
      if |name| <= HASHLEN {
        Copy(h, name + Blank(HASHLEN - |name|));
      } else {
        Copy(h, suite.hash(name));
      }
      Copy(ck, h[..]);
    }

    method MixHash(suite: Suite, data: Bytes)
      requires suite.Lawful() && Valid()
      modifies h
      ensures View() == NoiseSpec.MixHash(suite, old(View()), data)
    {
      Copy(h, suite.hash(h[..] + data));
    }

    method MixKey(suite: Suite, ikm: Bytes)
      requires suite.Lawful() && Valid()
      modifies this, ck
      ensures Valid() && View() == NoiseSpec.MixKey(suite, old(View()), ikm)
    {
      var tempK := new Byte[HASHLEN];
      Hkdf2(suite, ck, ikm, ck, tempK);
      cipher := Cipher(tempK[..], 0, true);
    }

    method EncryptAndHash(suite: Suite, plain: Bytes) returns (text: Bytes)
      requires suite.Lawful() && Valid()
      modifies this, h
      ensures Valid() && (View(), text) == NoiseSpec.EncryptAndHash(suite, old(View()), plain)
    {
      if !cipher.hasKey {
        text := plain;
      } else {
        text := suite.seal(cipher.key, cipher.nonce, h[..], plain);
        cipher := cipher.(nonce := Bump(cipher.nonce));
      }
      MixHash(suite, text);
    }

    method DecryptAndHash(suite: Suite, text: Bytes) returns (plain: Option<Bytes>)
      requires suite.Lawful() && Valid()
      modifies this, h
      ensures Valid() && (View(), plain) == NoiseSpec.DecryptAndHash(suite, old(View()), text)
    {
      if !cipher.hasKey {
        plain := Some(text);
      } else if |text| < MACLEN {
        return None;
      } else {
        plain := suite.open(cipher.key, cipher.nonce, h[..], text);
        if plain.None? {
          return;
        }
        cipher := cipher.(nonce := Bump(cipher.nonce));
      }
      MixHash(suite, text);
    }
  }

  class HandshakeState {
    const symmetric: SymmetricState
    var sPk: Bytes
    var sSk: Bytes
    var ePk: Bytes
    var eSk: Bytes
    var rs: Bytes
    var re: Bytes
    var initiator: bool
    var step: nat

    /** From the third message on there is a key, so the static key always travels with a tag. */
    ghost predicate Valid()
      reads this, symmetric
    {
      symmetric.Valid() && (step >= 2 ==> symmetric.cipher.hasKey)
    }

    ghost function View(): Hs
      reads this, symmetric, symmetric.ck, symmetric.h
    {
      Hs(symmetric.View(), sPk, sSk, ePk, eSk, rs, re, initiator, step)
    }

    constructor (suite: Suite, isInitiator: bool, staticPk: Bytes, staticSk: Bytes)
      requires suite.Lawful()
      ensures Valid() && View() == NoiseSpec.Init(suite, isInitiator, staticPk, staticSk)
      ensures fresh(symmetric) && fresh(symmetric.ck) && fresh(symmetric.h)
    {
      symmetric := new SymmetricState(suite, PROTOCOL_NAME);
      sPk, sSk := staticPk, staticSk;
      ePk, eSk, rs, re := ZERO_KEY, ZERO_KEY, ZERO_KEY, ZERO_KEY;
      initiator := isInitiator;
      step := 0;
    }

    /** Diffie-Hellman followed by MixKey: the tail of the ee, es and se tokens. */
    method MixShared(suite: Suite, ghost t: Token, sk: Bytes, pk: Bytes) returns (ok: bool)
      requires suite.Lawful() && Valid()
      requires t.EE? || t.ES? || t.SE?
      requires Secret(suite, View(), t) == suite.dh(sk, pk)
      modifies symmetric, symmetric.ck
      ensures Valid() && (View(), ok) == Agree(suite, old(View()), t)
      ensures ok ==> symmetric.cipher.hasKey
    {
      var shared := suite.dh(sk, pk);
      if shared.None? {
        return false;
      }
      symmetric.MixKey(suite, shared.value);
      return true;
    }

    /** The e token of an outgoing message. */
    method WriteEphemeral(suite: Suite, eph: Bytes) returns (out: Bytes)
      requires suite.Lawful() && Valid()
      modifies this, symmetric.h
      ensures Valid() && (View(), Some(out)) == WriteToken(suite, old(View()), E, eph)
      ensures step == old(step)
    {
      eSk := eph;
      ePk := suite.publicKey(eSk);
      symmetric.MixHash(suite, ePk);
      out := ePk;
    }

    /** The payload of an outgoing message, and the step counter. */
    method WritePayload(suite: Suite, head: Bytes, payload: Bytes) returns (msg: Option<Bytes>)
      requires suite.Lawful() && Valid() && (step == 1 ==> symmetric.cipher.hasKey)
      modifies this, symmetric, symmetric.h
      ensures var (sym, text) := EncryptAndHash(suite, old(View()).sym, payload);
              View() == old(View()).(sym := sym, step := old(step) + 1) && msg == Some(head + text)
      ensures Valid()
    {
      var text := symmetric.EncryptAndHash(suite, payload);
      step := step + 1;
      msg := Some(head + text);
    }

    /** eph is the ephemeral secret drawn by generate_keypair; the third message draws none. */
    method WriteMessage(suite: Suite, payload: Bytes, eph: Bytes) returns (msg: Option<Bytes>)
      requires suite.Lawful() && Valid()
      modifies this, symmetric, symmetric.ck, symmetric.h
      ensures Valid() && (View(), msg) == NoiseSpec.WriteMessage(suite, old(View()), payload, eph)
    {
      if step == 0 {
        msg := WriteFirst(suite, payload, eph);
      } else if step == 1 {
        msg := WriteSecond(suite, payload, eph);
      } else if step == 2 {
        msg := WriteThird(suite, payload, eph);
      } else {
        msg := None;
      }
    }

    method WriteFirst(suite: Suite, payload: Bytes, eph: Bytes) returns (msg: Option<Bytes>)
      requires suite.Lawful() && Valid() && step == 0
      modifies this, symmetric, symmetric.ck, symmetric.h
      ensures Valid() && (View(), msg) == NoiseSpec.WriteMessage(suite, old(View()), payload, eph)
    {
      WriteStep(suite, View(), eph);
      var out := WriteEphemeral(suite, eph);
      assert [] + out == out;
      msg := WritePayload(suite, out, payload);
    }

    /** The s token, then a key agreement: the end of the second and of the third message. */
    method WriteStatic(suite: Suite, es: bool) returns (out: Option<Bytes>)
      requires suite.Lawful() && Valid()
      modifies symmetric, symmetric.ck, symmetric.h
      ensures Valid() && (out.Some? ==> symmetric.cipher.hasKey)
      ensures forall eph ::
                var (v, o) := WriteToken(suite, old(View()), S, eph);
                var (v', ok) := Agree(suite, v, if es then ES else SE);
                o.Some? && View() == v' && out == if ok then o else None
    {
      var s := symmetric.EncryptAndHash(suite, sPk);
      var ok;
      if initiator == es {
        ok := MixShared(suite, if es then ES else SE, eSk, rs);
      } else {
        ok := MixShared(suite, if es then ES else SE, sSk, re);
      }
      out := if ok then Some(s) else None;
    }

    /** The e and ee tokens that open the second message. */
    method WriteAgreed(suite: Suite, eph: Bytes) returns (out: Option<Bytes>)
      requires suite.Lawful() && Valid() && step == 1
      modifies this, symmetric, symmetric.ck, symmetric.h
      ensures Valid() && step == old(step)
      ensures (View(), out) == AndWrite(suite, AndWrite(suite, (old(View()), Some([])), E, eph), EE, eph)
    {
      ghost var start := (View(), Some([]));
      var o := WriteEphemeral(suite, eph);
      assert [] + o == o;
      assert (View(), Some(o)) == AndWrite(suite, start, E, eph);
      var ok := MixShared(suite, EE, eSk, re);
      assert o + [] == o;
      out := if ok then Some(o) else None;
    }

    /** The s token and the key agreement after it, behind what the message already holds. */
    method WriteTail(suite: Suite, head: Bytes, es: bool, ghost eph: Bytes) returns (out: Option<Bytes>)
      requires suite.Lawful() && Valid()
      modifies symmetric, symmetric.ck, symmetric.h
      ensures Valid() && (out.Some? ==> symmetric.cipher.hasKey)
      ensures (View(), out)
              == AndWrite(suite, AndWrite(suite, (old(View()), Some(head)), S, eph), if es then ES else SE, eph)
    {
      ghost var start := View();
      var s := WriteStatic(suite, es);
      ghost var (v, o) := WriteToken(suite, start, S, eph);
      if s.None? {
        return None;
      }
      assert head + s.value + [] == head + s.value;
      out := Some(head + s.value);
    }

    method WriteSecond(suite: Suite, payload: Bytes, eph: Bytes) returns (msg: Option<Bytes>)
      requires suite.Lawful() && Valid() && step == 1
      modifies this, symmetric, symmetric.ck, symmetric.h
      ensures Valid() && (View(), msg) == NoiseSpec.WriteMessage(suite, old(View()), payload, eph)
    {
      WriteStep(suite, View(), eph);
      var out := WriteAgreed(suite, eph);
      if out.None? {
        return None;
      }
      out := WriteTail(suite, out.value, true, eph);
      if out.None? {
        return None;
      }
      msg := WritePayload(suite, out.value, payload);
    }

    method WriteThird(suite: Suite, payload: Bytes, ghost eph: Bytes) returns (msg: Option<Bytes>)
      requires suite.Lawful() && Valid() && step == 2
      modifies this, symmetric, symmetric.ck, symmetric.h
      ensures Valid() && (View(), msg) == NoiseSpec.WriteMessage(suite, old(View()), payload, eph)
    {
      WriteStep(suite, View(), eph);
      var out := WriteTail(suite, [], false, eph);
      if out.None? {
        return None;
      }
      msg := WritePayload(suite, out.value, payload);
    }

    /** The payload of an incoming message, and the step counter. */
    method ReadPayload(suite: Suite, text: Bytes) returns (payload: Option<Bytes>)
      requires suite.Lawful() && Valid() && (step == 1 ==> symmetric.cipher.hasKey)
      modifies this, symmetric, symmetric.h
      ensures var (sym, plain) := DecryptAndHash(suite, old(View()).sym, text);
              && payload == plain
              && View() == if plain.None? then old(View()) else old(View()).(sym := sym, step := old(step) + 1)
      ensures Valid()
    {
      payload := symmetric.DecryptAndHash(suite, text);
      if payload.Some? {
        step := step + 1;
      }
    }

    /** The e token of an incoming message. */
    method ReadEphemeral(suite: Suite, msg: Bytes) returns (rest: Option<Bytes>)
      requires suite.Lawful() && Valid()
      modifies this, symmetric.h
      ensures Valid() && (View(), rest) == ReadToken(suite, old(View()), E, msg)
    {
      if |msg| < DHLEN {
        return None;
      }
      re := msg[..DHLEN];
      symmetric.MixHash(suite, re);
      rest := Some(msg[DHLEN..]);
    }

    /** The s token of an incoming message: always a sealed key in XX. */
    method ReadStatic(suite: Suite, msg: Bytes) returns (rest: Option<Bytes>)
      requires suite.Lawful() && Valid() && symmetric.cipher.hasKey
      modifies this, symmetric, symmetric.h
      ensures Valid() && (View(), rest) == ReadToken(suite, old(View()), S, msg)
    {
      if |msg| < DHLEN + MACLEN {
        return None;
      }
      var key := symmetric.DecryptAndHash(suite, msg[..DHLEN + MACLEN]);
      if key.None? {
        rs := ZERO_KEY;
        return None;
      }
      rs := key.value;
      rest := Some(msg[DHLEN + MACLEN..]);
    }

    method ReadMessage(suite: Suite, msg: Bytes) returns (payload: Option<Bytes>)
      requires suite.Lawful() && Valid()
      modifies this, symmetric, symmetric.ck, symmetric.h
      ensures Valid() && (View(), payload) == NoiseSpec.ReadMessage(suite, old(View()), msg)
    {
      if step == 0 {
        payload := ReadFirst(suite, msg);
      } else if step == 1 {
        payload := ReadSecond(suite, msg);
      } else if step == 2 {
        payload := ReadThird(suite, msg);
      } else {
        payload := None;
      }
    }

    method ReadFirst(suite: Suite, msg: Bytes) returns (payload: Option<Bytes>)
      requires suite.Lawful() && Valid() && step == 0
      modifies this, symmetric, symmetric.ck, symmetric.h
      ensures Valid() && (View(), payload) == NoiseSpec.ReadMessage(suite, old(View()), msg)
    {
      ReadStep(suite, View(), msg);
      var rest := ReadEphemeral(suite, msg);
      if rest.None? {
        return None;
      }
      payload := ReadPayload(suite, rest.value);
    }

    /** The e and ee tokens that open the second message. */
    method ReadAgreed(suite: Suite, msg: Bytes) returns (rest: Option<Bytes>)
      requires suite.Lawful() && Valid()
      modifies this, symmetric, symmetric.ck, symmetric.h
      ensures Valid() && step == old(step) && (rest.Some? ==> symmetric.cipher.hasKey)
      ensures (View(), rest) == AndRead(suite, AndRead(suite, (old(View()), Some(msg)), E), EE)
    {
      rest := ReadEphemeral(suite, msg);
      if rest.None? {
        return None;
      }
      var ok := MixShared(suite, EE, eSk, re);
      if !ok {
        return None;
      }
    }

    /** The s token and the key agreement after it: the end of the second and of the third message. */
    method ReadTail(suite: Suite, msg: Bytes, es: bool) returns (rest: Option<Bytes>)
      requires suite.Lawful() && Valid() && symmetric.cipher.hasKey
      modifies this, symmetric, symmetric.ck, symmetric.h
      ensures Valid() && step == old(step) && (rest.Some? ==> symmetric.cipher.hasKey)
      ensures (View(), rest)
              == AndRead(suite, AndRead(suite, (old(View()), Some(msg)), S), if es then ES else SE)
    {
      rest := ReadStatic(suite, msg);
      if rest.None? {
        return None;
      }
      var ok;
      if initiator == es {
        ok := MixShared(suite, if es then ES else SE, eSk, rs);
      } else {
        ok := MixShared(suite, if es then ES else SE, sSk, re);
      }
      if !ok {
        return None;
      }
    }

    method ReadSecond(suite: Suite, msg: Bytes) returns (payload: Option<Bytes>)
      requires suite.Lawful() && Valid() && step == 1
      modifies this, symmetric, symmetric.ck, symmetric.h
      ensures Valid() && (View(), payload) == NoiseSpec.ReadMessage(suite, old(View()), msg)
    {
      ReadStep(suite, View(), msg);
      var rest := ReadAgreed(suite, msg);
      if rest.None? {
        return None;
      }
      rest := ReadTail(suite, rest.value, true);
      if rest.None? {
        return None;
      }
      payload := ReadPayload(suite, rest.value);
    }

    method ReadThird(suite: Suite, msg: Bytes) returns (payload: Option<Bytes>)
      requires suite.Lawful() && Valid() && step == 2
      modifies this, symmetric, symmetric.ck, symmetric.h
      ensures Valid() && (View(), payload) == NoiseSpec.ReadMessage(suite, old(View()), msg)
    {
      ReadStep(suite, View(), msg);
      var rest := ReadTail(suite, msg, false);
      if rest.None? {
        return None;
      }
      payload := ReadPayload(suite, rest.value);
    }

    /** Transport ciphers for this side's sending and receiving. */
    method Split(suite: Suite) returns (send: Cipher, recv: Cipher)
      requires suite.Lawful() && Valid()
      ensures (send, recv) == NoiseSpec.Split(suite, View())
    {
      var k1, k2 := new Byte[HASHLEN], new Byte[HASHLEN];
      Hkdf2(suite, symmetric.ck, [], k1, k2);
      var c1, c2 := Cipher(k1[..], 0, true), Cipher(k2[..], 0, true);
      if initiator {
        send, recv := c1, c2;
      } else {
        send, recv := c2, c1;
      }
    }
  }
}
