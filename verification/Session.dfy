/** Transport encryption after the handshake: NoiseSession of core/cm/transport.cpp. */
module Session {
  import opened Bytes
  import opened NoiseSpec
  import opened Noise
  import opened NoiseAuthentic
  import opened ReplayWindow

  const FLAG_RAW: Byte := 0
  const FLAG_ZSTD: Byte := 1
  const MAX_PLAIN: nat := 128 * 1024 * 1024

  /** zstd: decompression undoes compression when the declared size suffices, and errs otherwise. */
  datatype Zstd = Zstd(compress: (Bytes, int) -> Option<Bytes>, decompress: (Bytes, nat) -> Option<Bytes>) {
    ghost predicate Lawful() {
      forall p, level, cap ::
        compress(p, level).Some? ==>
          decompress(compress(p, level).value, cap) == if |p| <= cap then Some(p) else None
    }
  }

  datatype Compression = Compression(enabled: bool, threshold: int, level: int)

  /** A negative int threshold becomes an enormous size_t. */
  function AsSize(n: int): int { if n < 0 then NONCES + n else n }

  /** The compressed form, when compression is on, applies and actually shrinks the payload. */
  function Compressed(z: Zstd, c: Compression, plain: Bytes): Option<Bytes> {
    if c.enabled && |plain| > AsSize(c.threshold) then
      match z.compress(plain, c.level)
      case Some(d) => if |d| < |plain| then Some(d) else None
      case None => None
    else None
  }

  /** flags, then for a compressed body the 32-bit original size, then the data. */
  function Pack(z: Zstd, c: Compression, plain: Bytes): Bytes {
    match Compressed(z, c, plain)
    case Some(d) => [FLAG_ZSTD] + LittleEndian(|plain|, 4) + d
    case None => [FLAG_RAW] + plain
  }

  /** The payload of a decrypted body; every failure is the empty payload. */
  function Unpack(z: Zstd, body: Bytes): Bytes {
    if body == [] then []
    else
      var payload := body[1..];
      if body[0] == FLAG_RAW then payload
      else if body[0] == FLAG_ZSTD then
        if |payload| < 4 then []
        else
          var size := FromLittleEndian(payload[..4]);
          if size == 0 || size > MAX_PLAIN then []
          else
            match z.decompress(payload[4..], size)
            case Some(p) => p
            case None => []
      else []
  }

  /** Unpacking restores the payload exactly when it travelled raw or is at most 128 MB long. */
  lemma UnpackPackIff(z: Zstd, c: Compression, plain: Bytes)
    requires z.Lawful()
    ensures Unpack(z, Pack(z, c, plain)) == plain
            <==> Compressed(z, c, plain).None? || |plain| <= MAX_PLAIN
    ensures Unpack(z, Pack(z, c, plain)) == plain || Unpack(z, Pack(z, c, plain)) == []
  {
    var body := Pack(z, c, plain);
    match Compressed(z, c, plain) {
      case None =>
        assert body[1..] == plain;
      case Some(d) =>
        var payload := body[1..];
        assert payload == LittleEndian(|plain|, 4) + d;
        assert payload[..4] == LittleEndian(|plain|, 4) && payload[4..] == d;
        LittleEndian32Truncates(|plain|);
        var size := FromLittleEndian(payload[..4]);
        assert size == |plain| % 0x1_0000_0000;
        assert z.decompress(d, size) == if |plain| <= size then Some(plain) else None;
    }
  }

  // ---- Frames on an encrypted connection ----

  /** A frame as encryption and replay see it: header packet_id and encrypted payload. */
  datatype Frame = Frame(pid: nat, wire: Bytes)

  function Seal(suite: Suite, z: Zstd, c: Compression, key: Bytes, pid: nat, plain: Bytes): Frame {
    Frame(pid, suite.seal(key, pid, [], Pack(z, c, plain)))
  }

  /** NoiseSession::decrypt: length, then replay window, then AEAD, then unpacking. */
  function Open(suite: Suite, z: Zstd, key: Bytes, w: Window, f: Frame): (Window, Bytes) {
    if |f.wire| < MACLEN then (w, [])
    else
      var (w', ok) := Step(w, f.pid);
      if !ok then (w', [])
      else
        match suite.open(key, f.pid, [], f.wire)
        case None => (w', [])
        case Some(body) => (w', Unpack(z, body))
  }

  class NoiseSession {
    const sendKey: array<Byte>
    const recvKey: array<Byte>
    const recvWindow: NonceWindow

    ghost predicate Valid()
      reads this, recvWindow
    {
      && sendKey.Length == KEYLEN && recvKey.Length == KEYLEN && sendKey != recvKey
      && recvWindow.Valid()
    }

    constructor (send: Bytes, recv: Bytes)
      requires |send| == KEYLEN && |recv| == KEYLEN
      ensures Valid() && fresh(sendKey) && fresh(recvKey) && fresh(recvWindow)
      ensures sendKey[..] == send && recvKey[..] == recv && recvWindow.View() == EMPTY
    {
      sendKey := new Byte[KEYLEN];
      recvKey := new Byte[KEYLEN];
      recvWindow := new NonceWindow();
      new;
      Copy(sendKey, send);
      Copy(recvKey, recv);
    }

    method Encrypt(suite: Suite, z: Zstd, c: Compression, plain: Bytes, nonce: nat) returns (wire: Bytes)
      requires Valid()
      ensures Frame(nonce, wire) == Seal(suite, z, c, sendKey[..], nonce, plain)
    {
      var compressed := None;
      if c.enabled && |plain| > AsSize(c.threshold) {
        var d := z.compress(plain, c.level);
        if d.Some? && |d.value| < |plain| {
          compressed := d;
        }
      }
      var body;
      if compressed.Some? {
        body := [FLAG_ZSTD] + LittleEndian(|plain|, 4) + compressed.value;
      } else {
        body := [FLAG_RAW] + plain;
      }
      wire := suite.seal(sendKey[..], nonce, [], body);
    }

    method Decrypt(suite: Suite, z: Zstd, wire: Bytes, nonce: nat) returns (plain: Bytes)
      requires Valid()
      modifies recvWindow
      ensures Valid()
      ensures (recvWindow.View(), plain) == Open(suite, z, recvKey[..], old(recvWindow.View()), Frame(nonce, wire))
    {
      if |wire| < MACLEN {
        return [];
      }
      var ok := recvWindow.Accept(nonce);
      if !ok {
        return [];
      }
      var body := suite.open(recvKey[..], nonce, [], wire);
      if body.None? {
        return [];
      }
      plain := Unpack(z, body.value);
    }

    /** rekey_session: each key is replaced by the first HKDF output of itself, the window forgets. */
    method Rekey(suite: Suite)
      requires suite.Lawful() && Valid()
      modifies sendKey, recvKey, recvWindow
      ensures Valid() && recvWindow.View() == EMPTY
      ensures Keys(sendKey[..], recvKey[..]) == NextKeys(suite, Keys(old(sendKey[..]), old(recvKey[..])))
    {
      var newSend, newRecv := new Byte[KEYLEN], new Byte[KEYLEN];
      Hkdf2(suite, sendKey, [], newSend, newRecv);
      Copy(sendKey, newSend[..]);
      Hkdf2(suite, recvKey, [], newRecv, newSend);
      Copy(recvKey, newRecv[..]);
      recvWindow.Reset();
    }
  }

  // ---- Rekeying ----

  datatype Keys = Keys(send: Bytes, recv: Bytes)

  function NextKeys(suite: Suite, k: Keys): Keys {
    Keys(HkdfFirst(suite, k.send, []), HkdfFirst(suite, k.recv, []))
  }

  function KeysAfter(suite: Suite, k: Keys, rekeys: nat): Keys {
    if rekeys == 0 then k else NextKeys(suite, KeysAfter(suite, k, rekeys - 1))
  }

  predicate Crossed(a: Keys, b: Keys) { a.send == b.recv && a.recv == b.send }

  /** Ends that started crossed and rekeyed the same number of times are still crossed. */
  lemma {:induction false} RekeyKeepsCrossed(suite: Suite, a: Keys, b: Keys, rekeys: nat)
    requires Crossed(a, b)
    ensures Crossed(KeysAfter(suite, a, rekeys), KeysAfter(suite, b, rekeys))
  {
    if rekeys > 0 {
      RekeyKeepsCrossed(suite, a, b, rekeys - 1);
    }
  }

  // ---- The receiving end over any sequence of arrivals ----

  /** The window and, for each arrival, the payload handed on (dispatch drops an empty one). */
  function Receive(suite: Suite, z: Zstd, key: Bytes, fs: seq<Frame>): (Window, seq<Option<Bytes>>) {
    if fs == [] then (EMPTY, [])
    else
      var n := |fs| - 1;
      var (w, outs) := Receive(suite, z, key, fs[..n]);
      var (w', plain) := Open(suite, z, key, w, fs[n]);
      (w', outs + [if plain == [] then None else Some(plain)])
  }

  /** Packet ids the window has taken over a sequence of arrivals. */
  ghost function TakenIds(suite: Suite, z: Zstd, key: Bytes, fs: seq<Frame>): set<nat> {
    if fs == [] then {}
    else
      var n := |fs| - 1;
      var before := TakenIds(suite, z, key, fs[..n]);
      var w := Receive(suite, z, key, fs[..n]).0;
      if |fs[n].wire| >= MACLEN && Step(w, fs[n].pid).1 then before + {fs[n].pid} else before
  }

  lemma {:induction false} ReceiveRepresents(suite: Suite, z: Zstd, key: Bytes, fs: seq<Frame>)
    ensures |Receive(suite, z, key, fs).1| == |fs|
    ensures Represents(Receive(suite, z, key, fs).0, TakenIds(suite, z, key, fs))
    decreases |fs|
  {
    if fs != [] {
      var n := |fs| - 1;
      ReceiveRepresents(suite, z, key, fs[..n]);
      AcceptIsFresh(Receive(suite, z, key, fs[..n]).0, TakenIds(suite, z, key, fs[..n]), fs[n].pid);
    }
  }

  lemma {:induction false} ReceivePrefix(suite: Suite, z: Zstd, key: Bytes, fs: seq<Frame>, k: nat)
    requires k <= |fs|
    ensures |Receive(suite, z, key, fs).1| == |fs|
    ensures Receive(suite, z, key, fs).1[..k] == Receive(suite, z, key, fs[..k]).1
    ensures TakenIds(suite, z, key, fs[..k]) <= TakenIds(suite, z, key, fs)
    decreases |fs|
  {
    ReceiveRepresents(suite, z, key, fs);
    ReceiveRepresents(suite, z, key, fs[..k]);
    if k < |fs| {
      ReceivePrefix(suite, z, key, fs[..|fs| - 1], k);
      assert fs[..|fs| - 1][..k] == fs[..k];
    } else {
      assert fs[..k] == fs;
    }
  }

  /** What is handed on at position k, in terms of the arrivals before it. */
  lemma ReceiveAt(suite: Suite, z: Zstd, key: Bytes, fs: seq<Frame>, k: nat)
    requires k < |fs|
    ensures |Receive(suite, z, key, fs).1| == |fs|
    ensures var w := Receive(suite, z, key, fs[..k]).0;
            var taken := TakenIds(suite, z, key, fs[..k]);
            var out := Receive(suite, z, key, fs).1[k];
            && Represents(w, taken)
            && (out.Some? <==> Open(suite, z, key, w, fs[k]).1 != [])
            && (out.Some? ==> out.value == Open(suite, z, key, w, fs[k]).1)
            && (out.Some? ==> Fresh(w.highest, taken, fs[k].pid))
            && (out.Some? ==> fs[k].pid in TakenIds(suite, z, key, fs[..k + 1]))
  {
    ReceivePrefix(suite, z, key, fs, k + 1);
    ReceiveRepresents(suite, z, key, fs[..k]);
    var upTo := fs[..k + 1];
    assert upTo[..k] == fs[..k];
    var (w, outs) := Receive(suite, z, key, fs[..k]);
    assert Receive(suite, z, key, fs).1[k] == Receive(suite, z, key, fs).1[..k + 1][k];
    AcceptIsFresh(w, TakenIds(suite, z, key, fs[..k]), fs[k].pid);
  }

  /** Whatever arrives, forged or repeated, one packet id is handed on at most once. */
  lemma IdHandedOnOnce(suite: Suite, z: Zstd, key: Bytes, fs: seq<Frame>, i: nat, j: nat)
    requires i < j < |fs|
    ensures |Receive(suite, z, key, fs).1| == |fs|
    ensures Receive(suite, z, key, fs).1[i].Some? && Receive(suite, z, key, fs).1[j].Some? ==> fs[i].pid != fs[j].pid
  {
    ReceiveAt(suite, z, key, fs, i);
    ReceiveAt(suite, z, key, fs, j);
    ReceivePrefix(suite, z, key, fs[..j], i + 1);
    assert fs[..j][..i + 1] == fs[..i + 1];
  }

  /** A genuine frame that the window lets through yields its own payload or, if oversized, nothing. */
  lemma OpenGenuine(suite: Suite, z: Zstd, c: Compression, key: Bytes, w: Window, pid: nat, plain: Bytes)
    requires suite.Lawful() && z.Lawful()
    ensures var out := Open(suite, z, key, w, Seal(suite, z, c, key, pid, plain)).1;
            && (out != [] ==> out == plain)
            && (out != [] <==> Step(w, pid).1 && plain != [] && (Compressed(z, c, plain).None? || |plain| <= MAX_PLAIN))
  {
    UnpackPackIff(z, c, plain);
    var body := Pack(z, c, plain);
    assert |suite.seal(key, pid, [], body)| == |body| + MACLEN;
    assert suite.open(key, pid, [], suite.seal(key, pid, [], body)) == Some(body);
  }

  // ---- Genuine frames among arbitrary ones ----

  /** Frames too short for a tag are dropped before the window sees their id. */
  predicate ReachesWindow(f: Frame) { |f.wire| >= MACLEN }

  /** An id seen: below the newest one, and taken unless it was zero or already out of reach. */
  ghost predicate Settled(id: nat, highest: nat, taken: set<nat>) {
    id <= highest && (id == 0 || id in taken || id + WINDOW <= highest)
  }

  /** The window after one more frame, as far as ids go. */
  lemma OneMoreFrame(suite: Suite, z: Zstd, key: Bytes, fs: seq<Frame>)
    requires fs != []
    ensures var front := fs[..|fs| - 1];
            var w, w' := Receive(suite, z, key, front).0, Receive(suite, z, key, fs).0;
            var taken, taken' := TakenIds(suite, z, key, front), TakenIds(suite, z, key, fs);
            w.highest <= w'.highest && taken <= taken' &&
            (ReachesWindow(fs[|fs| - 1]) ==> Settled(fs[|fs| - 1].pid, w'.highest, taken'))
  {
    var front, f := fs[..|fs| - 1], fs[|fs| - 1];
    ReceiveRepresents(suite, z, key, front);
    AcceptIsFresh(Receive(suite, z, key, front).0, TakenIds(suite, z, key, front), f.pid);
  }

  lemma {:induction false} SeenAreSettled(suite: Suite, z: Zstd, key: Bytes, fs: seq<Frame>, i: nat)
    requires i < |fs| && ReachesWindow(fs[i])
    ensures Settled(fs[i].pid, Receive(suite, z, key, fs).0.highest, TakenIds(suite, z, key, fs))
    decreases |fs|
  {
    OneMoreFrame(suite, z, key, fs);
    if i < |fs| - 1 {
      SeenAreSettled(suite, z, key, fs[..|fs| - 1], i);
    }
  }

  lemma {:induction false} TakenWereSeen(suite: Suite, z: Zstd, key: Bytes, fs: seq<Frame>, id: nat)
    requires id in TakenIds(suite, z, key, fs)
    ensures exists i :: 0 <= i < |fs| && ReachesWindow(fs[i]) && fs[i].pid == id
    decreases |fs|
  {
    var n := |fs| - 1;
    if id in TakenIds(suite, z, key, fs[..n]) {
      TakenWereSeen(suite, z, key, fs[..n], id);
      var i :| 0 <= i < n && ReachesWindow(fs[..n][i]) && fs[..n][i].pid == id;
      assert ReachesWindow(fs[i]) && fs[i].pid == id;
    } else {
      assert ReachesWindow(fs[n]) && fs[n].pid == id;
    }
  }

  /** No frame of these, genuine or not, carries the id or one 256 or more above it. */
  ghost predicate Unshadowed(fs: seq<Frame>, pid: nat) {
    pid > 0 && forall i :: 0 <= i < |fs| && ReachesWindow(fs[i]) ==> fs[i].pid != pid && fs[i].pid < pid + WINDOW
  }

  /** After any arrivals whatever the window takes an id exactly when none of them shadows it. */
  lemma TakenIff(suite: Suite, z: Zstd, key: Bytes, fs: seq<Frame>, pid: nat)
    ensures Step(Receive(suite, z, key, fs).0, pid).1 <==> Unshadowed(fs, pid)
  {
    var w, taken := Receive(suite, z, key, fs).0, TakenIds(suite, z, key, fs);
    ReceiveRepresents(suite, z, key, fs);
    forall i | 0 <= i < |fs| && ReachesWindow(fs[i])
      ensures Settled(fs[i].pid, w.highest, taken)
    {
      SeenAreSettled(suite, z, key, fs, i);
    }
    AcceptIsFresh(w, taken, pid);
    if Unshadowed(fs, pid) {
      if pid in taken {
        TakenWereSeen(suite, z, key, fs, pid);
      }
      if w.highest > 0 {
        TakenWereSeen(suite, z, key, fs, w.highest);
      }
    }
  }

  predicate Restorable(z: Zstd, c: Compression, plain: Bytes) {
    plain != [] && (Compressed(z, c, plain).None? || |plain| <= MAX_PLAIN)
  }

  /**
   A genuine frame among arbitrary ones is handed on, unaltered, exactly when its payload can be
   restored and nothing that came before, forged ids included, shadows its id.
   */
  lemma HandedOnIff(suite: Suite, z: Zstd, c: Compression, key: Bytes, fs: seq<Frame>, k: nat, pid: nat, plain: Bytes)
    requires suite.Lawful() && z.Lawful() && k < |fs| && fs[k] == Seal(suite, z, c, key, pid, plain)
    ensures |Receive(suite, z, key, fs).1| == |fs|
    ensures Receive(suite, z, key, fs).1[k]
            == if Unshadowed(fs[..k], pid) && Restorable(z, c, plain) then Some(plain) else None
  {
    ReceiveAt(suite, z, key, fs, k);
    TakenIff(suite, z, key, fs[..k], pid);
    OpenGenuine(suite, z, c, key, Receive(suite, z, key, fs[..k]).0, pid, plain);
  }

  // ---- What is never handed on ----

  /** The frame is a seal, under the key and its own id, of a body. */
  ghost predicate IsSeal(suite: Suite, key: Bytes, f: Frame) {
    exists body :: f.wire == suite.seal(key, f.pid, [], body)
  }

  /** Whatever arrives, only seals under the key and the id they carry are handed on, as what they seal. */
  lemma OnlySealsHandedOn(suite: Suite, z: Zstd, key: Bytes, fs: seq<Frame>, k: nat)
    requires Authentic(suite) && k < |fs|
    ensures |Receive(suite, z, key, fs).1| == |fs|
    ensures Receive(suite, z, key, fs).1[k].Some? ==>
              exists body :: fs[k].wire == suite.seal(key, fs[k].pid, [], body) &&
                             Receive(suite, z, key, fs).1[k].value == Unpack(z, body)
  {
    ReceiveAt(suite, z, key, fs, k);
    var w := Receive(suite, z, key, fs[..k]).0;
    if Receive(suite, z, key, fs).1[k].Some? {
      var got := suite.open(key, fs[k].pid, [], fs[k].wire);
      assert got.Some?;
      assert fs[k].wire == suite.seal(key, fs[k].pid, [], got.value);
      assert Open(suite, z, key, w, fs[k]).1 == Unpack(z, got.value);
    }
  }

  /** A tampered frame, one that is no seal under the key and its id, is never handed on. */
  lemma TamperedRefused(suite: Suite, z: Zstd, key: Bytes, fs: seq<Frame>, k: nat)
    requires Authentic(suite) && k < |fs| && !IsSeal(suite, key, fs[k])
    ensures |Receive(suite, z, key, fs).1| == |fs| && Receive(suite, z, key, fs).1[k].None?
  {
    OnlySealsHandedOn(suite, z, key, fs, k);
  }

  // ---- What packing costs, and what it leaves alone ----

  /**
   A body is at most four bytes longer than its payload; one up to the threshold travels as it is, and
   one above it that shrinks travels compressed.
   */
  lemma PackSize(z: Zstd, c: Compression, plain: Bytes)
    ensures |Pack(z, c, plain)| <= |plain| + 4
    ensures !c.enabled || |plain| <= AsSize(c.threshold) ==> Pack(z, c, plain) == [FLAG_RAW] + plain
    ensures var d := z.compress(plain, c.level);
            c.enabled && |plain| > AsSize(c.threshold) && d.Some? && |d.value| < |plain| ==>
              Pack(z, c, plain) == [FLAG_ZSTD] + LittleEndian(|plain|, 4) + d.value
  {
  }

  /** The body holds the payload as it is, or compressed behind a size from 1 to 128 MB for which it comes back. */
  ghost predicate Holds(z: Zstd, body: Bytes, plain: Bytes) {
    body == [FLAG_RAW] + plain ||
    exists d: Bytes, size: nat ::
      0 < size <= MAX_PLAIN && body == [FLAG_ZSTD] + LittleEndian(size, 4) + d && z.decompress(d, size) == Some(plain)
  }

  /** A payload comes out of a body exactly when the body holds it; any other body comes to nothing. */
  lemma UnpackIff(z: Zstd, body: Bytes, plain: Bytes)
    requires plain != []
    ensures Unpack(z, body) == plain <==> Holds(z, body, plain)
  {
    if body == [FLAG_RAW] + plain {
      assert body[1..] == plain;
    }
    forall d: Bytes, size: nat | 0 < size <= MAX_PLAIN && body == [FLAG_ZSTD] + LittleEndian(size, 4) + d
      ensures Unpack(z, body) == match z.decompress(d, size) case Some(p) => p case None => []
    {
      assert body[1..][..4] == LittleEndian(size, 4) && body[1..][4..] == d;
      Pow256Values();
      LittleEndianRoundTrip(size, 4);
    }
    if Unpack(z, body) == plain {
      if body[0] == FLAG_RAW {
        assert body == [FLAG_RAW] + body[1..];
      } else {
        var payload := body[1..];
        var size := FromLittleEndian(payload[..4]);
        FromLittleEndianRoundTrip(payload[..4]);
        assert body == [FLAG_ZSTD] + LittleEndian(size, 4) + payload[4..];
      }
    }
  }

  // ---- Rekeying makes new keys, each from its own ----

  /** The chain of keys that starts from one key: each is the first block expanded from the one before. */
  function KeyChain(suite: Suite, key: Bytes, n: nat): Bytes {
    if n == 0 then key else Chain(suite, KeyChain(suite, key, n - 1), []).0
  }

  /** After n rekeys each key is the n-th of its own chain, whatever the other key is. */
  lemma {:induction false} RekeyChains(suite: Suite, k: Keys, n: nat)
    ensures KeysAfter(suite, k, n) == Keys(KeyChain(suite, k.send, n), KeyChain(suite, k.recv, n))
    decreases n
  {
    if n > 0 {
      RekeyChains(suite, k, n - 1);
      HkdfBlocks(suite, KeyChain(suite, k.send, n - 1), []);
      HkdfBlocks(suite, KeyChain(suite, k.recv, n - 1), []);
    }
  }

  /** A new key is the one SplitSym derives first when the old key is the chaining key. */
  lemma RekeyIsSplit(suite: Suite, k: Keys, s: Sym)
    ensures NextKeys(suite, k).send == SplitSym(suite, s.(ck := k.send)).0.key
    ensures NextKeys(suite, k).recv == SplitSym(suite, s.(ck := k.recv)).0.key
  {
  }

  /** No seal under one of the keys is one under the other. */
  ghost predicate Apart(suite: Suite, key: Bytes, other: Bytes) {
    forall n, p, q :: suite.seal(key, n, [], p) != suite.seal(other, n, [], q)
  }

  /**
   A frame sealed in one epoch is not handed on in another, although the window has forgotten its id,
   if the keys of the two epochs are apart.
   */
  lemma OldEpochRefused(suite: Suite, z: Zstd, c: Compression, first: Keys, at: nat, later: nat, fs: seq<Frame>,
                        k: nat, pid: nat, plain: Bytes)
    requires Authentic(suite) && k < |fs|
    requires Apart(suite, KeyChain(suite, first.send, at), KeyChain(suite, first.send, later))
    requires fs[k] == Seal(suite, z, c, KeysAfter(suite, first, at).send, pid, plain)
    ensures var outs := Receive(suite, z, KeysAfter(suite, first, later).send, fs).1;
            |outs| == |fs| && outs[k].None?
  {
    RekeyChains(suite, first, at);
    RekeyChains(suite, first, later);
    var key := KeysAfter(suite, first, later).send;
    assert !IsSeal(suite, key, fs[k]);
    TamperedRefused(suite, z, key, fs, k);
  }

  // ---- The hypotheses can be met ----

  /** A key with its first byte stepped: a hash under which a chain of keys moves on. */
  function Stepped(key: Bytes): Bytes {
    if |key| != HASHLEN then Blank(HASHLEN) else [((key[0] as int) + 1) % 256] + key[1..]
  }

  /** The tag of a key is its beginning. */
  function TagOf(key: Bytes): Bytes { if |key| < MACLEN then Blank(MACLEN) else key[..MACLEN] }

  /** A suite of no cryptographic worth whose tags tell keys apart and whose chains move on. */
  function SteppingSuite(): Suite {
    Suite(_ => Blank(DHLEN), (_, _) => Some(Blank(DHLEN)), _ => Blank(HASHLEN), (k, _) => Stepped(k),
          (k, _, _, p) => p + TagOf(k),
          (k, _, _, c: Bytes) =>
            if |c| < MACLEN || c[|c| - MACLEN..] != TagOf(k) then None else Some(c[..|c| - MACLEN]))
  }

  lemma SteppingLawful()
    ensures SteppingSuite().Lawful() && Authentic(SteppingSuite())
  {
    forall k: Bytes, p: Bytes
      ensures (p + TagOf(k))[..|p|] == p && (p + TagOf(k))[|p|..] == TagOf(k)
    {
    }
    forall k: Bytes, t: Bytes | |t| >= MACLEN && t[|t| - MACLEN..] == TagOf(k)
      ensures t == t[..|t| - MACLEN] + TagOf(k)
    {
    }
  }

  /** Over it, a key and the one a rekey makes of it are apart. */
  lemma SteppingApart()
    ensures var suite := SteppingSuite(); Apart(suite, KeyChain(suite, Blank(KEYLEN), 0), KeyChain(suite, Blank(KEYLEN), 1))
  {
    var suite := SteppingSuite();
    BlankStartsZero(KEYLEN);
    var a := Blank(KEYLEN);
    var b := KeyChain(suite, a, 1);
    assert KeyChain(suite, a, 0) == a;
    assert b == Stepped(Stepped(a)) && b[0] == 2;
    assert TagOf(a)[0] == 0 && TagOf(b)[0] == 2;
    forall n: nat, p: Bytes, q: Bytes
      ensures suite.seal(a, n, [], p) != suite.seal(b, n, [], q)
    {
      assert (p + TagOf(a))[|p|] == 0 && (q + TagOf(b))[|q|] == 2;
    }
  }
}
