/**
 The STUN messages of the ICE connector: attributes, the two builders with MESSAGE-INTEGRITY and
 FINGERPRINT, and the two parsers (sections 6, 15.2, 15.4 and 15.5 of RFC 5389).
 The keyed hash and the checksum are parameters: any functions with 20-byte and 4-byte results.
 */
module Stun {
  import opened Bytes
  import opened Bits
  import Crc32

  const BINDING_REQUEST: nat := 0x0001
  const BINDING_RESPONSE: nat := 0x0101
  const MAPPED_ADDRESS: nat := 0x0001
  const USERNAME: nat := 0x0006
  const MESSAGE_INTEGRITY: nat := 0x0008
  const XOR_MAPPED_ADDRESS: nat := 0x0020
  const PRIORITY: nat := 0x0024
  const USE_CANDIDATE: nat := 0x0025
  const FINGERPRINT: nat := 0x8028
  const ICE_CONTROLLED: nat := 0x8029
  const ICE_CONTROLLING: nat := 0x802A
  const MAGIC_COOKIE: nat := 0x2112A442
  const MAGIC_HIGH: nat := 0x2112
  const HEADER_SIZE: nat := 20
  const HMAC_SIZE: nat := 20
  const MAX16: nat := 0x1_0000
  const MAX_VALUE: nat := 65532

  type TransactionId = s: Bytes | |s| == 12 witness Blank(12)
  type Tag = s: Bytes | |s| == 20 witness Blank(20)
  type Word4 = s: Bytes | |s| == 4 witness Blank(4)

  /** The keyed hash of a message under a password, and the checksum of a message, as bytes. */
  datatype Sums = Sums(hmac: (Bytes, Bytes) -> Tag, crc: Bytes -> Word4)

  /** The checksum in use: CRC-32 with the STUN constant xored in. */
  ghost predicate UsesCrc32(k: Sums) {
    forall d: Bytes :: k.crc(d) == BigEndian(Crc32.Fingerprint(d), 4)
  }

  // ---- Integers on the wire ----

  /** write_u16 of a value cast to 16 bits. */
  function Put16(v: nat): (s: Bytes)
    ensures |s| == 2
  {
    [v / 256 % 256, v % 256]
  }

  function U16(s: Bytes, at: nat): (v: nat)
    requires at + 2 <= |s|
    ensures v < MAX16
  {
    (s[at] as int) * 256 + s[at + 1]
  }

  function U32(s: Bytes, at: nat): (v: nat)
    requires at + 4 <= |s|
    ensures v < 0x1_0000_0000
  {
    (((s[at] as int) * 256 + s[at + 1]) * 256 + s[at + 2]) * 256 + s[at + 3]
  }

  lemma U32IsBigEndian(s: Bytes)
    requires |s| == 4
    ensures U32(s, 0) == FromBigEndian(s)
  {
    var a, b := s[..3], s[..2];
    assert a[..2] == b && b[..1] == [s[0]];
    assert FromBigEndian([s[0]]) == s[0] as int;
    assert FromBigEndian(b) == (s[0] as int) * 256 + s[1];
    assert FromBigEndian(a) == ((s[0] as int) * 256 + s[1]) * 256 + s[2];
  }

  const COOKIE_BYTES: Bytes := [0x21, 0x12, 0xA4, 0x42]

  // ---- Attributes ----

  datatype Attr = Attr(kind: nat, value: Bytes)

  function Padded(n: nat): (p: nat)
    ensures n <= p < n + 4 && p % 4 == 0
  {
    (n + 3) / 4 * 4
  }

  function EncodeAttr(a: Attr): (s: Bytes)
    ensures |s| == 4 + Padded(|a.value|)
  {
    Put16(a.kind) + Put16(|a.value|) + a.value + Blank(Padded(|a.value|) - |a.value|)
  }

  function EncodeAttrs(l: seq<Attr>): Bytes {
    if l == [] then [] else EncodeAttr(l[0]) + EncodeAttrs(l[1..])
  }

  /** The attributes at the front of a message body; the rest is ignored. */
  function Attrs(s: Bytes): seq<Attr>
    decreases |s|
  {
    if |s| < 4 then []
    else
      var len := U16(s, 2);
      if 4 + Padded(len) > |s| then []
      else [Attr(U16(s, 0), s[4..4 + len])] + Attrs(s[4 + Padded(len)..])
  }

  ghost predicate Narrow(l: seq<Attr>) {
    forall i :: 0 <= i < |l| ==> l[i].kind < MAX16 && |l[i].value| < MAX16
  }

  lemma AttrAtFront(a: Attr, rest: Bytes)
    requires a.kind < MAX16 && |a.value| < MAX16
    ensures Attrs(EncodeAttr(a) + rest) == [a] + Attrs(rest)
  {
    var e := EncodeAttr(a);
    var s := e + rest;
    assert U16(s, 0) == a.kind && U16(s, 2) == |a.value|;
    assert s[4..4 + |a.value|] == a.value;
    assert s[4 + Padded(|a.value|)..] == rest;
  }

  /** Reading attributes undoes writing them. */
  lemma {:induction false} AttrsRoundTrip(l: seq<Attr>)
    requires Narrow(l)
    ensures Attrs(EncodeAttrs(l)) == l
  {
    if l != [] {
      AttrsRoundTrip(l[1..]);
      AttrAtFront(l[0], EncodeAttrs(l[1..]));
    }
  }

  lemma {:induction false} EncodeAttrsAppend(l: seq<Attr>, m: seq<Attr>)
    ensures EncodeAttrs(l + m) == EncodeAttrs(l) + EncodeAttrs(m)
  {
    if l == [] {
      assert l + m == m;
    } else {
      EncodeAttrsAppend(l[1..], m);
      assert (l + m)[1..] == l[1..] + m && (l + m)[0] == l[0];
      var a, b, c := EncodeAttr(l[0]), EncodeAttrs(l[1..]), EncodeAttrs(m);
      assert a + (b + c) == a + b + c;
    }
  }

  lemma EncodeAttrsSnoc(l: seq<Attr>, a: Attr)
    ensures EncodeAttrs(l + [a]) == EncodeAttrs(l) + EncodeAttr(a)
  {
    EncodeAttrsAppend(l, [a]);
    assert EncodeAttrs([a]) == EncodeAttr(a) + EncodeAttrs([]);
  }

  // ---- Whole messages ----

  function Message(kind: nat, len: nat, txn: TransactionId, body: Bytes): (s: Bytes)
    ensures |s| == HEADER_SIZE + |body|
  {
    Put16(kind) + Put16(len) + COOKIE_BYTES + txn + body
  }

  lemma MessageParts(kind: nat, len: nat, txn: TransactionId, body: Bytes)
    requires kind < MAX16
    ensures var s := Message(kind, len, txn, body);
            U16(s, 0) == kind && U16(s, 2) == len % MAX16 && U32(s, 4) == MAGIC_COOKIE &&
            s[8..20] == txn && s[20..] == body
  {
    var s := Message(kind, len, txn, body);
    assert s[4] == 0x21 && s[5] == 0x12 && s[6] == 0xA4 && s[7] == 0x42;
  }

  function Unsigned(kind: nat, txn: TransactionId, l: seq<Attr>): Bytes {
    Message(kind, |EncodeAttrs(l)| + 4 + HMAC_SIZE, txn, EncodeAttrs(l))
  }

  function WithIntegrity(k: Sums, kind: nat, txn: TransactionId, l: seq<Attr>, pwd: Bytes): seq<Attr> {
    l + [Attr(MESSAGE_INTEGRITY, k.hmac(Unsigned(kind, txn, l), pwd))]
  }

  function Unprinted(kind: nat, txn: TransactionId, m: seq<Attr>): Bytes {
    Message(kind, |EncodeAttrs(m)| + 8, txn, EncodeAttrs(m))
  }

  function WithFingerprint(k: Sums, kind: nat, txn: TransactionId, m: seq<Attr>): seq<Attr> {
    m + [Attr(FINGERPRINT, k.crc(Unprinted(kind, txn, m)))]
  }

  function AllAttrs(k: Sums, kind: nat, txn: TransactionId, l: seq<Attr>, pwd: Bytes): seq<Attr> {
    WithFingerprint(k, kind, txn, WithIntegrity(k, kind, txn, l, pwd))
  }

  /** A protected message: the given attributes, then the keyed hash, then the checksum. */
  function Protected(k: Sums, kind: nat, txn: TransactionId, l: seq<Attr>, pwd: Bytes): Bytes {
    var body := EncodeAttrs(AllAttrs(k, kind, txn, l, pwd));
    Message(kind, |body|, txn, body)
  }

  lemma ProtectedSize(k: Sums, kind: nat, txn: TransactionId, l: seq<Attr>, pwd: Bytes)
    ensures |EncodeAttrs(WithIntegrity(k, kind, txn, l, pwd))| == |EncodeAttrs(l)| + 24
    ensures |EncodeAttrs(AllAttrs(k, kind, txn, l, pwd))| == |EncodeAttrs(l)| + 32
  {
    var tag := k.hmac(Unsigned(kind, txn, l), pwd);
    EncodeAttrsSnoc(l, Attr(MESSAGE_INTEGRITY, tag));
    var m := WithIntegrity(k, kind, txn, l, pwd);
    EncodeAttrsSnoc(m, Attr(FINGERPRINT, k.crc(Unprinted(kind, txn, m))));
  }

  lemma MessageAppend(kind: nat, len: nat, txn: TransactionId, body: Bytes, more: Bytes)
    ensures Message(kind, len, txn, body + more) == Message(kind, len, txn, body) + more
  {
  }

  lemma LastFour(front: Bytes, kind: nat, word: Bytes)
    requires |word| == 4
    ensures var s := front + EncodeAttr(Attr(kind, word)); s[..|s| - 8] == front && s[|s| - 4..] == word
  {
    var e := EncodeAttr(Attr(kind, word));
    assert e[4..] == word;
    assert (front + e)[|front| + 4..] == e[4..];
  }

  /** The checksum at the end is that of everything before it, length field included. */
  lemma FingerprintCovers(k: Sums, kind: nat, txn: TransactionId, l: seq<Attr>, pwd: Bytes)
    requires UsesCrc32(k)
    ensures var s := Protected(k, kind, txn, l, pwd);
            |s| >= 28 && s[|s| - 4..] == BigEndian(Crc32.Fingerprint(s[..|s| - 8]), 4)
  {
    ProtectedSize(k, kind, txn, l, pwd);
    var m := WithIntegrity(k, kind, txn, l, pwd);
    var front := Unprinted(kind, txn, m);
    var crc := k.crc(front);
    EncodeAttrsSnoc(m, Attr(FINGERPRINT, crc));
    MessageAppend(kind, |EncodeAttrs(m)| + 8, txn, EncodeAttrs(m), EncodeAttr(Attr(FINGERPRINT, crc)));
    LastFour(front, FINGERPRINT, crc);
  }

  // ---- Parsing a Binding Request ----

  datatype Request = Request(txn: TransactionId, priority: nat, useCandidate: bool, username: Bytes)

  /** What has been read so far; pos and mi are offsets into the packet, mi = 0 when there is no hash yet. */
  datatype Seen = Seen(req: Request, pos: nat, mi: nat)

  function Note(st: Seen, a: Attr): Seen {
    var next := st.(pos := st.pos + 4 + Padded(|a.value|));
    if a.kind == USERNAME then next.(req := st.req.(username := a.value))
    else if a.kind == PRIORITY && |a.value| >= 4 then next.(req := st.req.(priority := U32(a.value, 0)))
    else if a.kind == USE_CANDIDATE then next.(req := st.req.(useCandidate := true))
    else if a.kind == MESSAGE_INTEGRITY then next.(mi := st.pos)
    else next
  }

  function NoteAll(st: Seen, l: seq<Attr>): Seen
    decreases |l|
  {
    if l == [] then st else NoteAll(Note(st, l[0]), l[1..])
  }

  lemma {:induction false} NoteAllSnoc(st: Seen, l: seq<Attr>, a: Attr)
    ensures NoteAll(st, l + [a]) == Note(NoteAll(st, l), a)
    decreases |l|
  {
    if l == [] {
      assert NoteAll(st, [a]) == NoteAll(Note(st, a), []);
    } else {
      NoteAllSnoc(Note(st, l[0]), l[1..], a);
      assert (l + [a])[1..] == l[1..] + [a];
    }
  }

  predicate HeaderOk(data: Bytes, kind: nat) {
    |data| >= HEADER_SIZE && U16(data, 0) == kind && U32(data, 4) == MAGIC_COOKIE &&
    |data| >= HEADER_SIZE + U16(data, 2)
  }

  function Start(txn: TransactionId): Seen { Seen(Request(txn, 0, false, []), HEADER_SIZE, 0) }

  /**
   The 20 bytes behind the head of the hash attribute are the keyed hash of what lies before, with the
   length field counting the hash attribute as the last one. Where the packet ends early the
   comparison reads on into after, the bytes that follow the packet in the receive buffer.
   */
  predicate TagMatches(k: Sums, after: Tag, data: Bytes, mi: nat, pwd: Bytes) {
    HEADER_SIZE <= mi && mi + 4 <= |data| &&
    k.hmac(data[..2] + Put16(mi - HEADER_SIZE + 4 + HMAC_SIZE) + data[4..mi], pwd) == (data + after)[mi + 4..mi + 24]
  }

  function Verdict(k: Sums, after: Tag, data: Bytes, st: Seen, pwd: Bytes): Option<Request> {
    if st.mi > 0 && pwd != [] && !TagMatches(k, after, data, st.mi, pwd) then None else Some(st.req)
  }

  function ParseRequest(k: Sums, after: Tag, data: Bytes, pwd: Bytes): Option<Request> {
    if !HeaderOk(data, BINDING_REQUEST) then None
    else Verdict(k, after, data, NoteAll(Start(data[8..20]), Attrs(data[20..20 + U16(data, 2)])), pwd)
  }

  // ---- Building a connectivity check ----

  function CheckAttrs(username: Bytes, priority: nat, useCandidate: bool, controlling: bool, tie: nat): seq<Attr> {
    [Attr(USERNAME, username[..|username| % MAX16]), Attr(PRIORITY, BigEndian(priority, 4)),
     Attr(if controlling then ICE_CONTROLLING else ICE_CONTROLLED, BigEndian(tie, 8))] +
    (if useCandidate then [Attr(USE_CANDIDATE, [])] else [])
  }

  function CheckRequest(k: Sums, txn: TransactionId, username: Bytes, pwd: Bytes, priority: nat,
                        useCandidate: bool, controlling: bool, tie: nat): Bytes
  {
    Protected(k, BINDING_REQUEST, txn, CheckAttrs(username, priority, useCandidate, controlling, tie), pwd)
  }

  /** What the builder returns: from 65533 bytes up the padded length of the user name wraps to zero,
      and the copy would run past the buffer. */
  function Built(k: Sums, txn: TransactionId, username: Bytes, pwd: Bytes, priority: nat,
                 useCandidate: bool, controlling: bool, tie: nat): Option<Bytes>
  {
    if |username| % MAX16 <= MAX_VALUE
    then Some(CheckRequest(k, txn, username, pwd, priority, useCandidate, controlling, tie)) else None
  }

  /** The body of a check, in bytes. */
  function BodySize(n: nat, useCandidate: bool): nat { 56 + Padded(n) + if useCandidate then 4 else 0 }

  /** The whole body can be counted by the 16-bit length field. */
  predicate Fits(n: nat, useCandidate: bool) { BodySize(n, useCandidate) < MAX16 }

  lemma CheckAttrsSize(username: Bytes, priority: nat, useCandidate: bool, controlling: bool, tie: nat)
    ensures |EncodeAttrs(CheckAttrs(username, priority, useCandidate, controlling, tie))| + 32
            == BodySize(|username| % MAX16, useCandidate)
  {
    var l := CheckAttrs(username, priority, useCandidate, controlling, tie);
    assert EncodeAttrs(l) == EncodeAttr(l[0]) + EncodeAttrs(l[1..]);
    assert EncodeAttrs(l[1..]) == EncodeAttr(l[1]) + EncodeAttrs(l[2..]);
    assert EncodeAttrs(l[2..]) == EncodeAttr(l[2]) + EncodeAttrs(l[3..]);
    if useCandidate {
      assert EncodeAttrs(l[3..]) == EncodeAttr(l[3]) + EncodeAttrs(l[4..]);
    }
  }

  lemma NoteCheckAttrs(txn: TransactionId, username: Bytes, priority: nat, useCandidate: bool,
                       controlling: bool, tie: nat)
    requires priority < 0x1_0000_0000
    ensures var l := CheckAttrs(username, priority, useCandidate, controlling, tie);
            NoteAll(Start(txn), l)
            == Seen(Request(txn, priority, useCandidate, username[..|username| % MAX16]),
                    HEADER_SIZE + |EncodeAttrs(l)|, 0)
  {
    var l := CheckAttrs(username, priority, useCandidate, controlling, tie);
    CheckAttrsSize(username, priority, useCandidate, controlling, tie);
    Pow256Values();
    BigEndianRoundTrip(priority, 4);
    U32IsBigEndian(BigEndian(priority, 4));
    var s0 := Start(txn);
    var s1 := Note(s0, l[0]);
    var s2 := Note(s1, l[1]);
    var s3 := Note(s2, l[2]);
    assert l[1..][0] == l[1] && l[1..][1..] == l[2..] && l[2..][0] == l[2] && l[2..][1..] == l[3..];
    assert NoteAll(s0, l) == NoteAll(s1, l[1..]) == NoteAll(s2, l[2..]) == NoteAll(s3, l[3..]);
    if useCandidate {
      assert l[3..] == [Attr(USE_CANDIDATE, [])];
      assert NoteAll(s3, l[3..]) == NoteAll(Note(s3, l[3]), []);
    }
  }

  /** Replacing the length field and cutting the body gives the message the hash was taken of. */
  lemma HashedAgain(kind: nat, len: nat, n: nat, txn: TransactionId, body: Bytes, more: Bytes)
    ensures var s := Message(kind, len, txn, body + more);
            s[..2] + Put16(n) + s[4..HEADER_SIZE + |body|] == Message(kind, n, txn, body)
  {
    var s := Message(kind, len, txn, body + more);
    assert s[4..HEADER_SIZE + |body|] == COOKIE_BYTES + txn + body;
    assert s[..2] == Put16(kind);
  }

  /** The body of a protected message, cut before its hash. */
  lemma ProtectedBody(k: Sums, kind: nat, txn: TransactionId, l: seq<Attr>, pwd: Bytes)
    returns (crc: Attr, more: Bytes)
    ensures var mi := Attr(MESSAGE_INTEGRITY, k.hmac(Unsigned(kind, txn, l), pwd));
            crc.kind == FINGERPRINT && |crc.value| == 4 &&
            AllAttrs(k, kind, txn, l, pwd) == l + [mi] + [crc] &&
            EncodeAttrs(AllAttrs(k, kind, txn, l, pwd)) == EncodeAttrs(l) + (EncodeAttr(mi) + more)
  {
    var mi := Attr(MESSAGE_INTEGRITY, k.hmac(Unsigned(kind, txn, l), pwd));
    var m := WithIntegrity(k, kind, txn, l, pwd);
    crc := Attr(FINGERPRINT, k.crc(Unprinted(kind, txn, m)));
    more := EncodeAttr(crc);
    EncodeAttrsSnoc(l, mi);
    EncodeAttrsSnoc(m, crc);
  }

  lemma TagFound(k: Sums, after: Tag, kind: nat, len: nat, txn: TransactionId, body: Bytes, tag: Tag, more: Bytes, pwd: Bytes)
    ensures TagMatches(k, after, Message(kind, len, txn, body + (EncodeAttr(Attr(MESSAGE_INTEGRITY, tag)) + more)),
                       HEADER_SIZE + |body|, pwd)
            <==> k.hmac(Message(kind, |body| + 4 + HMAC_SIZE, txn, body), pwd) == tag
  {
    var e := EncodeAttr(Attr(MESSAGE_INTEGRITY, tag));
    var s := Message(kind, len, txn, body + (e + more));
    var mi := HEADER_SIZE + |body|;
    HashedAgain(kind, len, |body| + 4 + HMAC_SIZE, txn, body, e + more);
    MessageAppend(kind, len, txn, body, e + more);
    assert e[4..24] == tag;
    assert (s + after)[mi + 4..mi + 24] == e[4..24];
  }

  lemma HeaderRead(kind: nat, txn: TransactionId, body: Bytes)
    requires kind < MAX16 && |body| < MAX16
    ensures var data := Message(kind, |body|, txn, body);
            HeaderOk(data, kind) && data[8..20] == txn && data[20..20 + U16(data, 2)] == body
  {
    MessageParts(kind, |body|, txn, body);
    var data := Message(kind, |body|, txn, body);
    assert data[20..20 + |body|] == data[20..];
  }

  /** The parser on a message whose attributes fit: the fold over them, and the hash if there is one. */
  lemma MessageParsed(k: Sums, after: Tag, txn: TransactionId, all: seq<Attr>, pwd: Bytes)
    requires Narrow(all) && |EncodeAttrs(all)| < MAX16
    ensures var data := Message(BINDING_REQUEST, |EncodeAttrs(all)|, txn, EncodeAttrs(all));
            ParseRequest(k, after, data, pwd) == Verdict(k, after, data, NoteAll(Start(txn), all), pwd)
  {
    HeaderRead(BINDING_REQUEST, txn, EncodeAttrs(all));
    AttrsRoundTrip(all);
  }

  /** The two closing attributes leave the request alone and mark where the hash is. */
  lemma NoteClosing(st: Seen, l: seq<Attr>, mi: Attr, crc: Attr)
    requires mi.kind == MESSAGE_INTEGRITY && crc.kind == FINGERPRINT
    ensures var before, after := NoteAll(st, l), NoteAll(st, l + [mi] + [crc]);
            after.req == before.req && after.mi == before.pos
  {
    NoteAllSnoc(st, l, mi);
    NoteAllSnoc(st, l + [mi], crc);
  }

  /** A protected request with readable attributes: what the parser sees, and what password it takes. */
  lemma ProtectedParsed(k: Sums, after: Tag, txn: TransactionId, l: seq<Attr>, pwd: Bytes, pwd': Bytes)
    requires Narrow(l) && |EncodeAttrs(l)| + 32 < MAX16
    requires NoteAll(Start(txn), l).pos == HEADER_SIZE + |EncodeAttrs(l)|
    ensures var u := Unsigned(BINDING_REQUEST, txn, l);
            ParseRequest(k, after, Protected(k, BINDING_REQUEST, txn, l, pwd), pwd')
            == if pwd' == [] || k.hmac(u, pwd') == k.hmac(u, pwd) then Some(NoteAll(Start(txn), l).req) else None
  {
    var tag := k.hmac(Unsigned(BINDING_REQUEST, txn, l), pwd);
    var mi := Attr(MESSAGE_INTEGRITY, tag);
    var crc, more := ProtectedBody(k, BINDING_REQUEST, txn, l, pwd);
    var all := AllAttrs(k, BINDING_REQUEST, txn, l, pwd);
    assert |EncodeAttrs(all)| < MAX16 by {
      ProtectedSize(k, BINDING_REQUEST, txn, l, pwd);
    }
    MessageParsed(k, after, txn, all, pwd');
    NoteClosing(Start(txn), l, mi, crc);
    ClosingVerdict(k, after, |EncodeAttrs(all)|, txn, EncodeAttrs(l), tag, more, NoteAll(Start(txn), all), pwd');
  }

  lemma ClosingVerdict(k: Sums, after: Tag, len: nat, txn: TransactionId, body: Bytes, tag: Tag, more: Bytes, st: Seen, pwd: Bytes)
    requires st.mi == HEADER_SIZE + |body|
    ensures Verdict(k, after, Message(BINDING_REQUEST, len, txn, body + (EncodeAttr(Attr(MESSAGE_INTEGRITY, tag)) + more)), st, pwd)
            == if pwd == [] || k.hmac(Message(BINDING_REQUEST, |body| + 4 + HMAC_SIZE, txn, body), pwd) == tag
               then Some(st.req) else None
  {
    TagFound(k, after, BINDING_REQUEST, len, txn, body, tag, more, pwd);
  }

  /** What a check carries reaches the parser, and the parser takes the passwords that hash alike. */
  lemma CheckParsed(k: Sums, after: Tag, txn: TransactionId, username: Bytes, pwd: Bytes, priority: nat,
                    useCandidate: bool, controlling: bool, tie: nat, pwd': Bytes)
    requires priority < 0x1_0000_0000 && Fits(|username| % MAX16, useCandidate)
    ensures var u := Unsigned(BINDING_REQUEST, txn, CheckAttrs(username, priority, useCandidate, controlling, tie));
            ParseRequest(k, after, CheckRequest(k, txn, username, pwd, priority, useCandidate, controlling, tie), pwd')
            == if pwd' == [] || k.hmac(u, pwd') == k.hmac(u, pwd)
               then Some(Request(txn, priority, useCandidate, username[..|username| % MAX16])) else None
  {
    CheckAttrsSize(username, priority, useCandidate, controlling, tie);
    NoteCheckAttrs(txn, username, priority, useCandidate, controlling, tie);
    ProtectedParsed(k, after, txn, CheckAttrs(username, priority, useCandidate, controlling, tie), pwd, pwd');
  }

  /** A first attribute that runs past the end hides the whole body. */
  lemma NothingRead(a: Attr, rest: Bytes, n: nat)
    requires a.kind < MAX16 && |a.value| < MAX16 && n < 4 + Padded(|a.value|)
    ensures Attrs((EncodeAttr(a) + rest)[..n]) == []
  {
    var s := (EncodeAttr(a) + rest)[..n];
    if n >= 4 {
      assert U16(s, 2) == |a.value|;
    }
  }

  /** A message whose length field counts less than its first attribute reads as an empty one. */
  lemma ShortCount(k: Sums, after: Tag, txn: TransactionId, l: seq<Attr>, body: Bytes, pwd: Bytes)
    requires l != [] && EncodeAttrs(l) <= body && l[0].kind < MAX16 && |l[0].value| < MAX16
    requires |body| % MAX16 < 4 + Padded(|l[0].value|)
    ensures ParseRequest(k, after, Message(BINDING_REQUEST, |body|, txn, body), pwd) == Some(Request(txn, 0, false, []))
  {
    var n := |body| % MAX16;
    MessageParts(BINDING_REQUEST, |body|, txn, body);
    var data := Message(BINDING_REQUEST, |body|, txn, body);
    assert data[20..20 + n] == body[..n] by {
      assert data[20..] == body;
    }
    FrontAttr(l, body);
    var rest :| body == EncodeAttr(l[0]) + rest;
    NothingRead(l[0], rest, n);
  }

  /** When the length field wraps, it counts too few bytes even for the user name. */
  lemma CheckWrapped(k: Sums, after: Tag, txn: TransactionId, username: Bytes, pwd: Bytes, priority: nat,
                     useCandidate: bool, controlling: bool, tie: nat, pwd': Bytes)
    requires |username| % MAX16 <= MAX_VALUE && !Fits(|username| % MAX16, useCandidate)
    ensures ParseRequest(k, after, CheckRequest(k, txn, username, pwd, priority, useCandidate, controlling, tie), pwd')
            == Some(Request(txn, 0, false, []))
  {
    var l := CheckAttrs(username, priority, useCandidate, controlling, tie);
    CheckAttrsSize(username, priority, useCandidate, controlling, tie);
    ProtectedSize(k, BINDING_REQUEST, txn, l, pwd);
    var crc, more := ProtectedBody(k, BINDING_REQUEST, txn, l, pwd);
    var body := EncodeAttrs(AllAttrs(k, BINDING_REQUEST, txn, l, pwd));
    assert |body| % MAX16 == BodySize(|username| % MAX16, useCandidate) - MAX16;
    ShortCount(k, after, txn, l, body, pwd');
  }

  lemma FrontAttr(l: seq<Attr>, body: Bytes)
    requires l != [] && EncodeAttrs(l) <= body
    ensures exists rest :: body == EncodeAttr(l[0]) + rest
  {
    var k := |EncodeAttr(l[0])|;
    assert body[..|EncodeAttrs(l)|] == EncodeAttrs(l);
    assert body == EncodeAttr(l[0]) + body[k..];
  }

  /** What the parser makes of a check under the check's own password. */
  function ReadBack(txn: TransactionId, username: Bytes, priority: nat, useCandidate: bool): Request {
    if Fits(|username| % MAX16, useCandidate) then Request(txn, priority, useCandidate, username[..|username| % MAX16])
    else Request(txn, 0, false, [])
  }

  lemma ReadBackIff(txn: TransactionId, username: Bytes, priority: nat, useCandidate: bool)
    ensures ReadBack(txn, username, priority, useCandidate) == Request(txn, priority, useCandidate, username)
            <==> Fits(|username|, useCandidate)
  {
    if |username| < MAX16 {
      assert username[..|username| % MAX16] == username;
    }
  }

  lemma CheckRead(k: Sums, after: Tag, txn: TransactionId, username: Bytes, pwd: Bytes, priority: nat,
                  useCandidate: bool, controlling: bool, tie: nat)
    requires priority < 0x1_0000_0000 && |username| % MAX16 <= MAX_VALUE
    ensures ParseRequest(k, after, CheckRequest(k, txn, username, pwd, priority, useCandidate, controlling, tie), pwd)
            == Some(ReadBack(txn, username, priority, useCandidate))
  {
    if Fits(|username| % MAX16, useCandidate) {
      CheckParsed(k, after, txn, username, pwd, priority, useCandidate, controlling, tie, pwd);
    } else {
      CheckWrapped(k, after, txn, username, pwd, priority, useCandidate, controlling, tie, pwd);
    }
  }

  /**
   The round trip of a check, under its own password: for every user name, it is built and read back
   as it was exactly when its body fits the 16-bit length field.
   */
  lemma CheckRecoveredIff(k: Sums, after: Tag, txn: TransactionId, username: Bytes, pwd: Bytes, priority: nat,
                          useCandidate: bool, controlling: bool, tie: nat)
    requires priority < 0x1_0000_0000
    ensures var msg := Built(k, txn, username, pwd, priority, useCandidate, controlling, tie);
            (msg.Some? && ParseRequest(k, after, msg.value, pwd) == Some(Request(txn, priority, useCandidate, username)))
            <==> Fits(|username|, useCandidate)
  {
    if |username| % MAX16 <= MAX_VALUE {
      CheckRead(k, after, txn, username, pwd, priority, useCandidate, controlling, tie);
      ReadBackIff(txn, username, priority, useCandidate);
    }
  }

  // ---- Binding Responses ----

  type Octets16 = s: Bytes | |s| == 16 witness Blank(16)

  datatype Address = V4(quad: Word4) | V6(octets: Octets16)

  datatype Mapped = Mapped(ip: Address, port: nat)

  datatype Result = Result(mapped: Mapped, txn: TransactionId)

  function XorByte(a: Byte, b: Byte): Byte {
    Pow2Values();
    XorNum(a, b, 8)
  }

  function XorBytes(a: Bytes, b: Bytes): (r: Bytes)
    requires |a| == |b|
    ensures |r| == |a| && forall i :: 0 <= i < |a| ==> r[i] == XorByte(a[i], b[i])
  {
    if a == [] then [] else XorBytes(a[..|a| - 1], b[..|a| - 1]) + [XorByte(a[|a| - 1], b[|a| - 1])]
  }

  lemma XorBytesUndone(a: Bytes, b: Bytes)
    requires |a| == |b|
    ensures XorBytes(XorBytes(a, b), b) == a
  {
    Pow2Values();
    forall i | 0 <= i < |a|
      ensures XorByte(XorByte(a[i], b[i]), b[i]) == a[i]
    {
      XorNumUndone(a[i], b[i], 8);
    }
  }

  /** A port or an IPv4 address, xored with the constant on the way out and again on the way in. */
  function XorPort(port: nat): (r: nat)
    ensures r < MAX16
  {
    Pow2Values();
    XorNum(port, MAGIC_HIGH, 16)
  }

  function XorQuad(quad: Word4): Word4 { BigEndian(XorNum(FromBigEndian(quad), MAGIC_COOKIE, 32), 4) }

  lemma XorPortUndone(port: nat)
    requires port < MAX16
    ensures XorPort(XorPort(port)) == port
  {
    Pow2Values();
    XorNumUndone(port, MAGIC_HIGH, 16);
  }

  lemma XorQuadUndone(quad: Word4)
    ensures XorQuad(XorQuad(quad)) == quad
  {
    Pow2Values();
    Pow256Values();
    var v := FromBigEndian(quad);
    XorNumUndone(v, MAGIC_COOKIE, 32);
    BigEndianRoundTrip(XorNum(v, MAGIC_COOKIE, 32), 4);
    FromBigEndianRoundTrip(quad);
  }

  /** The value of XOR-MAPPED-ADDRESS (section 15.2 of RFC 5389). */
  function MappedValue(m: Mapped, txn: TransactionId): (v: Bytes)
    ensures |v| <= 20
  {
    match m.ip
    case V4(quad) => [0, 1] + Put16(XorPort(m.port)) + XorQuad(quad)
    case V6(octets) => [0, 2] + Put16(XorPort(m.port)) + XorBytes(octets, COOKIE_BYTES + txn)
  }

  /** What has been read of a response. */
  datatype Found = Found(mapped: Mapped, found: bool)

  function NoteMapped(txn: TransactionId, f: Found, a: Attr): Found {
    var v := a.value;
    if a.kind == XOR_MAPPED_ADDRESS && |v| >= 8 then
      var port := XorPort(U16(v, 2));
      if v[1] == 1 then Found(Mapped(V4(XorQuad(v[4..8])), port), true)
      else if v[1] == 2 && |v| >= 20 then Found(Mapped(V6(XorBytes(v[4..20], COOKIE_BYTES + txn)), port), true)
      else f.(mapped := f.mapped.(port := port))
    else if a.kind == MAPPED_ADDRESS && !f.found && |v| >= 8 then
      if v[1] == 1 then Found(Mapped(V4(v[4..8]), U16(v, 2)), true)
      else f.(mapped := f.mapped.(port := U16(v, 2)))
    else f
  }

  function NoteMappedAll(txn: TransactionId, f: Found, l: seq<Attr>): Found
    decreases |l|
  {
    if l == [] then f else NoteMappedAll(txn, NoteMapped(txn, f, l[0]), l[1..])
  }

  const NOTHING: Found := Found(Mapped(V4([0, 0, 0, 0]), 0), false)

  function ParseResponse(data: Bytes): Option<Result> {
    if !HeaderOk(data, BINDING_RESPONSE) then None
    else
      var f := NoteMappedAll(data[8..20], NOTHING, Attrs(data[20..20 + U16(data, 2)]));
      if f.found then Some(Result(f.mapped, data[8..20])) else None
  }

  function CheckResponse(k: Sums, txn: TransactionId, m: Mapped, pwd: Bytes): Bytes {
    Protected(k, BINDING_RESPONSE, txn, [Attr(XOR_MAPPED_ADDRESS, MappedValue(m, txn))], pwd)
  }

  lemma AfterPort(family: Byte, port: nat, rest: Bytes)
    requires port < MAX16
    ensures var v := [0, family] + Put16(port) + rest; v[1] == family && U16(v, 2) == port && v[4..] == rest
  {
  }

  lemma QuadUndone(quad: Word4, port: nat, txn: TransactionId, f: Found)
    requires port < MAX16
    ensures NoteMapped(txn, f, Attr(XOR_MAPPED_ADDRESS, [0, 1] + Put16(XorPort(port)) + XorQuad(quad)))
            == Found(Mapped(V4(quad), port), true)
  {
    var v := [0, 1] + Put16(XorPort(port)) + XorQuad(quad);
    AfterPort(1, XorPort(port), XorQuad(quad));
    assert v[4..8] == v[4..];
    XorPortUndone(port);
    XorQuadUndone(quad);
  }

  lemma OctetsRead(x: Octets16, port: nat, txn: TransactionId, f: Found)
    requires port < MAX16
    ensures NoteMapped(txn, f, Attr(XOR_MAPPED_ADDRESS, [0, 2] + Put16(port) + x))
            == Found(Mapped(V6(XorBytes(x, COOKIE_BYTES + txn)), XorPort(port)), true)
  {
    var v := [0, 2] + Put16(port) + x;
    AfterPort(2, port, x);
    assert v[4..20] == v[4..];
  }

  lemma OctetsUndone(octets: Octets16, port: nat, txn: TransactionId, f: Found)
    requires port < MAX16
    ensures NoteMapped(txn, f, Attr(XOR_MAPPED_ADDRESS,
                                    [0, 2] + Put16(XorPort(port)) + XorBytes(octets, COOKIE_BYTES + txn)))
            == Found(Mapped(V6(octets), port), true)
  {
    XorPortUndone(port);
    XorBytesUndone(octets, COOKIE_BYTES + txn);
    OctetsRead(XorBytes(octets, COOKIE_BYTES + txn), XorPort(port), txn, f);
  }

  /** Reading the attribute gives the address back. */
  lemma MappedUndone(m: Mapped, txn: TransactionId, f: Found)
    requires m.port < MAX16
    ensures NoteMapped(txn, f, Attr(XOR_MAPPED_ADDRESS, MappedValue(m, txn))) == Found(m, true)
  {
    match m.ip
    case V4(quad) => QuadUndone(quad, m.port, txn, f);
    case V6(octets) => OctetsUndone(octets, m.port, txn, f);
  }

  lemma NoteThree(txn: TransactionId, a: Attr, b: Attr, c: Attr)
    requires b.kind == MESSAGE_INTEGRITY && c.kind == FINGERPRINT
    ensures NoteMappedAll(txn, NOTHING, [a] + [b] + [c]) == NoteMapped(txn, NOTHING, a)
  {
    var l := [a] + [b] + [c];
    assert l[1..] == [b, c] && l[1..][1..] == [c] && l[1..][1..][1..] == [];
    var f := NoteMapped(txn, NOTHING, a);
    assert NoteMappedAll(txn, f, [b, c]) == NoteMappedAll(txn, f, [c]);
    assert NoteMappedAll(txn, f, [c]) == NoteMappedAll(txn, f, []);
  }

  lemma ResponseParsed(txn: TransactionId, all: seq<Attr>)
    requires Narrow(all) && |EncodeAttrs(all)| < MAX16
    ensures var f := NoteMappedAll(txn, NOTHING, all);
            ParseResponse(Message(BINDING_RESPONSE, |EncodeAttrs(all)|, txn, EncodeAttrs(all)))
            == if f.found then Some(Result(f.mapped, txn)) else None
  {
    HeaderRead(BINDING_RESPONSE, txn, EncodeAttrs(all));
    AttrsRoundTrip(all);
  }

  lemma OneAttrNoted(k: Sums, txn: TransactionId, a: Attr, pwd: Bytes)
    requires a.kind < MAX16 && |a.value| < MAX16
    ensures var all := AllAttrs(k, BINDING_RESPONSE, txn, [a], pwd);
            Narrow(all) && NoteMappedAll(txn, NOTHING, all) == NoteMapped(txn, NOTHING, a)
  {
    var crc, more := ProtectedBody(k, BINDING_RESPONSE, txn, [a], pwd);
    NoteThree(txn, a, AllAttrs(k, BINDING_RESPONSE, txn, [a], pwd)[1], crc);
  }

  lemma OneAttrSize(k: Sums, txn: TransactionId, a: Attr, pwd: Bytes)
    ensures |EncodeAttrs(AllAttrs(k, BINDING_RESPONSE, txn, [a], pwd))| == 36 + Padded(|a.value|)
  {
    ProtectedSize(k, BINDING_RESPONSE, txn, [a], pwd);
    assert EncodeAttrs([a]) == EncodeAttr(a) + EncodeAttrs([]);
  }

  lemma OneAttrParsed(k: Sums, txn: TransactionId, a: Attr, m: Mapped, pwd: Bytes)
    requires a.kind < MAX16 && |a.value| <= 20 && NoteMapped(txn, NOTHING, a) == Found(m, true)
    ensures ParseResponse(Protected(k, BINDING_RESPONSE, txn, [a], pwd)) == Some(Result(m, txn))
  {
    OneAttrSize(k, txn, a, pwd);
    OneAttrNoted(k, txn, a, pwd);
    ResponseParsed(txn, AllAttrs(k, BINDING_RESPONSE, txn, [a], pwd));
  }

  /** The round trip of a response: any IPv4 or IPv6 address and any port come back. */
  lemma ResponseRecovered(k: Sums, txn: TransactionId, m: Mapped, pwd: Bytes)
    requires m.port < MAX16
    ensures ParseResponse(CheckResponse(k, txn, m, pwd)) == Some(Result(m, txn))
  {
    MappedUndone(m, txn, NOTHING);
    OneAttrParsed(k, txn, Attr(XOR_MAPPED_ADDRESS, MappedValue(m, txn)), m, pwd);
  }
}
