/** What the STUN parsers make of any bytes, and what they refuse. */
module StunReading {
  import opened Bytes
  import opened Stun

  // ---- The frame ----

  /** The bytes are a message of the kind with this transaction and body; anything may follow. */
  ghost predicate Framed(data: Bytes, kind: nat, txn: TransactionId, body: Bytes) {
    |body| < MAX16 && exists extra: Bytes :: data == Message(kind, |body|, txn, body + extra)
  }

  lemma {:induction false} FourBytes(s: Bytes, at: nat)
    requires at + 4 <= |s| && U32(s, at) == MAGIC_COOKIE
    ensures s[at..at + 4] == COOKIE_BYTES
  {
    var v := s[at..at + 4];
    U32IsBigEndian(v);
    U32IsBigEndian(COOKIE_BYTES);
    FromBigEndianRoundTrip(v);
    FromBigEndianRoundTrip(COOKIE_BYTES);
  }

  lemma FrameFound(data: Bytes, kind: nat)
    requires kind < MAX16 && HeaderOk(data, kind)
    ensures Framed(data, kind, data[8..20], data[20..20 + U16(data, 2)])
  {
    var len := U16(data, 2);
    FourBytes(data, 4);
    assert data[..2] == Put16(kind) && data[2..4] == Put16(len);
    Cut(data, len);
    assert data == Message(kind, len, data[8..20], data[20..20 + len] + data[20 + len..]);
  }

  lemma Cut(data: Bytes, len: nat)
    requires |data| >= 20 + len
    ensures data == data[..2] + data[2..4] + data[4..8] + data[8..20] + (data[20..20 + len] + data[20 + len..])
  {
  }

  lemma FrameRead(data: Bytes, kind: nat, txn: TransactionId, body: Bytes)
    requires kind < MAX16 && Framed(data, kind, txn, body)
    ensures HeaderOk(data, kind) && data[8..20] == txn && data[20..20 + U16(data, 2)] == body
  {
    var extra: Bytes :| data == Message(kind, |body|, txn, body + extra);
    MessageParts(kind, |body|, txn, body + extra);
    assert data[20..20 + |body|] == data[20..][..|body|];
  }

  // ---- The attributes ----

  /** Whatever the padding holds, the attribute at the front is read and the rest goes on. */
  lemma AttrRead(a: Attr, pad: Bytes, rest: Bytes)
    requires a.kind < MAX16 && |a.value| < MAX16 && |a.value| + |pad| == Padded(|a.value|)
    ensures Attrs(Put16(a.kind) + Put16(|a.value|) + a.value + pad + rest) == [a] + Attrs(rest)
  {
    var head := Put16(a.kind) + Put16(|a.value|);
    var s := head + a.value + pad + rest;
    assert U16(head, 0) == a.kind && U16(head, 2) == |a.value|;
    Layout(head, a.value, pad, rest);
    FirstRead(s, a, rest);
  }

  lemma FirstRead(s: Bytes, a: Attr, rest: Bytes)
    requires |s| >= 4 && U16(s, 0) == a.kind && U16(s, 2) == |a.value| && 4 + Padded(|a.value|) <= |s|
    requires s[4..4 + |a.value|] == a.value && s[4 + Padded(|a.value|)..] == rest
    ensures Attrs(s) == [a] + Attrs(rest)
  {
  }

  lemma Layout(head: Bytes, value: Bytes, pad: Bytes, rest: Bytes)
    requires |head| == 4
    ensures var s := head + value + pad + rest;
            && s[4..4 + |value|] == value && s[4 + |value| + |pad|..] == rest
            && U16(s, 0) == U16(head, 0) && U16(s, 2) == U16(head, 2)
  {
  }

  /** Reading stops exactly before an attribute that is cut short. */
  lemma AttrsEndIff(s: Bytes)
    ensures Attrs(s) == [] <==> |s| < 4 || |s| < 4 + Padded(U16(s, 2))
  {
  }

  /** The value of the last attribute of the kind that has at least that many bytes. */
  function LastOf(l: seq<Attr>, kind: nat, least: nat): Option<Bytes> {
    if l == [] then None
    else
      var a := l[|l| - 1];
      if a.kind == kind && |a.value| >= least then Some(a.value) else LastOf(l[..|l| - 1], kind, least)
  }

  ghost predicate Has(l: seq<Attr>, kind: nat) { exists i :: 0 <= i < |l| && l[i].kind == kind }

  lemma {:induction false} LastOfIff(l: seq<Attr>, kind: nat)
    ensures LastOf(l, kind, 0).Some? <==> Has(l, kind)
    decreases |l|
  {
    if l != [] {
      var n := |l| - 1;
      LastOfIff(l[..n], kind);
      if Has(l[..n], kind) {
        var i :| 0 <= i < n && l[..n][i].kind == kind;
        assert l[i].kind == kind;
      }
      if i :| 0 <= i < |l| && l[i].kind == kind && l[n].kind != kind {
        assert l[..n][i].kind == kind;
      }
    }
  }

  /** Each field of a request comes from the last attribute of its kind; an absent one keeps its default. */
  function FieldsOf(txn: TransactionId, l: seq<Attr>): Request {
    var priority := LastOf(l, PRIORITY, 4);
    var name := LastOf(l, USERNAME, 0);
    Request(txn, if priority.Some? && |priority.value| >= 4 then U32(priority.value, 0) else 0,
            LastOf(l, USE_CANDIDATE, 0).Some?, if name.Some? then name.value else [])
  }

  lemma {:induction false} LastOfSize(l: seq<Attr>, kind: nat, least: nat)
    ensures LastOf(l, kind, least).Some? ==> |LastOf(l, kind, least).value| >= least
    decreases |l|
  {
    if l != [] {
      LastOfSize(l[..|l| - 1], kind, least);
    }
  }

  lemma {:induction false} FieldsNoted(txn: TransactionId, l: seq<Attr>)
    ensures NoteAll(Start(txn), l).req == FieldsOf(txn, l)
    ensures NoteAll(Start(txn), l).pos == HEADER_SIZE + |EncodeAttrs(l)|
    decreases |l|
  {
    if l != [] {
      var n := |l| - 1;
      FieldsNoted(txn, l[..n]);
      assert l == l[..n] + [l[n]];
      NoteAllSnoc(Start(txn), l[..n], l[n]);
      EncodeAttrsSnoc(l[..n], l[n]);
      LastOfSize(l[..n], PRIORITY, 4);
    }
  }

  /** Attributes without a hash among them do not move the place of the hash. */
  lemma {:induction false} HashPlace(st: Seen, l: seq<Attr>)
    requires !Has(l, MESSAGE_INTEGRITY)
    ensures NoteAll(st, l).mi == st.mi
    decreases |l|
  {
    if l != [] {
      assert l[0].kind != MESSAGE_INTEGRITY;
      assert forall i :: 0 <= i < |l| - 1 ==> l[1..][i] == l[i + 1];
      HashPlace(Note(st, l[0]), l[1..]);
    }
  }

  lemma {:induction false} NoteAllAppend(st: Seen, l: seq<Attr>, m: seq<Attr>)
    ensures NoteAll(st, l + m) == NoteAll(NoteAll(st, l), m)
    decreases |l|
  {
    if l == [] {
      assert l + m == m;
    } else {
      assert (l + m)[1..] == l[1..] + m;
      NoteAllAppend(Note(st, l[0]), l[1..], m);
    }
  }

  // ---- Requests ----

  /** Nothing but a framed Binding Request is accepted, and what is accepted are its own fields. */
  lemma AcceptedRequest(k: Sums, after: Tag, data: Bytes, pwd: Bytes)
    requires ParseRequest(k, after, data, pwd).Some?
    ensures exists txn, body ::
              Framed(data, BINDING_REQUEST, txn, body) && ParseRequest(k, after, data, pwd) == Some(FieldsOf(txn, Attrs(body)))
  {
    FrameFound(data, BINDING_REQUEST);
    FieldsNoted(data[8..20], Attrs(data[20..20 + U16(data, 2)]));
  }

  /** A request without a hash is accepted whatever password is expected: the check is skipped. */
  lemma UnsignedAccepted(k: Sums, after: Tag, data: Bytes, txn: TransactionId, body: Bytes, pwd: Bytes)
    requires Framed(data, BINDING_REQUEST, txn, body) && !Has(Attrs(body), MESSAGE_INTEGRITY)
    ensures ParseRequest(k, after, data, pwd) == Some(FieldsOf(txn, Attrs(body)))
  {
    FrameRead(data, BINDING_REQUEST, txn, body);
    FieldsNoted(txn, Attrs(body));
    HashPlace(Start(txn), Attrs(body));
  }

  /**
   A request with a hash: whatever attributes stand before and behind it, it is accepted exactly when
   no password is expected or the hash is that of everything before it under the password.
   */
  lemma SignedIff(k: Sums, after: Tag, txn: TransactionId, l: seq<Attr>, tag: Tag, m: seq<Attr>, pwd: Bytes)
    requires Narrow(l) && Narrow(m) && !Has(m, MESSAGE_INTEGRITY)
    requires |EncodeAttrs(l + [Attr(MESSAGE_INTEGRITY, tag)] + m)| < MAX16
    ensures var all := l + [Attr(MESSAGE_INTEGRITY, tag)] + m;
            ParseRequest(k, after, Message(BINDING_REQUEST, |EncodeAttrs(all)|, txn, EncodeAttrs(all)), pwd)
            == if pwd == [] || k.hmac(Unsigned(BINDING_REQUEST, txn, l), pwd) == tag then Some(FieldsOf(txn, all)) else None
  {
    var mi := Attr(MESSAGE_INTEGRITY, tag);
    var all := l + [mi] + m;
    MessageParsed(k, after, txn, all, pwd);
    FieldsNoted(txn, l);
    FieldsNoted(txn, all);
    NoteAllAppend(Start(txn), l + [mi], m);
    NoteAllSnoc(Start(txn), l, mi);
    HashPlace(NoteAll(Start(txn), l + [mi]), m);
    SignedBody(l, mi, m);
    ClosingVerdict(k, after, |EncodeAttrs(all)|, txn, EncodeAttrs(l), tag, EncodeAttrs(m), NoteAll(Start(txn), all), pwd);
  }

  lemma SignedBody(l: seq<Attr>, mi: Attr, m: seq<Attr>)
    ensures EncodeAttrs(l + [mi] + m) == EncodeAttrs(l) + (EncodeAttr(mi) + EncodeAttrs(m))
  {
    EncodeAttrsAppend(l + [mi], m);
    EncodeAttrsSnoc(l, mi);
  }

  // ---- Roles ----

  /** The role a request announces, with its tie breaker: the parser of this connector does not look at it. */
  function RoleOf(l: seq<Attr>): (Option<Bytes>, Option<Bytes>) {
    (LastOf(l, ICE_CONTROLLING, 8), LastOf(l, ICE_CONTROLLED, 8))
  }

  lemma {:induction false} LastOfAppend(l: seq<Attr>, a: Attr, kind: nat, least: nat)
    ensures LastOf(l + [a], kind, least) == if a.kind == kind && |a.value| >= least then Some(a.value) else LastOf(l, kind, least)
  {
    assert (l + [a])[..|l|] == l;
  }

  /** A check that fits announces exactly its sender's role, with the tie breaker in network order. */
  lemma RoleCarried(k: Sums, txn: TransactionId, username: Bytes, pwd: Bytes, priority: nat, useCandidate: bool,
                    controlling: bool, tie: nat)
    requires Fits(|username| % MAX16, useCandidate)
    ensures var data := CheckRequest(k, txn, username, pwd, priority, useCandidate, controlling, tie);
            HeaderOk(data, BINDING_REQUEST) &&
            RoleOf(Attrs(data[20..20 + U16(data, 2)]))
            == if controlling then (Some(BigEndian(tie, 8)), None) else (None, Some(BigEndian(tie, 8)))
  {
    var l := CheckAttrs(username, priority, useCandidate, controlling, tie);
    CheckAttrsSize(username, priority, useCandidate, controlling, tie);
    var crc := ProtectedAttrs(k, txn, l, pwd);
    RoleAmong(username, priority, useCandidate, controlling, tie);
    RoleKept(l, Attr(MESSAGE_INTEGRITY, k.hmac(Unsigned(BINDING_REQUEST, txn, l), pwd)), crc);
  }

  /** The attributes read from a protected request are those it was built from, the hash and the checksum. */
  lemma ProtectedAttrs(k: Sums, txn: TransactionId, l: seq<Attr>, pwd: Bytes) returns (crc: Attr)
    requires Narrow(l) && |EncodeAttrs(l)| + 32 < MAX16
    ensures var data := Protected(k, BINDING_REQUEST, txn, l, pwd);
            HeaderOk(data, BINDING_REQUEST) && crc.kind == FINGERPRINT &&
            Attrs(data[20..20 + U16(data, 2)])
            == l + [Attr(MESSAGE_INTEGRITY, k.hmac(Unsigned(BINDING_REQUEST, txn, l), pwd))] + [crc]
  {
    ProtectedSize(k, BINDING_REQUEST, txn, l, pwd);
    var all := AllAttrs(k, BINDING_REQUEST, txn, l, pwd);
    HeaderRead(BINDING_REQUEST, txn, EncodeAttrs(all));
    var more;
    crc, more := ProtectedBody(k, BINDING_REQUEST, txn, l, pwd);
    AttrsRoundTrip(all);
  }

  lemma RoleKept(l: seq<Attr>, mi: Attr, crc: Attr)
    requires mi.kind == MESSAGE_INTEGRITY && crc.kind == FINGERPRINT
    ensures RoleOf(l + [mi] + [crc]) == RoleOf(l)
  {
    forall kind | kind in {ICE_CONTROLLED, ICE_CONTROLLING}
      ensures LastOf(l + [mi] + [crc], kind, 8) == LastOf(l, kind, 8)
    {
      LastOfAppend(l, mi, kind, 8);
      LastOfAppend(l + [mi], crc, kind, 8);
    }
  }

  lemma RoleAmong(username: Bytes, priority: nat, useCandidate: bool, controlling: bool, tie: nat)
    ensures RoleOf(CheckAttrs(username, priority, useCandidate, controlling, tie))
            == if controlling then (Some(BigEndian(tie, 8)), None) else (None, Some(BigEndian(tie, 8)))
  {
    var name, role := Attr(USERNAME, username[..|username| % MAX16]),
                      Attr(if controlling then ICE_CONTROLLING else ICE_CONTROLLED, BigEndian(tie, 8));
    var two := [name] + [Attr(PRIORITY, BigEndian(priority, 4))];
    var l := CheckAttrs(username, priority, useCandidate, controlling, tie);
    assert l == two + [role] + if useCandidate then [Attr(USE_CANDIDATE, [])] else [];
    forall kind | kind in {ICE_CONTROLLED, ICE_CONTROLLING}
      ensures LastOf(l, kind, 8) == if kind == role.kind then Some(BigEndian(tie, 8)) else None
    {
      LastOfAppend([], name, kind, 8);
      assert [] + [name] == [name];
      LastOfAppend([name], two[1], kind, 8);
      LastOfAppend(two, role, kind, 8);
      if useCandidate {
        LastOfAppend(two + [role], Attr(USE_CANDIDATE, []), kind, 8);
      } else {
        assert l == two + [role];
      }
    }
  }

  // ---- Responses ----

  /** An address the parser can take: of a known family, and long enough for it. */
  predicate Usable(a: Attr) {
    && |a.value| >= 8 && (a.kind == XOR_MAPPED_ADDRESS || a.kind == MAPPED_ADDRESS)
    && (a.value[1] == 1 || (a.value[1] == 2 && a.kind == XOR_MAPPED_ADDRESS && |a.value| >= 20))
  }

  ghost predicate AnyUsable(l: seq<Attr>) { exists i :: 0 <= i < |l| && Usable(l[i]) }

  lemma {:induction false} FoundIff(txn: TransactionId, f: Found, l: seq<Attr>)
    ensures NoteMappedAll(txn, f, l).found <==> f.found || AnyUsable(l)
    decreases |l|
  {
    if l != [] {
      FoundIff(txn, NoteMapped(txn, f, l[0]), l[1..]);
      if AnyUsable(l[1..]) {
        var i :| 0 <= i < |l[1..]| && Usable(l[1..][i]);
        assert Usable(l[i + 1]);
      }
      if i :| 0 < i < |l| && Usable(l[i]) {
        assert Usable(l[1..][i - 1]);
      }
    }
  }

  /** A response is accepted exactly when it is framed as one and carries an address of a known family. */
  lemma ResponseAcceptedIff(data: Bytes)
    ensures ParseResponse(data).Some? <==>
            exists txn, body :: Framed(data, BINDING_RESPONSE, txn, body) && AnyUsable(Attrs(body))
    ensures ParseResponse(data).Some? ==> exists body :: Framed(data, BINDING_RESPONSE, ParseResponse(data).value.txn, body)
  {
    if HeaderOk(data, BINDING_RESPONSE) {
      FrameFound(data, BINDING_RESPONSE);
      FoundIff(data[8..20], NOTHING, Attrs(data[20..20 + U16(data, 2)]));
    }
    forall txn, body | Framed(data, BINDING_RESPONSE, txn, body)
      ensures HeaderOk(data, BINDING_RESPONSE) && data[8..20] == txn && data[20..20 + U16(data, 2)] == body
    {
      FrameRead(data, BINDING_RESPONSE, txn, body);
    }
  }

  /** The obfuscated address wins over a plain one before or behind it. */
  lemma {:induction false} PlainIgnored(txn: TransactionId, f: Found, l: seq<Attr>)
    requires f.found && !Has(l, XOR_MAPPED_ADDRESS)
    ensures NoteMappedAll(txn, f, l) == f
    decreases |l|
  {
    if l != [] {
      assert l[0].kind != XOR_MAPPED_ADDRESS;
      assert forall i :: 0 <= i < |l| - 1 ==> l[1..][i] == l[i + 1];
      PlainIgnored(txn, f, l[1..]);
    }
  }

  lemma {:induction false} NoteMappedAppend(txn: TransactionId, f: Found, l: seq<Attr>, m: seq<Attr>)
    ensures NoteMappedAll(txn, f, l + m) == NoteMappedAll(txn, NoteMappedAll(txn, f, l), m)
    decreases |l|
  {
    if l == [] {
      assert l + m == m;
    } else {
      assert (l + m)[1..] == l[1..] + m;
      NoteMappedAppend(txn, NoteMapped(txn, f, l[0]), l[1..], m);
    }
  }

  lemma MappedWins(txn: TransactionId, addr: Mapped, l: seq<Attr>, m: seq<Attr>)
    requires addr.port < MAX16 && !Has(m, XOR_MAPPED_ADDRESS)
    ensures NoteMappedAll(txn, NOTHING, l + [Attr(XOR_MAPPED_ADDRESS, MappedValue(addr, txn))] + m) == Found(addr, true)
  {
    var a := Attr(XOR_MAPPED_ADDRESS, MappedValue(addr, txn));
    var before := NoteMappedAll(txn, NOTHING, l);
    NoteMappedAppend(txn, NOTHING, l + [a], m);
    NoteMappedAppend(txn, NOTHING, l, [a]);
    assert NoteMappedAll(txn, before, [a]) == NoteMapped(txn, before, a) by {
      assert [a][1..] == [];
    }
    MappedUndone(addr, txn, before);
    PlainIgnored(txn, Found(addr, true), m);
  }
}
