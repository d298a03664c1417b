/** The STUN builders and parsers as they work: a buffer grown and patched, a cursor over a packet. */
module StunCode {
  import opened Bytes
  import opened Stun

  lemma Relength(kind: nat, len: nat, n: nat, txn: TransactionId, body: Bytes)
    ensures var s := Message(kind, len, txn, body); s[..2] + Put16(n) + s[4..] == Message(kind, n, txn, body)
  {
    HashedAgain(kind, len, n, txn, body, []);
    var s := Message(kind, len, txn, body);
    assert body + [] == body;
    assert s[4..HEADER_SIZE + |body|] == s[4..];
  }

  lemma OneMoreAttr(kind: nat, len: nat, txn: TransactionId, l: seq<Attr>, a: Attr)
    ensures Message(kind, len, txn, EncodeAttrs(l)) + EncodeAttr(a) == Message(kind, len, txn, EncodeAttrs(l + [a]))
  {
    EncodeAttrsSnoc(l, a);
    MessageAppend(kind, len, txn, EncodeAttrs(l), EncodeAttr(a));
  }

  /** write_u64: from the last byte to the first. */
  method WriteU64(value: nat) returns (p: Bytes)
    ensures p == BigEndian(value, 8)
  {
    p := [];
    var v := value;
    for i := 8 downto 0
      invariant BigEndian(value, 8) == BigEndian(v, i) + p
    {
      p := [v % 256] + p;
      v := v / 256;
    }
  }

  class Buffer {
    var data: Bytes

    constructor ()
      ensures data == []
    {
      data := [];
    }

    method WriteHeader(kind: nat, txn: TransactionId)
      modifies this
      ensures data == Message(kind, 0, txn, [])
    {
      data := Put16(kind) + Put16(0) + COOKIE_BYTES + txn;
    }

    /** append_attr: false when the padded length wraps to zero and the copy would run past the buffer. */
    method AppendAttr(kind: nat, value: Bytes) returns (ok: bool)
      requires |value| < MAX16
      modifies this
      ensures ok <==> |value| <= MAX_VALUE
      ensures data == if ok then old(data) + EncodeAttr(Attr(kind, value)) else old(data)
    {
      var padded := (|value| + 3) / 4 * 4 % MAX16;
      if padded < |value| {
        return false;
      }
      data := data + (Put16(kind) + Put16(|value|) + value + Blank(padded - |value|));
      return true;
    }

    method SetLength(n: nat)
      requires |data| >= HEADER_SIZE
      modifies this
      ensures data == old(data[..2]) + Put16(n) + old(data[4..])
    {
      data := data[..2] + Put16(n) + data[4..];
    }

    /** The length field is set three times; the hash and the checksum see the values they must. */
    method AppendIntegrityAndFingerprint(k: Sums, pwd: Bytes, ghost kind: nat, ghost len: nat,
                                         ghost txn: TransactionId, ghost l: seq<Attr>)
      requires data == Message(kind, len, txn, EncodeAttrs(l))
      modifies this
      ensures data == Protected(k, kind, txn, l, pwd)
    {
      SetLength(|data| - HEADER_SIZE + 4 + HMAC_SIZE);
      Relength(kind, len, |EncodeAttrs(l)| + 4 + HMAC_SIZE, txn, EncodeAttrs(l));
      var tag := k.hmac(data, pwd);
      OneMoreAttr(kind, |EncodeAttrs(l)| + 4 + HMAC_SIZE, txn, l, Attr(MESSAGE_INTEGRITY, tag));
      var _ := AppendAttr(MESSAGE_INTEGRITY, tag);
      ghost var m := l + [Attr(MESSAGE_INTEGRITY, tag)];
      AppendFingerprint(k, kind, |EncodeAttrs(l)| + 4 + HMAC_SIZE, txn, m);
    }

    method AppendFingerprint(k: Sums, ghost kind: nat, ghost len: nat, ghost txn: TransactionId, ghost m: seq<Attr>)
      requires data == Message(kind, len, txn, EncodeAttrs(m))
      modifies this
      ensures var all := WithFingerprint(k, kind, txn, m);
              data == Message(kind, |EncodeAttrs(all)|, txn, EncodeAttrs(all))
    {
      SetLength(|data| - HEADER_SIZE + 8);
      Relength(kind, len, |EncodeAttrs(m)| + 8, txn, EncodeAttrs(m));
      var crc := k.crc(data);
      OneMoreAttr(kind, |EncodeAttrs(m)| + 8, txn, m, Attr(FINGERPRINT, crc));
      var _ := AppendAttr(FINGERPRINT, crc);
      ghost var all := m + [Attr(FINGERPRINT, crc)];
      SetLength(|data| - HEADER_SIZE);
      Relength(kind, |EncodeAttrs(m)| + 8, |EncodeAttrs(all)|, txn, EncodeAttrs(all));
    }
  }

  method BuildCheckRequest(k: Sums, txn: TransactionId, username: Bytes, pwd: Bytes, priority: nat,
                           useCandidate: bool, controlling: bool, tie: nat) returns (r: Option<Bytes>)
    ensures r == Built(k, txn, username, pwd, priority, useCandidate, controlling, tie)
  {
    var buf := new Buffer();
    buf.WriteHeader(BINDING_REQUEST, txn);
    ghost var l: seq<Attr> := [];
    var name := Attr(USERNAME, username[..|username| % MAX16]);
    OneMoreAttr(BINDING_REQUEST, 0, txn, l, name);
    var ok := buf.AppendAttr(USERNAME, username[..|username| % MAX16]);
    if !ok {
      return None;
    }
    l := l + [name];
    OneMoreAttr(BINDING_REQUEST, 0, txn, l, Attr(PRIORITY, BigEndian(priority, 4)));
    var _ := buf.AppendAttr(PRIORITY, BigEndian(priority, 4));
    l := l + [Attr(PRIORITY, BigEndian(priority, 4))];
    var tb := WriteU64(tie);
    var role := if controlling then ICE_CONTROLLING else ICE_CONTROLLED;
    OneMoreAttr(BINDING_REQUEST, 0, txn, l, Attr(role, tb));
    var _ := buf.AppendAttr(role, tb);
    l := l + [Attr(role, tb)];
    if useCandidate {
      OneMoreAttr(BINDING_REQUEST, 0, txn, l, Attr(USE_CANDIDATE, []));
      var _ := buf.AppendAttr(USE_CANDIDATE, []);
      l := l + [Attr(USE_CANDIDATE, [])];
    }
    assert l == CheckAttrs(username, priority, useCandidate, controlling, tie);
    buf.AppendIntegrityAndFingerprint(k, pwd, BINDING_REQUEST, 0, txn, l);
    r := Some(buf.data);
  }

  /** The loop over the sixteen octets of an IPv6 address. */
  method XorLoop(a: Bytes, b: Bytes) returns (r: Bytes)
    requires |a| == |b|
    ensures r == XorBytes(a, b)
  {
    r := [];
    for i := 0 to |a|
      invariant r == XorBytes(a[..i], b[..i])
    {
      assert a[..i + 1][..i] == a[..i] && b[..i + 1][..i] == b[..i];
      r := r + [XorByte(a[i], b[i])];
    }
    assert a[..|a|] == a && b[..|b|] == b;
  }

  method BuildCheckResponse(k: Sums, txn: TransactionId, m: Mapped, pwd: Bytes) returns (r: Bytes)
    ensures r == CheckResponse(k, txn, m, pwd)
  {
    var buf := new Buffer();
    buf.WriteHeader(BINDING_RESPONSE, txn);
    var xma: Bytes;
    match m.ip {
      case V4(quad) =>
        xma := [0, 1] + Put16(XorPort(m.port)) + XorQuad(quad);
      case V6(octets) =>
        var x := XorLoop(octets, COOKIE_BYTES + txn);
        xma := [0, 2] + Put16(XorPort(m.port)) + x;
    }
    assert xma == MappedValue(m, txn);
    OneMoreAttr(BINDING_RESPONSE, 0, txn, [], Attr(XOR_MAPPED_ADDRESS, xma));
    var _ := buf.AppendAttr(XOR_MAPPED_ADDRESS, xma);
    assert [] + [Attr(XOR_MAPPED_ADDRESS, xma)] == [Attr(XOR_MAPPED_ADDRESS, xma)];
    buf.AppendIntegrityAndFingerprint(k, pwd, BINDING_RESPONSE, 0, txn, [Attr(XOR_MAPPED_ADDRESS, xma)]);
    r := buf.data;
  }

  /** The attribute at the front of what is left, or None when it runs past the end. */
  method NextAttr(left: Bytes) returns (a: Option<Attr>, rest: Bytes)
    requires |left| >= 4
    ensures a.None? ==> Attrs(left) == []
    ensures a.Some? ==> |left| == 4 + Padded(|a.value.value|) + |rest|
    ensures a.Some? ==> Attrs(left) == [a.value] + Attrs(rest)
  {
    var len := U16(left, 2);
    if 4 + Padded(len) > |left| {
      return None, left;
    }
    return Some(Attr(U16(left, 0), left[4..4 + len])), left[4 + Padded(len)..];
  }

  lemma NoteFirst(st: Seen, a: Attr, rest: seq<Attr>)
    ensures NoteAll(st, [a] + rest) == NoteAll(Note(st, a), rest)
    ensures Note(st, a).pos == st.pos + 4 + Padded(|a.value|)
  {
    assert ([a] + rest)[1..] == rest;
  }

  /** The attribute loop of parse_binding_request over the body of the message. */
  method ScanRequest(txn: TransactionId, body: Bytes) returns (st: Seen)
    ensures st == NoteAll(Start(txn), Attrs(body))
  {
    st := Start(txn);
    var left := body;
    ghost var whole := NoteAll(st, Attrs(body));
    while |left| >= 4
      invariant NoteAll(st, Attrs(left)) == whole
    {
      var a, rest := NextAttr(left);
      if a.None? {
        break;
      }
      NoteFirst(st, a.value, Attrs(rest));
      st := Note(st, a.value);
      left := rest;
    }
  }

  /** parse_binding_request. */
  method ParseBindingRequest(k: Sums, after: Tag, data: Bytes, pwd: Bytes) returns (r: Option<Request>)
    ensures r == ParseRequest(k, after, data, pwd)
  {
    if |data| < HEADER_SIZE || U16(data, 0) != BINDING_REQUEST || U32(data, 4) != MAGIC_COOKIE {
      return None;
    }
    var end := HEADER_SIZE + U16(data, 2);
    if |data| < end {
      return None;
    }
    var st := ScanRequest(data[8..20], data[HEADER_SIZE..end]);
    if st.mi > 0 && pwd != [] && !TagMatches(k, after, data, st.mi, pwd) {
      return None;
    }
    return Some(st.req);
  }

  lemma NoteMappedFirst(txn: TransactionId, f: Found, a: Attr, rest: seq<Attr>)
    ensures NoteMappedAll(txn, f, [a] + rest) == NoteMappedAll(txn, NoteMapped(txn, f, a), rest)
  {
    assert ([a] + rest)[1..] == rest;
  }

  /** The attribute loop of parse_binding_response over the body of the message. */
  method ScanResponse(txn: TransactionId, body: Bytes) returns (f: Found)
    ensures f == NoteMappedAll(txn, NOTHING, Attrs(body))
  {
    f := NOTHING;
    var left := body;
    ghost var whole := NoteMappedAll(txn, f, Attrs(body));
    while |left| >= 4
      invariant NoteMappedAll(txn, f, Attrs(left)) == whole
    {
      var a, rest := NextAttr(left);
      if a.None? {
        break;
      }
      NoteMappedFirst(txn, f, a.value, Attrs(rest));
      f := NoteMapped(txn, f, a.value);
      left := rest;
    }
  }

  /** parse_binding_response. */
  method ParseBindingResponse(data: Bytes) returns (r: Option<Result>)
    ensures r == ParseResponse(data)
  {
    if |data| < HEADER_SIZE || U16(data, 0) != BINDING_RESPONSE || U32(data, 4) != MAGIC_COOKIE {
      return None;
    }
    var end := HEADER_SIZE + U16(data, 2);
    if |data| < end {
      return None;
    }
    var f := ScanResponse(data[8..20], data[HEADER_SIZE..end]);
    return if f.found then Some(Result(f.mapped, data[8..20])) else None;
  }
}
