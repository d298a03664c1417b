/** What the store imports from any bytes: the decoder against a description of its result. */
module StoreReading {
  import opened Bytes
  import opened StoreSync

  /** An entry as it may arrive: the three reserved bytes of its header can be anything. */
  function Written(e: Entry, reserved: Bytes): Bytes
    requires Fits(e)
  {
    LittleEndian(|e.key|, 2) + LittleEndian(|e.value|, 2) + LittleEndian(e.timestamp, 8) + LittleEndian(e.ttl, 8)
    + ([e.flags] + reserved) + (e.key + e.value)
  }

  /** The bytes begin with the entry and go on with more. */
  ghost predicate Front(body: Bytes, e: Entry, more: Bytes)
    requires Fits(e)
  {
    exists reserved: Bytes :: |reserved| == 3 && body == Written(e, reserved) + more
  }

  /** Too short for an entry header, or for the key and the value it announces. */
  predicate CutShort(s: Bytes) {
    |s| < ENTRY_HDR || |s| < ENTRY_HDR + ReadHead(s).keyLen + ReadHead(s).valueLen
  }

  /** The bytes are these entries, one behind the other, all that are announced or up to the first that is cut short. */
  ghost predicate Holds(body: Bytes, count: nat, es: seq<Entry>)
    decreases |es|
  {
    if es == [] then count == 0 || CutShort(body)
    else count > 0 && Fits(es[0]) && exists more: Bytes :: Front(body, es[0], more) && Holds(more, count - 1, es[1..])
  }

  // ---- One entry ----

  lemma WrittenHead(e: Entry, reserved: Bytes, more: Bytes)
    requires Fits(e) && |reserved| == 3
    ensures var s := Written(e, reserved) + more;
            |s| >= ENTRY_HDR && ReadHead(s) == Head(|e.key|, |e.value|, e.timestamp, e.ttl, e.flags)
  {
    var a, b := LittleEndian(|e.key|, 2), LittleEndian(|e.value|, 2);
    var c, d := LittleEndian(e.timestamp, 8), LittleEndian(e.ttl, 8);
    HeadSlices(a, b, c, d, [e.flags] + reserved, e.key + e.value + more);
    assert Written(e, reserved) + more == a + b + c + d + ([e.flags] + reserved) + (e.key + e.value + more);
    Pow256Values();
    LittleEndianRoundTrip(|e.key|, 2);
    LittleEndianRoundTrip(|e.value|, 2);
    LittleEndianRoundTrip(e.timestamp, 8);
    LittleEndianRoundTrip(e.ttl, 8);
  }

  lemma FieldsAt(head: Bytes, key: Bytes, value: Bytes, more: Bytes)
    requires |head| == ENTRY_HDR
    ensures var s := head + (key + value) + more;
            var k := ENTRY_HDR + |key|;
            s[ENTRY_HDR..k] == key && s[k..k + |value|] == value && s[k + |value|..] == more
  {
  }

  /** The entry the header at the front of the bytes describes. */
  function EntryAt(s: Bytes): Entry
    requires !CutShort(s)
  {
    var h := ReadHead(s);
    var k := ENTRY_HDR + h.keyLen;
    Entry(s[ENTRY_HDR..k], s[k..k + h.valueLen], h.timestamp, h.ttl, h.flags)
  }

  lemma FrontIs(body: Bytes, e: Entry, more: Bytes)
    requires Fits(e) && Front(body, e, more)
    ensures !CutShort(body) && e == EntryAt(body) && more == body[ENTRY_HDR + |e.key| + |e.value|..]
  {
    var reserved: Bytes :| |reserved| == 3 && body == Written(e, reserved) + more;
    WrittenHead(e, reserved, more);
    FieldsAt(Written(e, reserved)[..ENTRY_HDR], e.key, e.value, more);
    assert Written(e, reserved) == Written(e, reserved)[..ENTRY_HDR] + (e.key + e.value);
  }

  lemma FrontDecoded(body: Bytes, e: Entry, more: Bytes, count: nat)
    requires Fits(e) && Front(body, e, more) && count > 0
    ensures Decode(body, count) == [e] + Decode(more, count - 1)
  {
    FrontIs(body, e, more);
  }

  /** The bytes of an entry that is whole, read and written again. */
  lemma WrittenBack(s: Bytes) returns (e: Entry, more: Bytes)
    requires !CutShort(s)
    ensures Fits(e) && Front(s, e, more)
  {
    var h := ReadHead(s);
    var k := ENTRY_HDR + h.keyLen;
    e := Entry(s[ENTRY_HDR..k], s[k..k + h.valueLen], h.timestamp, h.ttl, h.flags);
    more := s[k + h.valueLen..];
    Pow256Values();
    FromLittleEndianRoundTrip(s[0..2]);
    FromLittleEndianRoundTrip(s[2..4]);
    FromLittleEndianRoundTrip(s[4..12]);
    FromLittleEndianRoundTrip(s[12..20]);
    Pieces(s, h.keyLen, h.valueLen);
    assert s == Written(e, s[21..24]) + more;
  }

  lemma Pieces(s: Bytes, n: nat, m: nat)
    requires |s| >= ENTRY_HDR + n + m
    ensures var k := ENTRY_HDR + n;
            s == s[0..2] + s[2..4] + s[4..12] + s[12..20] + ([s[20]] + s[21..24]) + (s[ENTRY_HDR..k] + s[k..k + m]) + s[k + m..]
  {
  }

  // ---- All of them ----

  lemma DecodeEndsIff(body: Bytes, count: nat)
    ensures Decode(body, count) == [] <==> count == 0 || CutShort(body)
  {
  }

  lemma HoldsMore(body: Bytes, e: Entry, more: Bytes, count: nat, es: seq<Entry>)
    requires Fits(e) && Front(body, e, more) && count > 0 && Holds(more, count - 1, es)
    ensures Holds(body, count, [e] + es)
  {
    assert ([e] + es)[1..] == es;
  }

  lemma {:induction false} DecodeHolds(body: Bytes, count: nat) returns (es: seq<Entry>)
    ensures es == Decode(body, count) && Holds(body, count, es)
    decreases count
  {
    DecodeEndsIff(body, count);
    if count == 0 || CutShort(body) {
      return [];
    }
    var e, more := WrittenBack(body);
    FrontDecoded(body, e, more, count);
    es := DecodeHolds(more, count - 1);
    HoldsMore(body, e, more, count, es);
    es := [e] + es;
  }

  lemma HoldsFirst(body: Bytes, count: nat, es: seq<Entry>) returns (more: Bytes)
    requires Holds(body, count, es) && es != []
    ensures count > 0 && Fits(es[0]) && Front(body, es[0], more) && Holds(more, count - 1, es[1..])
  {
    more :| Front(body, es[0], more) && Holds(more, count - 1, es[1..]);
  }

  lemma HoldsNot(body: Bytes, count: nat, d: seq<Entry>)
    requires Holds(body, count, d) && count > 0 && !CutShort(body)
    ensures d != []
  {
  }

  /** Two lists in the same bytes, the first not empty, begin alike and go on in the same bytes. */
  lemma HoldsStep(body: Bytes, count: nat, es: seq<Entry>, d: seq<Entry>) returns (more: Bytes)
    requires es != [] && Holds(body, count, es) && Holds(body, count, d)
    ensures d != [] && es[0] == d[0] && count > 0 && Holds(more, count - 1, es[1..]) && Holds(more, count - 1, d[1..])
  {
    more := HoldsFirst(body, count, es);
    FrontIs(body, es[0], more);
    HoldsNot(body, count, d);
    var more' := HoldsFirst(body, count, d);
    FrontIs(body, d[0], more');
  }

  lemma {:induction false} HoldsUnique(body: Bytes, count: nat, es: seq<Entry>, d: seq<Entry>)
    requires Holds(body, count, es) && Holds(body, count, d)
    ensures es == d
    decreases |es|
  {
    if es == [] {
      if d != [] {
        var more := HoldsStep(body, count, d, es);
      }
    } else {
      var more := HoldsStep(body, count, es, d);
      HoldsUnique(more, count - 1, es[1..], d[1..]);
      SameSeq(es, d);
    }
  }

  lemma SameSeq(es: seq<Entry>, d: seq<Entry>)
    requires es != [] && d != [] && es[0] == d[0] && es[1..] == d[1..]
    ensures es == d
  {
    assert es == [es[0]] + es[1..] && d == [d[0]] + d[1..];
  }

  /**
   On any bytes the entries imported are the one list that lies there in wire form, as many as
   announced or up to the first that is cut short.
   */
  lemma DecodeIff(body: Bytes, count: nat, es: seq<Entry>)
    ensures Decode(body, count) == es <==> Holds(body, count, es)
  {
    var d := DecodeHolds(body, count);
    if Holds(body, count, es) {
      HoldsUnique(body, count, es, d);
    }
  }

  /** A sync message is imported exactly when its header is whole and its type is one of the two responses. */
  lemma ImportedIff(raw: Bytes, es: seq<Entry>)
    ensures ParseSync(raw) == Some(es) <==>
            |raw| >= SYNC_HDR && (raw[8] == 1 || raw[8] == 2) && Holds(raw[SYNC_HDR..], raw[9], es)
  {
    if |raw| >= SYNC_HDR {
      DecodeIff(raw[SYNC_HDR..], raw[9], es);
    }
  }
}
