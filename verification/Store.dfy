/** The store application: the sync codec of apps/store/handler.cpp and its import loop. */
module StoreSync {
  import opened Bytes

  const SYNC_HDR: nat := 20
  const ENTRY_HDR: nat := 24
  const MAX_ENTRIES: nat := 255

  datatype Entry = Entry(key: Bytes, value: Bytes, timestamp: nat, ttl: nat, flags: nat)

  /** A length cast to 16 bits keeps only the front of an over-long field. */
  function Cut(b: Bytes): (c: Bytes)
    ensures |c| == |b| % 0x1_0000 && c <= b
  {
    b[..|b| % 0x1_0000]
  }

  /** What the 24-byte entry header and its two fields can carry. */
  function Carried(e: Entry): Entry {
    Entry(Cut(e.key), Cut(e.value), e.timestamp % Pow256(8), e.ttl % Pow256(8), e.flags % 256)
  }

  predicate Fits(e: Entry) {
    |e.key| < 0x1_0000 && |e.value| < 0x1_0000 && e.timestamp < Pow256(8) && e.ttl < Pow256(8) && e.flags < 256
  }

  lemma CarriedIffFits(e: Entry)
    ensures Carried(e) == e <==> Fits(e)
  {
    if |e.key| < 0x1_0000 && |e.value| < 0x1_0000 {
      assert e.key[..|e.key|] == e.key && e.value[..|e.value|] == e.value;
    }
  }

  function EntryHeader(e: Entry): (h: Bytes)
    requires Fits(e)
    ensures |h| == ENTRY_HDR
  {
    LittleEndian(|e.key|, 2) + LittleEndian(|e.value|, 2) + LittleEndian(e.timestamp, 8)
    + LittleEndian(e.ttl, 8) + [e.flags, 0, 0, 0]
  }

  lemma CarriedFits(e: Entry)
    ensures Fits(Carried(e))
  {
  }

  /** serialize_entry. */
  function Serialize(e: Entry): Bytes {
    CarriedFits(e);
    var c := Carried(e);
    EntryHeader(c) + c.key + c.value
  }

  function SerializeAll(es: seq<Entry>): Bytes {
    if es == [] then [] else Serialize(es[0]) + SerializeAll(es[1..])
  }

  function First(es: seq<Entry>): seq<Entry> {
    if |es| <= MAX_ENTRIES then es else es[..MAX_ENTRIES]
  }

  /** The full_response on_sync sends: header, then at most 255 entries. */
  function BuildSync(requestId: nat, es: seq<Entry>): Bytes {
    LittleEndian(requestId, 8) + [1, |First(es)|, 0, 0] + LittleEndian(0, 8) + SerializeAll(First(es))
  }

  lemma {:induction false} SerializeAllSnoc(es: seq<Entry>, e: Entry)
    ensures SerializeAll(es + [e]) == SerializeAll(es) + Serialize(e)
    decreases |es|
  {
    if es == [] {
      assert SerializeAll([e]) == Serialize(e) + SerializeAll([]);
      assert es + [e] == [e];
    } else {
      SerializeAllSnoc(es[1..], e);
      assert (es + [e])[1..] == es[1..] + [e];
    }
  }

  lemma AppendStep(head: Bytes, entries: seq<Entry>, i: nat)
    requires i < |entries|
    ensures head + SerializeAll(entries[..i]) + Serialize(entries[i]) == head + SerializeAll(entries[..i + 1])
  {
    SerializeAllSnoc(entries[..i], entries[i]);
    assert entries[..i + 1] == entries[..i] + [entries[i]];
    Regroup(head, SerializeAll(entries[..i]), Serialize(entries[i]));
  }

  lemma Regroup(a: Bytes, b: Bytes, c: Bytes)
    ensures a + b + c == a + (b + c)
  {
  }

  /** The loop of on_sync that answers a request: the buffer grows by one entry a turn. */
  method AppendEntries(head: Bytes, entries: seq<Entry>) returns (buf: Bytes)
    ensures buf == head + SerializeAll(entries)
  {
    buf := head;
    for i := 0 to |entries|
      invariant buf == head + SerializeAll(entries[..i])
    {
      AppendStep(head, entries, i);
      buf := buf + Serialize(entries[i]);
    }
    assert entries[..|entries|] == entries;
  }

  method SyncResponse(requestId: nat, entries: seq<Entry>) returns (buf: Bytes)
    ensures buf == BuildSync(requestId, entries)
  {
    var carried := First(entries);
    buf := AppendEntries(LittleEndian(requestId, 8) + [1, |carried|, 0, 0] + LittleEndian(0, 8), carried);
  }

  // ---- Reading ----

  datatype Head = Head(keyLen: nat, valueLen: nat, timestamp: nat, ttl: nat, flags: nat)

  function ReadHead(s: Bytes): Head
    requires |s| >= ENTRY_HDR
  {
    Head(FromLittleEndian(s[0..2]), FromLittleEndian(s[2..4]), FromLittleEndian(s[4..12]),
         FromLittleEndian(s[12..20]), s[20])
  }

  /** Entries decoded from a body that announces count of them; it stops at the first that is cut short. */
  function Decode(body: Bytes, count: nat): seq<Entry>
    decreases count
  {
    if count == 0 || |body| < ENTRY_HDR then []
    else
      var h := ReadHead(body);
      var total := ENTRY_HDR + h.keyLen + h.valueLen;
      if |body| < total then []
      else
        var e := Entry(body[ENTRY_HDR..ENTRY_HDR + h.keyLen], body[ENTRY_HDR + h.keyLen..total],
                       h.timestamp, h.ttl, h.flags);
        [e] + Decode(body[total..], count - 1)
  }

  /** on_sync's view of a payload: None is a rejected or non-import message. */
  function ParseSync(raw: Bytes): Option<seq<Entry>> {
    if |raw| < SYNC_HDR || (raw[8] != 1 && raw[8] != 2) then None
    else Some(Decode(raw[SYNC_HDR..], raw[9]))
  }

  // ---- Round trip ----

  lemma HeadSlices(a: Bytes, b: Bytes, c: Bytes, d: Bytes, e: Bytes, tail: Bytes)
    requires |a| == 2 && |b| == 2 && |c| == 8 && |d| == 8 && |e| == 4
    ensures var s := a + b + c + d + e + tail;
            s[0..2] == a && s[2..4] == b && s[4..12] == c && s[12..20] == d && s[20] == e[0]
  {
  }

  lemma HeadRoundTrip(e: Entry, tail: Bytes)
    requires Fits(e)
    ensures ReadHead(EntryHeader(e) + tail) == Head(|e.key|, |e.value|, e.timestamp, e.ttl, e.flags)
  {
    HeadSlices(LittleEndian(|e.key|, 2), LittleEndian(|e.value|, 2), LittleEndian(e.timestamp, 8),
               LittleEndian(e.ttl, 8), [e.flags, 0, 0, 0], tail);
    Pow256Values();
    LittleEndianRoundTrip(|e.key|, 2);
    LittleEndianRoundTrip(|e.value|, 2);
    LittleEndianRoundTrip(e.timestamp, 8);
    LittleEndianRoundTrip(e.ttl, 8);
  }

  lemma EntrySlices(head: Bytes, key: Bytes, value: Bytes, more: Bytes)
    requires |head| == ENTRY_HDR
    ensures var s := head + (key + value + more);
            var k := ENTRY_HDR + |key|;
            s[ENTRY_HDR..k] == key && s[k..k + |value|] == value && s[k + |value|..] == more
  {
  }

  /** One serialized entry at the front of a body is decoded, and decoding goes on behind it. */
  lemma DecodeOne(e: Entry, more: Bytes, count: nat)
    requires count > 0
    ensures Decode(Serialize(e) + more, count) == [Carried(e)] + Decode(more, count - 1)
  {
    var c := Carried(e);
    CarriedFits(e);
    var body := Serialize(e) + more;
    assert body == EntryHeader(c) + (c.key + c.value + more);
    HeadRoundTrip(c, c.key + c.value + more);
    EntrySlices(EntryHeader(c), c.key, c.value, more);
  }

  function CarriedAll(es: seq<Entry>): seq<Entry> {
    if es == [] then [] else [Carried(es[0])] + CarriedAll(es[1..])
  }

  lemma {:induction false} CarriedAllFits(es: seq<Entry>)
    requires forall i :: 0 <= i < |es| ==> Fits(es[i])
    ensures CarriedAll(es) == es
    decreases |es|
  {
    if es != [] {
      CarriedIffFits(es[0]);
      CarriedAllFits(es[1..]);
    }
  }

  lemma {:induction false} DecodeAll(es: seq<Entry>, tail: Bytes)
    ensures Decode(SerializeAll(es) + tail, |es|) == CarriedAll(es)
    decreases |es|
  {
    if es != [] {
      assert SerializeAll(es) + tail == Serialize(es[0]) + (SerializeAll(es[1..]) + tail);
      DecodeOne(es[0], SerializeAll(es[1..]) + tail, |es|);
      DecodeAll(es[1..], tail);
    }
  }

  /** A sync response imports as the first 255 entries, each as far as 16-bit lengths carry it. */
  lemma SyncCarries(requestId: nat, es: seq<Entry>)
    ensures ParseSync(BuildSync(requestId, es)) == Some(CarriedAll(First(es)))
  {
    var first := First(es);
    SyncSlices(LittleEndian(requestId, 8), [1, |first|, 0, 0], LittleEndian(0, 8), SerializeAll(first));
    assert SerializeAll(first) + [] == SerializeAll(first);
    DecodeAll(first, []);
  }

  /** Entries with 16-bit lengths survive unchanged. */
  lemma SyncRoundTrip(requestId: nat, es: seq<Entry>)
    requires forall i :: 0 <= i < |es| ==> Fits(es[i])
    ensures ParseSync(BuildSync(requestId, es)) == Some(First(es))
  {
    SyncCarries(requestId, es);
    CarriedAllFits(First(es));
  }

  lemma SyncSlices(a: Bytes, b: Bytes, c: Bytes, body: Bytes)
    requires |a| == 8 && |b| == 4 && |c| == 8
    ensures var s := a + b + c + body;
            s[8] == b[0] && s[9] == b[1] && s[SYNC_HDR..] == body
  {
  }

  // ---- The import loop ----

  /** One turn of the loop: the entry at the front of rest moves to the output. */
  lemma ImportStep(es: seq<Entry>, rest: Bytes, count: nat, e: Entry, next: Bytes)
    requires count > 0 && |rest| >= ENTRY_HDR
    requires var h := ReadHead(rest);
             var k := ENTRY_HDR + h.keyLen;
             && |rest| >= k + h.valueLen
             && e == Entry(rest[ENTRY_HDR..k], rest[k..k + h.valueLen], h.timestamp, h.ttl, h.flags)
             && next == rest[k + h.valueLen..]
    ensures es + Decode(rest, count) == es + [e] + Decode(next, count - 1)
  {
    var more := Decode(next, count - 1);
    assert Decode(rest, count) == [e] + more;
    assert es + ([e] + more) == es + [e] + more;
  }

  /**
   The cursor loop of on_sync over any bytes whatever: it terminates, pos and remaining always
   partition the payload, and it yields what Decode says.
   */
  method Import(body: Bytes, count: nat) returns (es: seq<Entry>, pos: nat)
    ensures es == Decode(body, count) && pos <= |body|
  {
    es, pos := [], 0;
    var remaining := |body|;
    var i, rest := 0, body;
    ghost var left, whole := count, Decode(body, count);
    while i < count && remaining >= ENTRY_HDR
      invariant left == count - i && remaining >= 0 && pos + remaining == |body| && rest == body[pos..]
      invariant whole == es + Decode(rest, left)
      decreases left
    {
      var h := ReadHead(rest);
      pos := pos + ENTRY_HDR;
      remaining := remaining - ENTRY_HDR;
      if remaining < h.keyLen + h.valueLen {
        assert es + [] == es;
        return;
      }
      var total := ENTRY_HDR + h.keyLen + h.valueLen;
      var e := Entry(rest[ENTRY_HDR..ENTRY_HDR + h.keyLen], rest[ENTRY_HDR + h.keyLen..total],
                     h.timestamp, h.ttl, h.flags);
      var next := rest[total..];
      ImportStep(es, rest, left, e, next);
      pos := pos + h.keyLen;
      remaining := remaining - h.keyLen;
      pos := pos + h.valueLen;
      remaining := remaining - h.valueLen;
      rest := next;
      es := es + [e];
      i, left := i + 1, left - 1;
    }
  }
}

/** The prefix query of apps/store/sqlite_backend.cpp against the prefix test of the subscriptions. */
module StorePrefix {
  import opened Bytes

  /** Byte order of keys: memcmp, then the shorter first. */
  predicate Less(a: Bytes, b: Bytes) {
    if b == [] then false
    else if a == [] then true
    else a[0] < b[0] || (a[0] == b[0] && Less(a[1..], b[1..]))
  }

  predicate StartsWith(key: Bytes, prefix: Bytes) { prefix <= key }

  /** The exclusive upper bound: the last byte plus one, in a char. */
  function UpperBound(prefix: Bytes): Bytes {
    if prefix == [] then [255]
    else
      var n := |prefix| - 1;
      prefix[n := (prefix[n] as int + 1) % 256]
  }

  predicate InRange(key: Bytes, prefix: Bytes) { !Less(key, prefix) && Less(key, UpperBound(prefix)) }

  /** get_prefix's bound, built by changing the copied key in place. */
  method EndKey(prefix: Bytes) returns (end: Bytes)
    ensures end == UpperBound(prefix)
  {
    end := prefix;
    if end != [] {
      end := end[|end| - 1 := (end[|end| - 1] as int + 1) % 256];
    } else {
      end := [255];
    }
  }

  /** For a prefix that does not end in 0xFF the range holds exactly the keys with that prefix. */
  lemma {:induction false} RangeIsPrefix(key: Bytes, prefix: Bytes)
    requires prefix != [] && prefix[|prefix| - 1] < 255
    ensures InRange(key, prefix) <==> StartsWith(key, prefix)
    decreases |prefix|
  {
    if |prefix| == 1 {
      assert prefix[1..] == [] && UpperBound(prefix)[1..] == [];
      assert StartsWith(key, prefix) <==> key != [] && key[0] == prefix[0];
      if key != [] {
        assert !Less(key[1..], []);
        assert Less(key, prefix) <==> key[0] < prefix[0];
        assert Less(key, UpperBound(prefix)) <==> key[0] <= prefix[0];
      }
    } else {
      assert UpperBound(prefix)[1..] == UpperBound(prefix[1..]);
      if key != [] && key[0] == prefix[0] {
        RangeIsPrefix(key[1..], prefix[1..]);
        assert prefix <= key <==> prefix[1..] <= key[1..] by {
          assert prefix == [prefix[0]] + prefix[1..] && key == [key[0]] + key[1..];
        }
      }
    }
  }

  /** A bound that wrapped to zero lies below its prefix. */
  lemma {:induction false} WrappedBoundBelow(prefix: Bytes)
    requires prefix != [] && prefix[|prefix| - 1] == 255
    ensures !Less(prefix, UpperBound(prefix))
    decreases |prefix|
  {
    if |prefix| > 1 {
      WrappedBoundBelow(prefix[1..]);
      assert UpperBound(prefix)[1..] == UpperBound(prefix[1..]);
    }
  }

  /** The query and the test agree on all keys if and only if the prefix is non-empty and does not end in 0xFF. */
  lemma AgreeIff(prefix: Bytes)
    ensures (forall key :: InRange(key, prefix) <==> StartsWith(key, prefix))
            <==> prefix != [] && prefix[|prefix| - 1] < 255
  {
    if prefix == [] {
      assert StartsWith([255], []) && !Less([255], [255]);
      assert !InRange([255], prefix);
    } else if prefix[|prefix| - 1] == 255 {
      WrappedBoundBelow(prefix);
      assert StartsWith(prefix, prefix) && !InRange(prefix, prefix);
    } else {
      forall key
        ensures InRange(key, prefix) <==> StartsWith(key, prefix)
      {
        RangeIsPrefix(key, prefix);
      }
    }
  }
}
