/** Framing and stream reassembly: header_t of sdk/types.h and handle_data of core/cm/dispatch.cpp. */
module Reassembly {
  import opened Bytes

  const GNET_MAGIC: nat := 0x474E4554
  const GNET_PROTO_VER: nat := 3
  const HEADER: nat := 20
  const MAX_RECV_BUF: nat := 16 * 1024 * 1024

  /** The packed 20-byte header, little-endian. */
  datatype Header = Header(magic: nat, ver: nat, flags: nat, ptype: nat, len: nat, pid: nat)

  function ReadHeader(s: Bytes): (h: Header)
    requires |s| >= HEADER
    ensures h.len < Pow256(4)
  {
    Header(FromLittleEndian(s[0..4]), s[4], s[5], FromLittleEndian(s[6..8]),
           FromLittleEndian(s[8..12]), FromLittleEndian(s[12..20]))
  }

  function WriteHeader(h: Header): (s: Bytes)
    ensures |s| == HEADER
  {
    LittleEndian(h.magic, 4) + [h.ver % 256, h.flags % 256] + LittleEndian(h.ptype, 2)
    + LittleEndian(h.len, 4) + LittleEndian(h.pid, 8)
  }

  predicate FitsHeader(h: Header) {
    h.magic < Pow256(4) && h.ver < 256 && h.flags < 256 && h.ptype < Pow256(2) && h.len < Pow256(4) && h.pid < Pow256(8)
  }

  lemma HeaderSlices(a: Bytes, b: Bytes, c: Bytes, d: Bytes, e: Bytes, tail: Bytes)
    requires |a| == 4 && |b| == 2 && |c| == 2 && |d| == 4 && |e| == 8
    ensures var s := a + b + c + d + e + tail;
            s[0..4] == a && s[4] == b[0] && s[5] == b[1] && s[6..8] == c && s[8..12] == d && s[12..20] == e
  {
  }

  lemma HeaderRoundTrip(h: Header, tail: Bytes)
    requires FitsHeader(h)
    ensures ReadHeader(WriteHeader(h) + tail) == h
  {
    HeaderSlices(LittleEndian(h.magic, 4), [h.ver % 256, h.flags % 256], LittleEndian(h.ptype, 2),
                 LittleEndian(h.len, 4), LittleEndian(h.pid, 8), tail);
    LittleEndianRoundTrip(h.magic, 4);
    LittleEndianRoundTrip(h.ptype, 2);
    LittleEndianRoundTrip(h.len, 4);
    LittleEndianRoundTrip(h.pid, 8);
  }

  datatype Packet = Packet(hdr: Header, payload: Bytes)

  // ---- The meaning of a byte stream ----

  /** Why parsing stops: more bytes are needed, a framing error, or dispatch dropped the record. */
  datatype Status = Pending | BadMagic | BadVersion | Gone

  datatype Parsed = Parsed(packets: seq<Packet>, rest: Bytes, status: Status)

  /**
   done: what was dispatched on this connection before; gone: whether the record is missing once
   these packets have been dispatched, for whatever reason it may have been removed.
   */
  function Parse(s: Bytes, done: seq<Packet>, gone: seq<Packet> -> bool): (r: Parsed)
    ensures |r.rest| <= |s|
    decreases |s|
  {
    if |s| < HEADER then Parsed([], s, Pending)
    else
      var h := ReadHeader(s);
      if h.magic != GNET_MAGIC then Parsed([], s, BadMagic)
      else if h.ver != GNET_PROTO_VER then Parsed([], s, BadVersion)
      else if |s| < HEADER + h.len then Parsed([], s, Pending)
      else
        var p := Packet(h, s[HEADER..HEADER + h.len]);
        if gone(done + [p]) then Parsed([p], s[HEADER + h.len..], Gone)
        else
          var r := Parse(s[HEADER + h.len..], done + [p], gone);
          r.(packets := [p] + r.packets)
  }

  function Then(a: Parsed, b: Parsed): Parsed { b.(packets := a.packets + b.packets) }

  lemma HeaderIsPrefix(s: Bytes, t: Bytes)
    requires |s| >= HEADER
    ensures ReadHeader(s + t) == ReadHeader(s)
  {
    var st := s + t;
    assert st[0..4] == s[0..4] && st[6..8] == s[6..8] && st[8..12] == s[8..12] && st[12..20] == s[12..20];
  }

  /** Parsing resumes from the residue; after an error more bytes change nothing. */
  lemma {:induction false} ParseAppend(s: Bytes, t: Bytes, done: seq<Packet>, gone: seq<Packet> -> bool)
    ensures var a := Parse(s, done, gone);
            var ab := Parse(s + t, done, gone);
            if a.status.Pending? then ab == Then(a, Parse(a.rest + t, done + a.packets, gone))
            else ab.packets == a.packets && ab.status == a.status
    decreases |s|
  {
    var here := Parse(s + t, done, gone);
    assert done + [] == done && [] + here.packets == here.packets;
    if |s| >= HEADER {
      HeaderIsPrefix(s, t);
      var h := ReadHeader(s);
      var total := HEADER + h.len;
      if h.magic == GNET_MAGIC && h.ver == GNET_PROTO_VER && |s| >= total {
        assert (s + t)[HEADER..total] == s[HEADER..total];
        assert (s + t)[total..] == s[total..] + t;
        var p := Packet(h, s[HEADER..total]);
        if !gone(done + [p]) {
          ParseAppend(s[total..], t, done + [p], gone);
          ResumeFrom(s[total..], t, done, p, gone);
        }
      }
    }
  }

  /** One packet further back. */
  lemma ResumeFrom(s: Bytes, t: Bytes, done: seq<Packet>, p: Packet, gone: seq<Packet> -> bool)
    ensures var a := Parse(s, done + [p], gone);
            var b := Parse(a.rest + t, done + [p] + a.packets, gone);
            done + [p] + a.packets == done + ([p] + a.packets) &&
            [p] + (a.packets + b.packets) == ([p] + a.packets) + b.packets
  {
  }

  /** The residue is itself unparsable until more bytes arrive. */
  lemma {:induction false} RestIsStuck(s: Bytes, done: seq<Packet>, gone: seq<Packet> -> bool)
    requires Parse(s, done, gone).status.Pending?
    ensures Stuck(Parse(s, done, gone).rest)
    decreases |s|
  {
    if |s| >= HEADER {
      var h := ReadHeader(s);
      if |s| >= HEADER + h.len {
        var p := Packet(h, s[HEADER..HEADER + h.len]);
        RestIsStuck(s[HEADER + h.len..], done + [p], gone);
      }
    }
  }

  /** The proper beginning of a frame: too short for its header, or for what the header announces. */
  predicate Stuck(s: Bytes) {
    |s| < HEADER ||
    var h := ReadHeader(s);
    h.magic == GNET_MAGIC && h.ver == GNET_PROTO_VER && |s| < HEADER + h.len
  }

  lemma StuckParses(s: Bytes, done: seq<Packet>, gone: seq<Packet> -> bool)
    ensures Parse(s, done, gone) == Parsed([], s, Pending) <==> Stuck(s)
  {
  }

  predicate WellFormed(p: Packet) {
    && FitsHeader(p.hdr) && p.hdr.magic == GNET_MAGIC && p.hdr.ver == GNET_PROTO_VER
    && p.hdr.len == |p.payload|
  }

  function Encode(ps: seq<Packet>): Bytes {
    if ps == [] then [] else WriteHeader(ps[0].hdr) + ps[0].payload + Encode(ps[1..])
  }

  lemma ParseOne(p: Packet, more: Bytes, done: seq<Packet>, gone: seq<Packet> -> bool)
    requires WellFormed(p) && !gone(done + [p])
    ensures var r := Parse(more, done + [p], gone);
            Parse(WriteHeader(p.hdr) + (p.payload + more), done, gone) == r.(packets := [p] + r.packets)
  {
    HeaderRoundTrip(p.hdr, p.payload + more);
    FrameSlices(WriteHeader(p.hdr), p.payload, more);
  }

  lemma FrameSlices(head: Bytes, payload: Bytes, more: Bytes)
    requires |head| == HEADER
    ensures var s := head + (payload + more);
            s[HEADER..HEADER + |payload|] == payload && s[HEADER + |payload|..] == more
  {
  }

  /** Dispatching these packets, in this order, does not remove the record. */
  ghost predicate Stays(done: seq<Packet>, ps: seq<Packet>, gone: seq<Packet> -> bool)
    decreases |ps|
  {
    ps == [] || (!gone(done + [ps[0]]) && Stays(done + [ps[0]], ps[1..], gone))
  }

  ghost predicate AllWellFormed(ps: seq<Packet>) { forall i :: 0 <= i < |ps| ==> WellFormed(ps[i]) }

  /** The stream of any list of frames, with any beginning of a further frame after it, parses back. */
  lemma {:induction false} EncodeParse(ps: seq<Packet>, tail: Bytes, done: seq<Packet>, gone: seq<Packet> -> bool)
    requires AllWellFormed(ps) && Stays(done, ps, gone) && Stuck(tail)
    ensures Parse(Encode(ps) + tail, done, gone) == Parsed(ps, tail, Pending)
    decreases |ps|
  {
    if ps == [] {
      assert Encode(ps) + tail == tail;
      StuckParses(tail, done, gone);
    } else {
      EncodeParse(ps[1..], tail, done + [ps[0]], gone);
      ParseOne(ps[0], Encode(ps[1..]) + tail, done, gone);
      EncodeSplit(ps, tail);
    }
  }

  lemma EncodeSplit(ps: seq<Packet>, tail: Bytes)
    requires ps != []
    ensures Encode(ps) + tail == WriteHeader(ps[0].hdr) + (ps[0].payload + (Encode(ps[1..]) + tail))
  {
    var h, p, m := WriteHeader(ps[0].hdr), ps[0].payload, Encode(ps[1..]);
    assert h + p + m + tail == h + (p + (m + tail));
  }

  // ---- handle_data, chunk by chunk ----

  datatype Close = Overflow | Framing(status: Status)

  datatype Rx = Rx(buf: Bytes, closed: Option<Close>)

  /** A whole frame in one chunk with nothing buffered: dispatched without copying. */
  predicate FastPath(buf: Bytes, chunk: Bytes) {
    && buf == [] && |chunk| >= HEADER
    && var h := ReadHeader(chunk);
       |chunk| == HEADER + h.len && h.magic == GNET_MAGIC && h.ver == GNET_PROTO_VER
  }

  /** What one chunk does to an open connection. */
  function Feed(buf: Bytes, chunk: Bytes, done: seq<Packet>, gone: seq<Packet> -> bool): (Rx, seq<Packet>) {
    if FastPath(buf, chunk) then
      var p := Packet(ReadHeader(chunk), chunk[HEADER..]);
      (Rx([], if gone(done + [p]) then Some(Framing(Gone)) else None), [p])
    else if |buf| + |chunk| > MAX_RECV_BUF then (Rx(buf + chunk, Some(Overflow)), [])
    else
      var r := Parse(buf + chunk, done, gone);
      if r.status.Pending? then (Rx(r.rest, None), r.packets)
      else (Rx(buf + chunk, Some(Framing(r.status))), r.packets)
  }

  /** The zero-copy path and the buffered path dispatch the same frame. */
  lemma FastPathAgrees(chunk: Bytes, done: seq<Packet>, gone: seq<Packet> -> bool)
    requires FastPath([], chunk)
    ensures var p := Packet(ReadHeader(chunk), chunk[HEADER..]);
            Parse(chunk, done, gone) == Parsed([p], [], if gone(done + [p]) then Gone else Pending)
  {
    var h := ReadHeader(chunk);
    assert chunk[HEADER..HEADER + h.len] == chunk[HEADER..];
    assert chunk[HEADER + h.len..] == [];
    var p := Packet(h, chunk[HEADER..]);
    assert Parse([], done + [p], gone) == Parsed([], [], Pending);
  }

  function Concat(chunks: seq<Bytes>): Bytes {
    if chunks == [] then [] else Concat(chunks[..|chunks| - 1]) + chunks[|chunks| - 1]
  }

  /** A whole connection up to its first framing error, overflow or removal. */
  function FeedAll(chunks: seq<Bytes>, gone: seq<Packet> -> bool): (Rx, seq<Packet>) {
    if chunks == [] then (Rx([], None), [])
    else
      var (rx, out) := FeedAll(chunks[..|chunks| - 1], gone);
      if rx.closed.Some? then (rx, out)
      else
        var (rx', more) := Feed(rx.buf, chunks[|chunks| - 1], out, gone);
        (rx', out + more)
  }

  /** No chunk, added to the residue of the stream before it, exceeds 16 MB (unless zero-copy). */
  ghost predicate Fits(chunks: seq<Bytes>, gone: seq<Packet> -> bool) {
    chunks == [] ||
    (var front, last := chunks[..|chunks| - 1], chunks[|chunks| - 1];
     var r := Parse(Concat(front), [], gone);
     && Fits(front, gone)
     && (r.status.Pending? ==> |r.rest| + |last| <= MAX_RECV_BUF || FastPath(r.rest, last)))
  }

  /** The state and output a connection owes its stream. */
  ghost predicate Matches(rx: Rx, out: seq<Packet>, r: Parsed) {
    && out == r.packets
    && (if r.status.Pending? then rx == Rx(r.rest, None) else rx.closed == Some(Framing(r.status)))
  }

  lemma FeedMatches(buf: Bytes, chunk: Bytes, done: seq<Packet>, gone: seq<Packet> -> bool)
    requires |buf| + |chunk| <= MAX_RECV_BUF || FastPath(buf, chunk)
    ensures Matches(Feed(buf, chunk, done, gone).0, Feed(buf, chunk, done, gone).1, Parse(buf + chunk, done, gone))
  {
    if FastPath(buf, chunk) {
      FastPathAgrees(chunk, done, gone);
      assert buf + chunk == chunk;
    }
  }

  lemma {:induction false} FeedAllParses(chunks: seq<Bytes>, gone: seq<Packet> -> bool)
    requires Fits(chunks, gone)
    ensures Matches(FeedAll(chunks, gone).0, FeedAll(chunks, gone).1, Parse(Concat(chunks), [], gone))
    decreases |chunks|
  {
    if chunks != [] {
      var front, last := chunks[..|chunks| - 1], chunks[|chunks| - 1];
      FeedAllParses(front, gone);
      var r := Parse(Concat(front), [], gone);
      ParseAppend(Concat(front), last, [], gone);
      assert [] + r.packets == r.packets;
      if r.status.Pending? {
        FeedMatches(r.rest, last, r.packets, gone);
      }
    }
  }

  /**
   Reassembly. However the stream is cut into chunks, as long as the buffered total stays within
   16 MB, the packets dispatched are exactly the parse of the whole stream, in order and once each;
   the buffer of an open connection is the unparsed residue, the proper beginning of a frame; and a
   framing error closes the connection where the stream has it.
   */
  lemma FeedAllMatches(chunks: seq<Bytes>, gone: seq<Packet> -> bool)
    requires Fits(chunks, gone)
    ensures Matches(FeedAll(chunks, gone).0, FeedAll(chunks, gone).1, Parse(Concat(chunks), [], gone))
    ensures FeedAll(chunks, gone).0.closed.None? ==> Stuck(FeedAll(chunks, gone).0.buf)
  {
    FeedAllParses(chunks, gone);
    if FeedAll(chunks, gone).0.closed.None? {
      RestIsStuck(Concat(chunks), [], gone);
    }
  }

  /** The bound is exact: a connection is closed for overflow if and only if some chunk does not fit. */
  lemma {:induction false} OverflowIffNotFits(chunks: seq<Bytes>, gone: seq<Packet> -> bool)
    ensures FeedAll(chunks, gone).0.closed == Some(Overflow) <==> !Fits(chunks, gone)
    decreases |chunks|
  {
    if chunks != [] {
      var front, last := chunks[..|chunks| - 1], chunks[|chunks| - 1];
      OverflowIffNotFits(front, gone);
      if Fits(front, gone) {
        FeedAllParses(front, gone);
      }
    }
  }

  /** Sender to receiver: any cutting of the sender's stream that fits delivers the sender's frames. */
  lemma StreamDelivered(ps: seq<Packet>, tail: Bytes, chunks: seq<Bytes>, gone: seq<Packet> -> bool)
    requires AllWellFormed(ps) && Stays([], ps, gone) && Stuck(tail)
    requires Concat(chunks) == Encode(ps) + tail && Fits(chunks, gone)
    ensures FeedAll(chunks, gone) == (Rx(tail, None), ps)
  {
    EncodeParse(ps, tail, [], gone);
    FeedAllParses(chunks, gone);
  }

  // ---- Several transports of one connection share the buffer ----

  function Flatten(lists: seq<seq<Packet>>): seq<Packet> {
    if lists == [] then [] else Flatten(lists[..|lists| - 1]) + lists[|lists| - 1]
  }

  lemma {:induction false} EncodeAppend(a: seq<Packet>, b: seq<Packet>)
    ensures Encode(a + b) == Encode(a) + Encode(b)
    decreases |a|
  {
    if a == [] {
      assert a + b == b;
    } else {
      EncodeAppend(a[1..], b);
      assert (a + b)[1..] == a[1..] + b;
    }
  }

  lemma {:induction false} ConcatOfWhole(chunks: seq<Bytes>, lists: seq<seq<Packet>>)
    requires |chunks| == |lists| && forall i :: 0 <= i < |chunks| ==> chunks[i] == Encode(lists[i])
    ensures Concat(chunks) == Encode(Flatten(lists))
    decreases |chunks|
  {
    if chunks != [] {
      var n := |chunks| - 1;
      ConcatOfWhole(chunks[..n], lists[..n]);
      EncodeAppend(Flatten(lists[..n]), lists[n]);
    }
  }

  /** When every chunk is made of whole frames, chunks of different transports may come in any order. */
  lemma WholeFramesInterleave(chunks: seq<Bytes>, lists: seq<seq<Packet>>, gone: seq<Packet> -> bool)
    requires |chunks| == |lists| && forall i :: 0 <= i < |chunks| ==> chunks[i] == Encode(lists[i])
    requires AllWellFormed(Flatten(lists)) && Stays([], Flatten(lists), gone) && Fits(chunks, gone)
    ensures FeedAll(chunks, gone) == (Rx([], None), Flatten(lists))
  {
    ConcatOfWhole(chunks, lists);
    assert Encode(Flatten(lists)) + [] == Encode(Flatten(lists));
    StreamDelivered(Flatten(lists), [], chunks, gone);
  }

  // ---- The loop itself ----

  lemma ThenOneMore(out: seq<Packet>, p: Packet, r: Parsed)
    ensures Then(Parsed(out, [], Pending), r.(packets := [p] + r.packets)) == Then(Parsed(out + [p], [], Pending), r)
  {
    assert out + ([p] + r.packets) == (out + [p]) + r.packets;
  }

  /** One turn of the loop: the packet at the front of rest moves to the output. */
  lemma LoopStep(out: seq<Packet>, rest: Bytes, p: Packet, before: seq<Packet>, gone: seq<Packet> -> bool)
    requires |rest| >= HEADER && ReadHeader(rest) == p.hdr && |rest| >= HEADER + p.hdr.len
    requires p.hdr.magic == GNET_MAGIC && p.hdr.ver == GNET_PROTO_VER
    requires p.payload == rest[HEADER..HEADER + p.hdr.len]
    ensures var next := rest[HEADER + p.hdr.len..];
            Then(Parsed(out, [], Pending), Parse(rest, before, gone))
            == if gone(before + [p]) then Parsed(out + [p], next, Gone)
               else Then(Parsed(out + [p], [], Pending), Parse(next, before + [p], gone))
  {
    ThenOneMore(out, p, Parse(rest[HEADER + p.hdr.len..], before + [p], gone));
  }

  /** No further turn: what is left stays. */
  lemma LoopStop(out: seq<Packet>, rest: Bytes, status: Status, done: seq<Packet>, gone: seq<Packet> -> bool)
    requires Parse(rest, done, gone) == Parsed([], rest, status)
    ensures Then(Parsed(out, [], Pending), Parse(rest, done, gone)) == Parsed(out, rest, status)
  {
    assert out + [] == out;
  }

  /** One turn: the packet dispatched, if any, what is left, and the reason to stop, if any. */
  method Turn(rest: Bytes, before: seq<Packet>, gone: seq<Packet> -> bool, ghost out: seq<Packet>)
    returns (p: Option<Packet>, next: Bytes, stop: Option<Status>)
    requires |rest| >= HEADER
    ensures p.None? ==>
              stop.Some? && Then(Parsed(out, [], Pending), Parse(rest, before, gone)) == Parsed(out, rest, stop.value)
    ensures p.Some? ==>
              |next| < |rest| && next == rest[|rest| - |next|..] &&
              Then(Parsed(out, [], Pending), Parse(rest, before, gone))
              == if stop.Some? then Parsed(out + [p.value], next, stop.value)
                 else Then(Parsed(out + [p.value], [], Pending), Parse(next, before + [p.value], gone))
  {
    var h := ReadHeader(rest);
    if h.magic != GNET_MAGIC {
      LoopStop(out, rest, BadMagic, before, gone);
      return None, rest, Some(BadMagic);
    }
    if h.ver != GNET_PROTO_VER {
      LoopStop(out, rest, BadVersion, before, gone);
      return None, rest, Some(BadVersion);
    }
    var total := HEADER + h.len;
    if |rest| < total {
      LoopStop(out, rest, Pending, before, gone);
      return None, rest, Some(Pending);
    }
    var packet := Packet(h, rest[HEADER..total]);
    LoopStep(out, rest, packet, before, gone);
    return Some(packet), rest[total..], if gone(before + [packet]) then Some(Gone) else None;
  }

  /** The reassembly loop over a buffer: packets dispatched, bytes consumed, and why it stopped. */
  method Reassemble(buf: Bytes, done: seq<Packet>, gone: seq<Packet> -> bool)
    returns (out: seq<Packet>, consumed: nat, status: Status)
    ensures consumed <= |buf|
    ensures Parse(buf, done, gone) == Parsed(out, buf[consumed..], status)
  {
    out, consumed := [], 0;
    var rest, dispatched := buf, done;
    ghost var whole := Parse(buf, done, gone);
    assert [] + whole.packets == whole.packets;
    while |rest| >= HEADER
      invariant 0 <= consumed <= |buf| && rest == buf[consumed..]
      invariant whole == Then(Parsed(out, [], Pending), Parse(rest, dispatched, gone))
    {
      var p, next, stop := Turn(rest, dispatched, gone, out);
      if p.None? {
        return out, consumed, stop.value;
      }
      consumed := consumed + (|rest| - |next|);
      rest := next;
      out := out + [p.value];
      dispatched := dispatched + [p.value];
      if stop.Some? {
        return out, consumed, stop.value;
      }
    }
    LoopStop(out, rest, Pending, dispatched, gone);
    status := Pending;
  }

  class Receiver {
    var recvBuf: Bytes
    var closed: Option<Close>
    ghost var dispatched: seq<Packet>

    /** The fields are those the chunks received so far have led to. */
    ghost predicate Is(chunks: seq<Bytes>, gone: seq<Packet> -> bool)
      reads this
    {
      (Rx(recvBuf, closed), dispatched) == FeedAll(chunks, gone)
    }

    constructor ()
      ensures recvBuf == [] && closed == None && dispatched == []
    {
      recvBuf := [];
      closed := None;
      dispatched := [];
    }

    /** done is what was dispatched before, which only decides whether the record is still there. */
    method HandleData(raw: Bytes, done: seq<Packet>, gone: seq<Packet> -> bool) returns (out: seq<Packet>)
      requires closed.None? && done == dispatched
      modifies this
      ensures (Rx(recvBuf, closed), out) == Feed(old(recvBuf), raw, done, gone) && dispatched == done + out
    {
      out := Take(raw, done, gone);
      dispatched := dispatched + out;
    }

    method Take(raw: Bytes, done: seq<Packet>, gone: seq<Packet> -> bool) returns (out: seq<Packet>)
      requires closed.None?
      modifies this`recvBuf, this`closed
      ensures (Rx(recvBuf, closed), out) == Feed(old(recvBuf), raw, done, gone)
    {
      if recvBuf == [] && |raw| >= HEADER {
        var h := ReadHeader(raw);
        if |raw| == HEADER + h.len && h.magic == GNET_MAGIC && h.ver == GNET_PROTO_VER {
          var p := Packet(h, raw[HEADER..]);
          if gone(done + [p]) {
            closed := Some(Framing(Gone));
          }
          return [p];
        }
      }
      recvBuf := recvBuf + raw;
      if |recvBuf| > MAX_RECV_BUF {
        closed := Some(Overflow);
        return [];
      }
      var consumed, status;
      out, consumed, status := Reassemble(recvBuf, done, gone);
      if status.Pending? {
        recvBuf := recvBuf[consumed..];
      } else {
        closed := Some(Framing(status));
      }
    }

    /** A whole connection, chunk by chunk. */
    method HandleAll(chunks: seq<Bytes>, gone: seq<Packet> -> bool) returns (out: seq<Packet>)
      requires recvBuf == [] && closed == None && dispatched == []
      modifies this
      ensures Is(chunks, gone) && out == dispatched
    {
      out := [];
      for i := 0 to |chunks|
        invariant Is(chunks[..i], gone) && out == dispatched
      {
        assert chunks[..i + 1][..i] == chunks[..i];
        if closed.None? {
          var more := HandleData(chunks[i], out, gone);
          out := out + more;
        }
      }
      assert chunks[..|chunks|] == chunks;
    }
  }
}
