/** Which parse a byte stream has: the reassembly loop against a description that does not run it. */
module Framing {
  import opened Bytes
  import opened Reassembly

  /** A header read from bytes writes those bytes. */
  lemma HeaderWrittenBack(s: Bytes)
    requires |s| >= HEADER
    ensures FitsHeader(ReadHeader(s)) && WriteHeader(ReadHeader(s)) == s[..HEADER]
  {
    var a, c, d, e := s[0..4], s[6..8], s[8..12], s[12..20];
    FromLittleEndianRoundTrip(a);
    FromLittleEndianRoundTrip(c);
    FromLittleEndianRoundTrip(d);
    FromLittleEndianRoundTrip(e);
    assert s[..HEADER] == a + [s[4], s[5]] + c + d + e;
  }

  /** The reason to stop, as the bytes left and the packets dispatched show it. */
  ghost predicate StopsFor(status: Status, done: seq<Packet>, ps: seq<Packet>, rest: Bytes, gone: seq<Packet> -> bool) {
    match status
    case Pending => Stays(done, ps, gone) && Stuck(rest)
    case BadMagic => Stays(done, ps, gone) && |rest| >= HEADER && ReadHeader(rest).magic != GNET_MAGIC
    case BadVersion =>
      Stays(done, ps, gone) && |rest| >= HEADER && ReadHeader(rest).magic == GNET_MAGIC && ReadHeader(rest).ver != GNET_PROTO_VER
    case Gone => ps != [] && Stays(done, ps[..|ps| - 1], gone) && gone(done + ps)
  }

  /** The stream is these well-formed frames and a rest that gives the reason to stop. */
  ghost predicate Reads(s: Bytes, done: seq<Packet>, gone: seq<Packet> -> bool, r: Parsed) {
    AllWellFormed(r.packets) && s == Encode(r.packets) + r.rest && StopsFor(r.status, done, r.packets, r.rest, gone)
  }

  /** One packet more in front of a parse that goes on. */
  lemma StopsEarlier(status: Status, done: seq<Packet>, p: Packet, ps: seq<Packet>, rest: Bytes, gone: seq<Packet> -> bool)
    requires !gone(done + [p])
    ensures StopsFor(status, done, [p] + ps, rest, gone) <==> StopsFor(status, done + [p], ps, rest, gone)
  {
    var all := [p] + ps;
    assert all[1..] == ps && done + all == done + [p] + ps;
    if ps == [] {
      assert all == [p] && all[..0] == [];
    } else {
      assert all[..|all| - 1] == [p] + ps[..|ps| - 1];
      assert ([p] + ps[..|ps| - 1])[1..] == ps[..|ps| - 1];
    }
  }

  lemma ReadsFrame(p: Packet, done: seq<Packet>, gone: seq<Packet> -> bool, more: Bytes, r: Parsed)
    requires WellFormed(p) && !gone(done + [p])
    ensures Reads(WriteHeader(p.hdr) + (p.payload + more), done, gone, r.(packets := [p] + r.packets))
            <==> Reads(more, done + [p], gone, r)
  {
    StopsEarlier(r.status, done, p, r.packets, r.rest, gone);
    var all := [p] + r.packets;
    assert all[1..] == r.packets;
    EncodeSplit(all, r.rest);
    var whole := WriteHeader(p.hdr) + (p.payload + more);
    FrameSlices(WriteHeader(p.hdr), p.payload, more);
    FrameSlices(WriteHeader(p.hdr), p.payload, Encode(r.packets) + r.rest);
    assert AllWellFormed(all) <==> AllWellFormed(r.packets) by {
      assert forall i :: 0 <= i < |r.packets| ==> all[i + 1] == r.packets[i];
      assert forall i :: 0 < i < |all| ==> all[i] == r.packets[i - 1];
    }
  }

  /** The first frame of a stream and what is behind it. */
  lemma FirstFrame(s: Bytes) returns (p: Packet, more: Bytes)
    requires |s| >= HEADER && ReadHeader(s).magic == GNET_MAGIC && ReadHeader(s).ver == GNET_PROTO_VER
    requires |s| >= HEADER + ReadHeader(s).len
    ensures var h := ReadHeader(s); p == Packet(h, s[HEADER..HEADER + h.len]) && more == s[HEADER + h.len..]
    ensures WellFormed(p) && s == WriteHeader(p.hdr) + (p.payload + more)
  {
    var h := ReadHeader(s);
    HeaderWrittenBack(s);
    p, more := Packet(h, s[HEADER..HEADER + h.len]), s[HEADER + h.len..];
    Rejoined(s, h.len);
  }

  lemma Rejoined(s: Bytes, n: nat)
    requires |s| >= HEADER + n
    ensures s == s[..HEADER] + (s[HEADER..HEADER + n] + s[HEADER + n..])
  {
  }

  lemma GoneReads(p: Packet, more: Bytes, done: seq<Packet>, gone: seq<Packet> -> bool)
    requires WellFormed(p) && gone(done + [p])
    ensures Reads(WriteHeader(p.hdr) + (p.payload + more), done, gone, Parsed([p], more, Gone))
  {
    EncodeSplit([p], more);
    assert [p][1..] == [] && [p][..0] == [] && [] + more == more;
  }

  lemma {:induction false} ParseReads(s: Bytes, done: seq<Packet>, gone: seq<Packet> -> bool)
    ensures Reads(s, done, gone, Parse(s, done, gone))
    decreases |s|
  {
    assert Encode([]) + s == s;
    if |s| >= HEADER {
      var h := ReadHeader(s);
      if h.magic == GNET_MAGIC && h.ver == GNET_PROTO_VER && |s| >= HEADER + h.len {
        var p, more := FirstFrame(s);
        if gone(done + [p]) {
          GoneReads(p, more, done, gone);
        } else {
          ParseReads(more, done + [p], gone);
          ReadsFrame(p, done, gone, more, Parse(more, done + [p], gone));
        }
      }
    }
  }

  lemma {:induction false} ReadsUnique(s: Bytes, done: seq<Packet>, gone: seq<Packet> -> bool, r: Parsed)
    requires Reads(s, done, gone, r)
    ensures r == Parse(s, done, gone)
    decreases |r.packets|
  {
    if r.packets == [] {
      assert s == r.rest;
    } else {
      var p, ps := r.packets[0], r.packets[1..];
      assert r.packets == [p] + ps;
      var more := Encode(ps) + r.rest;
      EncodeSplit(r.packets, r.rest);
      if gone(done + [p]) {
        GoneAtFirst(p, more, done, gone, r);
      } else {
        ReadsFrame(p, done, gone, more, r.(packets := ps));
        ReadsUnique(more, done + [p], gone, r.(packets := ps));
        ParseOne(p, more, done, gone);
      }
    }
  }

  lemma GoneAtFirst(p: Packet, more: Bytes, done: seq<Packet>, gone: seq<Packet> -> bool, r: Parsed)
    requires WellFormed(p) && gone(done + [p]) && r.packets != [] && r.packets[0] == p
    requires Reads(WriteHeader(p.hdr) + (p.payload + more), done, gone, r) && more == Encode(r.packets[1..]) + r.rest
    ensures r == Parse(WriteHeader(p.hdr) + (p.payload + more), done, gone)
  {
    assert r.status.Gone?;
    assert r.packets == [p] && Encode(r.packets[1..]) == [];
    assert more == r.rest;
    HeaderRoundTrip(p.hdr, p.payload + more);
    FrameSlices(WriteHeader(p.hdr), p.payload, more);
  }

  /**
   The parse of a stream is the one way to write it as well-formed frames followed by a rest that is
   the beginning of a frame, starts with a wrong magic number or version, or is behind the removal.
   */
  lemma ParseIff(s: Bytes, done: seq<Packet>, gone: seq<Packet> -> bool, r: Parsed)
    ensures Parse(s, done, gone) == r <==> Reads(s, done, gone, r)
  {
    ParseReads(s, done, gone);
    if Reads(s, done, gone, r) {
      ReadsUnique(s, done, gone, r);
    }
  }
}
