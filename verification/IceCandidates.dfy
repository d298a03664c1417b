/** ICE candidates: priorities, pairs, and the binary form in which a peer sends its own. */
module IceCandidates {
  import opened Bytes
  import opened Bits
  import opened Stun

  const TWO31: nat := 0x8000_0000
  const TWO32: nat := 0x1_0000_0000
  const TWO64: nat := 0x1_0000_0000_0000_0000

  datatype CandidateType = Host | Srflx

  /** kind is the byte sent: 0 for Host, 1 for Srflx; any other byte is kept as it came. */
  datatype Candidate = Candidate(kind: Byte, endpoint: Mapped, priority: nat)

  ghost predicate Good(c: Candidate) { c.endpoint.port < MAX16 && c.priority < TWO32 }

  // ---- Candidate priorities (section 5.1.2.1 of RFC 8445) ----

  /** compute_priority: three fields of one 32-bit word, shifted to their places and joined by or. */
  function ComputePriority(t: CandidateType, localPref: nat): nat {
    var kind := if t == Host then 126 else 100;
    OrNum(OrNum(kind * Pow2(24), localPref * Pow2(8), 32), 255, 32)
  }

  /** The fields do not overlap, so the value is the sum the standard asks for, with component id 1. */
  lemma PriorityIsSum(t: CandidateType, localPref: nat)
    requires localPref < MAX16
    ensures ComputePriority(t, localPref) == (if t == Host then 126 else 100) * 0x100_0000 + localPref * 0x100 + (256 - 1)
  {
    Pow2Values();
    assert Pow2(24) == 0x100_0000;
    var kind := if t == Host then 126 else 100;
    OrIsSum(kind, localPref * 0x100, 24, 32);
    var upper := kind * 0x1_0000 + localPref;
    assert kind * 0x100_0000 + localPref * 0x100 == upper * 0x100;
    OrIsSum(upper, 255, 8, 32);
  }

  /** Every computed priority is below 2^31, and any host candidate is above any reflexive one. */
  lemma PriorityRange(t: CandidateType, a: nat, b: nat)
    requires a < MAX16 && b < MAX16
    ensures 0 < ComputePriority(t, a) < TWO31
    ensures ComputePriority(Srflx, a) < ComputePriority(Host, b)
    ensures ComputePriority(t, a) < ComputePriority(t, b) <==> a < b
  {
    PriorityIsSum(t, a);
    PriorityIsSum(t, b);
    PriorityIsSum(Srflx, a);
    PriorityIsSum(Host, b);
  }

  // ---- Pair priorities (section 6.1.2.3 of RFC 8445) ----

  function Min(a: nat, b: nat): nat { if a < b then a else b }

  function Max(a: nat, b: nat): nat { if a < b then b else a }

  /** The formula over unbounded numbers; g belongs to the controlling agent. */
  function Formula(g: nat, d: nat): nat { Min(g, d) * TWO32 + 2 * Max(g, d) + if g > d then 1 else 0 }

  /** pair_priority: the 64-bit sum, from our priority and theirs. */
  function PairPriority(ours: nat, theirs: nat, controlling: bool): nat {
    (if controlling then Formula(ours, theirs) else Formula(theirs, ours)) % TWO64
  }

  /** Up to 2^31 nothing wraps and the value tells both priorities. */
  lemma FormulaInjective(g: nat, d: nat, g': nat, d': nat)
    requires g <= TWO31 && d <= TWO31 && g' <= TWO31 && d' <= TWO31
    ensures Formula(g, d) < TWO64
    ensures Formula(g, d) == Formula(g', d') ==> g == g' && d == d'
  {
    if Formula(g, d) == Formula(g', d') {
      assert Min(g, d) == Min(g', d');
    }
  }

  /** Pairs are ordered by their lower priority, then by their higher one, then in favour of the controlling side. */
  lemma FormulaOrder(g: nat, d: nat, g': nat, d': nat)
    requires g <= TWO31 && d <= TWO31 && g' <= TWO31 && d' <= TWO31
    ensures Formula(g, d) < Formula(g', d') <==>
            (Min(g, d) < Min(g', d') ||
             (Min(g, d) == Min(g', d') && (Max(g, d) < Max(g', d') || (Max(g, d) == Max(g', d') && g <= d && g' > d'))))
  {
  }

  lemma NoWrap(ours: nat, theirs: nat, controlling: bool)
    requires ours <= TWO31 && theirs <= TWO31
    ensures PairPriority(ours, theirs, controlling)
            == if controlling then Formula(ours, theirs) else Formula(theirs, ours)
  {
    FormulaInjective(ours, theirs, ours, theirs);
    FormulaInjective(theirs, ours, theirs, ours);
  }

  /** Over candidate priorities below bound the pair priority tells both of them. */
  ghost predicate TellsApart(bound: nat, controlling: bool) {
    forall a: nat, b: nat, c: nat, d: nat ::
      (a < bound && b < bound && c < bound && d < bound &&
       PairPriority(a, b, controlling) == PairPriority(c, d, controlling)) ==> (a == c && b == d)
  }

  /** The exact bound: from 2^31 + 1 up, (0, 2^31 + 1) and (1, 1) collide. */
  lemma TellsApartIff(bound: nat, controlling: bool)
    ensures TellsApart(bound, controlling) <==> bound <= TWO31 + 1
  {
    if bound <= TWO31 + 1 {
      forall a: nat, b: nat, c: nat, d: nat | a < bound && b < bound && c < bound && d < bound &&
                          PairPriority(a, b, controlling) == PairPriority(c, d, controlling)
        ensures a == c && b == d
      {
        NoWrap(a, b, controlling);
        NoWrap(c, d, controlling);
        FormulaInjective(a, b, c, d);
        FormulaInjective(b, a, d, c);
      }
    } else {
      var top := TWO31 + 1;
      assert Formula(0, top) == Formula(1, 1);
      assert PairPriority(0, top, true) == PairPriority(1, 1, true);
      assert PairPriority(top, 0, false) == PairPriority(1, 1, false);
    }
  }

  /** The 64-bit sum is the formula's value exactly when the smaller priority is not all ones. */
  lemma WrapIff(g: nat, d: nat)
    requires g < TWO32 && d < TWO32
    ensures PairPriority(g, d, true) == Formula(g, d) <==> Min(g, d) < TWO32 - 1
  {
    if Min(g, d) == TWO32 - 1 {
      assert g == TWO32 - 1 && d == TWO32 - 1;
    }
  }

  // ---- The check list ----

  datatype Pair = Pair(ours: Candidate, theirs: Candidate, priority: nat)

  /** The pair, or nothing when the address families differ. */
  function PairOf(l: Candidate, r: Candidate, controlling: bool): seq<Pair> {
    if l.endpoint.ip.V4? != r.endpoint.ip.V4? then []
    else [Pair(l, r, PairPriority(l.priority, r.priority, controlling))]
  }

  function Row(l: Candidate, rs: seq<Candidate>, controlling: bool): seq<Pair> {
    if rs == [] then [] else Row(l, rs[..|rs| - 1], controlling) + PairOf(l, rs[|rs| - 1], controlling)
  }

  function AllPairs(ls: seq<Candidate>, rs: seq<Candidate>, controlling: bool): seq<Pair> {
    if ls == [] then [] else AllPairs(ls[..|ls| - 1], rs, controlling) + Row(ls[|ls| - 1], rs, controlling)
  }

  predicate Descending(s: seq<Pair>) { forall i, j :: 0 <= i < j < |s| ==> s[i].priority >= s[j].priority }

  ghost predicate IsCheckList(s: seq<Pair>, ls: seq<Candidate>, rs: seq<Candidate>, controlling: bool) {
    Descending(s) && multiset(s) == multiset(AllPairs(ls, rs, controlling))
  }

  /** Where a pair goes: before the first of lower priority. */
  method Insert(s: seq<Pair>, p: Pair) returns (r: seq<Pair>)
    requires Descending(s)
    ensures Descending(r) && multiset(r) == multiset(s) + multiset{p}
  {
    var i := 0;
    while i < |s| && s[i].priority >= p.priority
      invariant i <= |s| && forall j :: 0 <= j < i ==> s[j].priority >= p.priority
    {
      i := i + 1;
    }
    r := s[..i] + [p] + s[i..];
    assert s == s[..i] + s[i..];
  }

  method SortDescending(s: seq<Pair>) returns (r: seq<Pair>)
    ensures Descending(r) && multiset(r) == multiset(s)
  {
    r := [];
    for i := 0 to |s|
      invariant Descending(r) && multiset(r) == multiset(s[..i])
    {
      r := Insert(r, s[i]);
      assert s[..i + 1] == s[..i] + [s[i]];
    }
    assert s[..|s|] == s;
  }

  /** The inner loop of form_check_list. */
  method CollectRow(l: Candidate, rs: seq<Candidate>, controlling: bool) returns (row: seq<Pair>)
    ensures row == Row(l, rs, controlling)
  {
    row := [];
    for j := 0 to |rs|
      invariant row == Row(l, rs[..j], controlling)
    {
      assert rs[..j + 1][..j] == rs[..j];
      if l.endpoint.ip.V4? == rs[j].endpoint.ip.V4? {
        row := row + [Pair(l, rs[j], PairPriority(l.priority, rs[j].priority, controlling))];
      }
    }
    assert rs[..|rs|] == rs;
  }

  /** The two loops of form_check_list: every local candidate with every remote one of its family. */
  method CollectPairs(ls: seq<Candidate>, rs: seq<Candidate>, controlling: bool) returns (all: seq<Pair>)
    ensures all == AllPairs(ls, rs, controlling)
  {
    all := [];
    for i := 0 to |ls|
      invariant all == AllPairs(ls[..i], rs, controlling)
    {
      var row := CollectRow(ls[i], rs, controlling);
      assert ls[..i + 1][..i] == ls[..i];
      all := all + row;
    }
    assert ls[..|ls|] == ls;
  }

  /** form_check_list with a sort of its own: best pair first. */
  method FormCheckList(ls: seq<Candidate>, rs: seq<Candidate>, controlling: bool) returns (list: seq<Pair>)
    ensures IsCheckList(list, ls, rs, controlling)
  {
    var all := CollectPairs(ls, rs, controlling);
    list := SortDescending(all);
  }

  // ---- The two agents' lists mirror each other ----

  function Flip(p: Pair): Pair { Pair(p.theirs, p.ours, p.priority) }

  function Map<T>(f: Pair -> T, s: seq<Pair>): (r: seq<T>)
    ensures |r| == |s| && forall i :: 0 <= i < |s| ==> r[i] == f(s[i])
  {
    if s == [] then [] else Map(f, s[..|s| - 1]) + [f(s[|s| - 1])]
  }

  lemma MapAppend<T>(f: Pair -> T, s: seq<Pair>, t: seq<Pair>)
    ensures Map(f, s + t) == Map(f, s) + Map(f, t)
  {
  }

  /** The pairs of one remote candidate with every local one. */
  function Column(ls: seq<Candidate>, r: Candidate, controlling: bool): seq<Pair> {
    if ls == [] then [] else Column(ls[..|ls| - 1], r, controlling) + PairOf(ls[|ls| - 1], r, controlling)
  }

  /** One agent's row is the other's column, turned around. */
  lemma {:induction false} RowIsColumn(l: Candidate, rs: seq<Candidate>, controlling: bool)
    ensures Map(Flip, Row(l, rs, controlling)) == Column(rs, l, !controlling)
    decreases |rs|
  {
    if rs != [] {
      var front, r := rs[..|rs| - 1], rs[|rs| - 1];
      RowIsColumn(l, front, controlling);
      MapAppend(Flip, Row(l, front, controlling), PairOf(l, r, controlling));
      assert Map(Flip, PairOf(l, r, controlling)) == PairOf(r, l, !controlling);
    }
  }

  /** Taking the last remote candidate out takes its column out. */
  lemma {:induction false} LastColumn(ls: seq<Candidate>, rs: seq<Candidate>, r: Candidate, controlling: bool)
    ensures multiset(AllPairs(ls, rs + [r], controlling))
            == multiset(AllPairs(ls, rs, controlling)) + multiset(Column(ls, r, controlling))
    decreases |ls|
  {
    if ls != [] {
      var l := ls[|ls| - 1];
      LastColumn(ls[..|ls| - 1], rs, r, controlling);
      assert (rs + [r])[..|rs|] == rs;
      assert Row(l, rs + [r], controlling) == Row(l, rs, controlling) + PairOf(l, r, controlling);
    }
  }

  lemma {:induction false} NoColumns(ls: seq<Candidate>, controlling: bool)
    ensures AllPairs(ls, [], controlling) == []
    decreases |ls|
  {
    if ls != [] {
      NoColumns(ls[..|ls| - 1], controlling);
    }
  }

  /** All pairs of one agent, turned around, are all pairs of the other, each as many times. */
  lemma {:induction false} Mirror(ls: seq<Candidate>, rs: seq<Candidate>, controlling: bool)
    ensures multiset(Map(Flip, AllPairs(ls, rs, controlling))) == multiset(AllPairs(rs, ls, !controlling))
    decreases |ls|
  {
    if ls == [] {
      NoColumns(rs, !controlling);
    } else {
      var front, l := ls[..|ls| - 1], ls[|ls| - 1];
      Mirror(front, rs, controlling);
      MapAppend(Flip, AllPairs(front, rs, controlling), Row(l, rs, controlling));
      RowIsColumn(l, rs, controlling);
      LastColumn(rs, front, l, !controlling);
      assert front + [l] == ls;
    }
  }

  lemma TakeOut(t: seq<Pair>, x: Pair) returns (u: seq<Pair>, v: seq<Pair>)
    requires x in t
    ensures t == u + [x] + v && multiset(u + v) == multiset(t) - multiset{x} && |u + v| == |t| - 1
  {
    var k :| 0 <= k < |t| && t[k] == x;
    u, v := t[..k], t[k + 1..];
    assert multiset(u + [x] + v) == multiset(u + v) + multiset{x};
  }

  lemma MapInsert<T>(f: Pair -> T, u: seq<Pair>, x: Pair, v: seq<Pair>)
    ensures multiset(Map(f, u + [x] + v)) == multiset(Map(f, u + v)) + multiset{f(x)}
  {
    MapAppend(f, u, v);
    MapAppend(f, u + [x], v);
    MapAppend(f, u, [x]);
    assert Map(f, [x]) == [f(x)];
  }

  /** What a map of a list holds depends on what the list holds, not on its order. */
  lemma {:induction false} MapMultiset<T>(f: Pair -> T, s: seq<Pair>, t: seq<Pair>)
    requires multiset(s) == multiset(t)
    ensures multiset(Map(f, s)) == multiset(Map(f, t))
    decreases |s|
  {
    if s == [] {
      assert |multiset(t)| == 0;
      assert t == [];
    } else {
      var x, s' := s[0], s[1..];
      assert s == [] + [x] + s' && s' == [] + s';
      assert x in multiset(t);
      var u, v := TakeOut(t, x);
      assert multiset(s') == multiset(s) - multiset{x};
      MapMultiset(f, s', u + v);
      MapInsert(f, u, x, v);
      MapInsert(f, [], x, s');
    }
  }

  predicate Falling(s: seq<nat>) { forall i, j :: 0 <= i < j < |s| ==> s[i] >= s[j] }

  lemma SameHead(s: seq<nat>, t: seq<nat>)
    requires s != [] && Falling(s) && Falling(t) && multiset(s) == multiset(t)
    ensures t != [] && s[0] == t[0]
  {
    assert s[0] in multiset(t);
    assert t[0] in multiset(s);
  }

  /** A descending list of numbers is fixed by what it holds. */
  lemma {:induction false} FallingUnique(s: seq<nat>, t: seq<nat>)
    requires Falling(s) && Falling(t) && multiset(s) == multiset(t)
    ensures s == t
    decreases |s|
  {
    if s == [] {
      assert |multiset(t)| == 0;
    } else {
      SameHead(s, t);
      assert s == [s[0]] + s[1..] && t == [t[0]] + t[1..];
      assert multiset(s[1..]) == multiset(s) - multiset{s[0]};
      assert multiset(t[1..]) == multiset(t) - multiset{t[0]};
      FallingUnique(s[1..], t[1..]);
    }
  }

  lemma FlippedList(a: seq<Pair>, b: seq<Pair>, ls: seq<Candidate>, rs: seq<Candidate>)
    requires IsCheckList(a, ls, rs, true) && IsCheckList(b, rs, ls, false)
    ensures multiset(Map(Flip, a)) == multiset(b)
  {
    Mirror(ls, rs, true);
    MapMultiset(Flip, a, AllPairs(ls, rs, true));
  }

  /** The controlling agent holds (l, r) exactly when the controlled one holds (r, l), at one priority. */
  lemma HeldMirrored(a: seq<Pair>, b: seq<Pair>, ls: seq<Candidate>, rs: seq<Candidate>, p: Pair)
    requires IsCheckList(a, ls, rs, true) && IsCheckList(b, rs, ls, false)
    ensures p in a <==> Flip(p) in b
  {
    FlippedList(a, b, ls, rs);
    if p in a {
      var i :| 0 <= i < |a| && a[i] == p;
      assert Map(Flip, a)[i] == Flip(p);
      assert Flip(p) in multiset(b);
    }
    if Flip(p) in b {
      assert Flip(p) in multiset(Map(Flip, a));
      var i :| 0 <= i < |a| && Map(Flip, a)[i] == Flip(p);
      assert Flip(Flip(p)) == p && Flip(Flip(a[i])) == a[i];
    }
  }

  function PriorityOf(p: Pair): nat { p.priority }

  ghost predicate UpTo31(cs: seq<Candidate>) { forall i :: 0 <= i < |cs| ==> cs[i].priority <= TWO31 }

  lemma {:induction false} RowHolds(l: Candidate, rs: seq<Candidate>, c: bool, p: Pair)
    requires p in Row(l, rs, c)
    ensures p.ours == l && p.theirs in rs && p.priority == PairPriority(l.priority, p.theirs.priority, c)
    decreases |rs|
  {
    if p in Row(l, rs[..|rs| - 1], c) {
      RowHolds(l, rs[..|rs| - 1], c, p);
    }
  }

  lemma {:induction false} PairsHold(ls: seq<Candidate>, rs: seq<Candidate>, c: bool, p: Pair)
    requires p in AllPairs(ls, rs, c)
    ensures p.ours in ls && p.theirs in rs && p.priority == PairPriority(p.ours.priority, p.theirs.priority, c)
    decreases |ls|
  {
    if p in AllPairs(ls[..|ls| - 1], rs, c) {
      PairsHold(ls[..|ls| - 1], rs, c, p);
    } else {
      RowHolds(ls[|ls| - 1], rs, c, p);
    }
  }

  lemma FlipKeepsPriority(a: seq<Pair>)
    ensures Map(PriorityOf, Map(Flip, a)) == Map(PriorityOf, a)
  {
  }

  lemma DescendingFalls(a: seq<Pair>)
    requires Descending(a)
    ensures Falling(Map(PriorityOf, a))
  {
  }

  lemma SamePriorities(a: seq<Pair>, b: seq<Pair>, ls: seq<Candidate>, rs: seq<Candidate>)
    requires IsCheckList(a, ls, rs, true) && IsCheckList(b, rs, ls, false)
    ensures Map(PriorityOf, a) == Map(PriorityOf, b)
  {
    var flipped := Map(Flip, a);
    FlippedList(a, b, ls, rs);
    MapMultiset(PriorityOf, flipped, b);
    FlipKeepsPriority(a);
    DescendingFalls(a);
    DescendingFalls(b);
    FallingUnique(Map(PriorityOf, a), Map(PriorityOf, b));
  }

  lemma Listed(a: seq<Pair>, ls: seq<Candidate>, rs: seq<Candidate>, c: bool, i: nat)
    requires IsCheckList(a, ls, rs, c) && i < |a|
    ensures a[i].ours in ls && a[i].theirs in rs
    ensures a[i].priority == PairPriority(a[i].ours.priority, a[i].theirs.priority, c)
  {
    assert a[i] in multiset(a);
    PairsHold(ls, rs, c, a[i]);
  }

  /** Two places with one priority have the same two candidate priorities. */
  lemma SamePlace(p: Pair, q: Pair)
    requires p.priority == q.priority
    requires p.priority == PairPriority(p.ours.priority, p.theirs.priority, true)
    requires q.priority == PairPriority(q.ours.priority, q.theirs.priority, false)
    requires p.ours.priority <= TWO31 && p.theirs.priority <= TWO31
    requires q.ours.priority <= TWO31 && q.theirs.priority <= TWO31
    ensures p.ours.priority == q.theirs.priority && p.theirs.priority == q.ours.priority
  {
    var g, d, g', d' := p.ours.priority, p.theirs.priority, q.theirs.priority, q.ours.priority;
    NoWrap(g, d, true);
    NoWrap(d', g', false);
    FormulaInjective(g, d, g', d');
  }

  /**
   Both agents check in the same order: at each place the two lists have one priority and the same
   two candidate priorities, however each agent's sort broke its ties.
   */
  lemma SameOrder(a: seq<Pair>, b: seq<Pair>, ls: seq<Candidate>, rs: seq<Candidate>)
    requires IsCheckList(a, ls, rs, true) && IsCheckList(b, rs, ls, false) && UpTo31(ls) && UpTo31(rs)
    ensures |a| == |b|
    ensures forall i :: 0 <= i < |a| ==>
                          a[i].priority == b[i].priority && a[i].ours.priority == b[i].theirs.priority &&
                          a[i].theirs.priority == b[i].ours.priority
  {
    SamePriorities(a, b, ls, rs);
    var ps := Map(PriorityOf, a);
    assert ps == Map(PriorityOf, b) && |ps| == |a| && |ps| == |b|;
    forall i | 0 <= i < |a|
      ensures a[i].priority == b[i].priority && a[i].ours.priority == b[i].theirs.priority &&
              a[i].theirs.priority == b[i].ours.priority
    {
      assert ps[i] == a[i].priority && ps[i] == b[i].priority;
      Listed(a, ls, rs, true, i);
      Listed(b, rs, ls, false, i);
      SamePlace(a[i], b[i]);
    }
  }
}
