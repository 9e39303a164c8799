// The two routing structures, a sorted range list and a slot table: how an update builds them, and
// what looking a slot up in either gives.

module Routing {
  import opened Bytes
  import opened KeySlot
  import opened Permutations

  type Node = nat

  datatype Range = Range(start: nat, end: nat, node: Node)

  // A node of the parsed topology, with the slot ranges listed for it.
  datatype Master = Master(node: Node, isMaster: bool, slots: seq<Range>)

  predicate ValidRange(r: Range) { r.start <= r.end < SLOTS }

  predicate InRange(r: Range, slot: nat) { r.start <= slot <= r.end }

  predicate Overlap(a: Range, b: Range) { a.start <= b.end && b.start <= a.end }

  ghost predicate PairwiseDisjoint(rs: seq<Range>) {
    forall i, j :: 0 <= i < j < |rs| ==> !Overlap(rs[i], rs[j])
  }

  predicate SortedByStart(rs: seq<Range>) {
    forall i, j :: 0 <= i < j < |rs| ==> rs[i].start <= rs[j].start
  }

  /** Sorted and disjoint: every range ends before the next begins. */
  predicate Ordered(rs: seq<Range>) {
    && (forall i :: 0 <= i < |rs| ==> ValidRange(rs[i]))
    && (forall i, j :: 0 <= i < j < |rs| ==> rs[i].end < rs[j].start)
  }

  function Lookup(rs: seq<Range>, slot: nat): Option<Node> {
    if rs == [] then None
    else if InRange(rs[|rs| - 1], slot) then Some(rs[|rs| - 1].node)
    else Lookup(rs[..|rs| - 1], slot)
  }

  lemma {:induction false} LookupIs(rs: seq<Range>, slot: nat)
    ensures Lookup(rs, slot).None? <==> forall i :: 0 <= i < |rs| ==> !InRange(rs[i], slot)
    ensures Lookup(rs, slot).Some? ==>
              exists i :: 0 <= i < |rs| && InRange(rs[i], slot) && rs[i].node == Lookup(rs, slot).value
  {
    if rs != [] {
      LookupIs(rs[..|rs| - 1], slot);
    }
  }

  lemma LookupAt(rs: seq<Range>, slot: nat, i: nat)
    requires Ordered(rs) && i < |rs| && InRange(rs[i], slot)
    ensures Lookup(rs, slot) == Some(rs[i].node)
  {
    LookupIs(rs, slot);
  }

  // ---------------------------------------------------------------- sorting

  function Insert(r: Range, rs: seq<Range>): (out: seq<Range>)
    ensures |out| == |rs| + 1
    ensures forall x :: x in out <==> x == r || x in rs
  {
    if rs == [] || r.start <= rs[0].start then [r] + rs else [rs[0]] + Insert(r, rs[1..])
  }

  lemma {:induction false} InsertSorts(r: Range, rs: seq<Range>)
    requires SortedByStart(rs)
    ensures SortedByStart(Insert(r, rs))
  {
    if rs != [] && r.start > rs[0].start {
      InsertSorts(r, rs[1..]);
      var rest := Insert(r, rs[1..]);
      forall j | 0 <= j < |rest|
        ensures rs[0].start <= rest[j].start
      {
        assert rest[j] in rest;
      }
    }
  }

  lemma {:induction false} InsertAdds(r: Range, rs: seq<Range>)
    ensures multiset(Insert(r, rs)) == multiset(rs) + multiset{r}
  {
    if rs != [] && r.start > rs[0].start {
      InsertAdds(r, rs[1..]);
      assert rs == [rs[0]] + rs[1..];
    }
  }

  function Sort(rs: seq<Range>): (out: seq<Range>)
    ensures |out| == |rs|
  {
    if rs == [] then [] else Insert(rs[0], Sort(rs[1..]))
  }

  /** The library sort by start: a sorted permutation. */
  lemma {:induction false} SortSorts(rs: seq<Range>)
    ensures SortedByStart(Sort(rs)) && multiset(Sort(rs)) == multiset(rs)
  {
    if rs != [] {
      SortSorts(rs[1..]);
      InsertSorts(rs[0], Sort(rs[1..]));
      InsertAdds(rs[0], Sort(rs[1..]));
      assert rs == [rs[0]] + rs[1..];
    }
  }

  // ---------------------------------------------------------------- updating

  predicate AllValid(rs: seq<Range>) { forall i :: 0 <= i < |rs| ==> ValidRange(rs[i]) }

  /** All ranges of a topology, in the order the nodes are visited. */
  function Ranges(nodes: seq<Master>): seq<Range> {
    if nodes == [] then [] else Ranges(nodes[..|nodes| - 1]) + nodes[|nodes| - 1].slots
  }

  predicate AllMasters(nodes: seq<Master>) { forall i :: 0 <= i < |nodes| ==> nodes[i].isMaster }

  /** The topologies an update accepts: masters only, valid ranges, no slot held twice. */
  ghost predicate Acceptable(nodes: seq<Master>) {
    AllMasters(nodes) && AllValid(Ranges(nodes)) && PairwiseDisjoint(Ranges(nodes))
  }

  lemma {:induction false} RangesHold(nodes: seq<Master>, r: Range)
    ensures r in Ranges(nodes) <==> exists k :: 0 <= k < |nodes| && r in nodes[k].slots
  {
    if nodes != [] {
      var front, last := nodes[..|nodes| - 1], nodes[|nodes| - 1];
      RangesHold(front, r);
      assert r in last.slots ==> r in nodes[|nodes| - 1].slots;
      if k :| 0 <= k < |nodes| && r in nodes[k].slots {
        assert k < |front| ==> front[k] == nodes[k];
      }
      if k :| 0 <= k < |front| && r in front[k].slots {
        assert nodes[k] == front[k];
      }
    }
  }

  // Both ranges hold the slot.
  predicate Shared(a: Range, b: Range, s: int) { a.start <= s <= a.end && b.start <= s <= b.end }

  lemma OverlapIs(a: Range, b: Range)
    requires a.start <= a.end && b.start <= b.end
    ensures Overlap(a, b) <==> exists s :: Shared(a, b, s)
  {
    if Overlap(a, b) {
      assert Shared(a, b, if a.start <= b.start then b.start else a.start);
    }
  }

  lemma DisjointIs(rs: seq<Range>)
    requires AllValid(rs)
    ensures PairwiseDisjoint(rs) <==> forall i, j, s :: 0 <= i < j < |rs| ==> !Shared(rs[i], rs[j], s)
  {
    hide Overlap, Shared;
    forall i, j | 0 <= i < j < |rs|
      ensures Overlap(rs[i], rs[j]) <==> exists s :: Shared(rs[i], rs[j], s)
    {
      OverlapIs(rs[i], rs[j]);
    }
  }

  /** What is accepted, told from the slots: every node is a master, every range listed for one holds a slot
      and none past 16383, and no two ranges hold the same slot. */
  lemma AcceptedExactly(nodes: seq<Master>)
    ensures Acceptable(nodes) <==>
            && (forall k :: 0 <= k < |nodes| ==> nodes[k].isMaster)
            && (forall k, r :: 0 <= k < |nodes| && r in nodes[k].slots ==> 0 <= r.start <= r.end <= 16383)
            && var all := Ranges(nodes); forall i, j, s :: 0 <= i < j < |all| ==> !Shared(all[i], all[j], s)
  {
    hide Ranges, Shared, PairwiseDisjoint;
    var all := Ranges(nodes);
    forall k, r | 0 <= k < |nodes| && r in nodes[k].slots
      ensures r in all
    {
      RangesHold(nodes, r);
    }
    forall i | 0 <= i < |all|
      ensures exists k :: 0 <= k < |nodes| && all[i] in nodes[k].slots
    {
      RangesHold(nodes, all[i]);
    }
    assert AllValid(all) <==> forall r :: r in all ==> 0 <= r.start <= r.end <= 16383;
    if AllValid(all) {
      DisjointIs(all);
      assert PairwiseDisjoint(all) <==> forall i, j, s :: 0 <= i < j < |all| ==> !Shared(all[i], all[j], s);
    }
  }

  lemma DisjointIsSymmetric(a: seq<Range>, b: seq<Range>)
    requires multiset(a) == multiset(b) && SortedByStart(b) && AllValid(a)
    ensures AllValid(b)
    ensures PairwiseDisjoint(a) <==> Ordered(b)
  {
    forall i | 0 <= i < |b|
      ensures ValidRange(b[i])
    {
      assert b[i] in multiset(b);
      assert b[i] in a;
    }
    if PairwiseDisjoint(a) {
      DisjointMoves(a, b);
      forall i, j | 0 <= i < j < |b|
        ensures b[i].end < b[j].start
      {
        assert !Overlap(b[i], b[j]);
      }
    }
    if Ordered(b) {
      assert PairwiseDisjoint(b);
      DisjointMoves(b, a);
    }
  }

  /** Disjointness does not depend on order. */
  lemma DisjointMoves(a: seq<Range>, b: seq<Range>)
    requires multiset(a) == multiset(b) && AllValid(a) && PairwiseDisjoint(a)
    ensures PairwiseDisjoint(b)
  {
    forall i, j | 0 <= i < j < |b|
      ensures !Overlap(b[i], b[j])
    {
      assert b[i] in multiset(b) && b[j] in multiset(b);
      assert b[i] in a && b[j] in a;
      var k, l :| 0 <= k < |a| && 0 <= l < |a| && a[k] == b[i] && a[l] == b[j];
      if k == l {
        TwiceIn(b, i, j);
        TwoPlaces(a, a[k]);
        assert false;
      }
    }
  }

  lemma {:induction false} TwoPlaces(a: seq<Range>, r: Range)
    requires multiset(a)[r] >= 2 && AllValid(a)
    ensures !PairwiseDisjoint(a)
  {
    var k :| 0 <= k < |a| && a[k] == r;
    assert a == a[..k] + [r] + a[k + 1..];
    var rest := a[..k] + a[k + 1..];
    assert multiset(a) == multiset(rest) + multiset{r};
    assert r in rest;
    var l :| 0 <= l < |rest| && rest[l] == r;
    var m := if l < k then l else l + 1;
    assert a[m] == r && m != k;
    assert Overlap(a[if m < k then m else k], a[if m < k then k else m]);
  }

  // The table a list of ranges describes.
  ghost predicate TableOf(table: seq<Option<Node>>, rs: seq<Range>) {
    |table| == SLOTS && forall s :: 0 <= s < SLOTS ==> table[s] == Lookup(rs, s)
  }

  lemma LookupGrows(rs: seq<Range>, r: Range, slot: nat)
    ensures Lookup(rs + [r], slot) == if InRange(r, slot) then Some(r.node) else Lookup(rs, slot)
  {
    assert (rs + [r])[..|rs|] == rs;
  }

  /** Writes one range into the table, stopping at the first slot that is taken already. */
  method FillRange(table: array<Option<Node>>, r: Range, ghost done: seq<Range>) returns (ok: bool)
    requires table.Length == SLOTS && ValidRange(r) && TableOf(table[..], done)
    modifies table
    ensures ok <==> forall s :: InRange(r, s) ==> Lookup(done, s) == None
    ensures ok ==> TableOf(table[..], done + [r])
  {
    var k := r.start;
    while k <= r.end
      invariant r.start <= k <= r.end + 1
      invariant forall s :: r.start <= s < k ==> table[s] == Some(r.node) && Lookup(done, s) == None
      invariant forall s :: 0 <= s < SLOTS && !(r.start <= s < k) ==> table[s] == Lookup(done, s)
    {
      if table[k] != None {
        assert InRange(r, k);
        return false;
      }
      table[k] := Some(r.node);
      k := k + 1;
    }
    forall s | 0 <= s < SLOTS
      ensures table[..][s] == Lookup(done + [r], s)
    {
      LookupGrows(done, r, s);
    }
    return true;
  }

  lemma OrderedGrows(rs: seq<Range>, j: nat)
    requires SortedByStart(rs) && AllValid(rs) && j < |rs| && Ordered(rs[..j])
    ensures Ordered(rs[..j + 1]) <==> forall s :: InRange(rs[j], s) ==> Lookup(rs[..j], s) == None
  {
    var done, r := rs[..j], rs[j];
    if Ordered(rs[..j + 1]) {
      forall s | InRange(r, s)
        ensures Lookup(done, s) == None
      {
        LookupIs(done, s);
        assert forall i :: 0 <= i < j ==> done[i] == rs[..j + 1][i];
        assert rs[..j + 1][j] == r;
      }
    }
    if forall s :: InRange(r, s) ==> Lookup(done, s) == None {
      assert InRange(r, r.start);
      LookupIs(done, r.start);
      forall i | 0 <= i < j
        ensures rs[i].end < r.start
      {
        assert !InRange(done[i], r.start);
      }
      assert Ordered(rs[..j + 1]);
    }
  }

  lemma OrderedPrefix(rs: seq<Range>, j: nat)
    requires j <= |rs| && Ordered(rs)
    ensures Ordered(rs[..j])
  {
  }

  /** The table of a sorted list of ranges, unless two of them share a slot. */
  method FillTable(slots: seq<Range>) returns (ok: bool, table: array<Option<Node>>)
    requires SortedByStart(slots) && AllValid(slots)
    ensures fresh(table) && (ok <==> Ordered(slots)) && (ok ==> TableOf(table[..], slots))
  {
    table := new Option<Node>[SLOTS](_ => None);
    for j := 0 to |slots|
      invariant TableOf(table[..], slots[..j]) && Ordered(slots[..j])
    {
      OrderedGrows(slots, j);
      ok := FillRange(table, slots[j], slots[..j]);
      assert slots[..j + 1] == slots[..j] + [slots[j]];
      if !ok {
        if Ordered(slots) {
          OrderedPrefix(slots, j + 1);
        }
        return false, table;
      }
    }
    assert slots[..|slots|] == slots;
    return true, table;
  }

  /** Collects the ranges of every master; anything but a master, or a range out of bounds, ends it. */
  method CollectRanges(nodes: seq<Master>) returns (ok: bool, slots: seq<Range>)
    ensures ok <==> AllMasters(nodes) && AllValid(Ranges(nodes))
    ensures ok ==> slots == Ranges(nodes)
  {
    slots := [];
    for i := 0 to |nodes|
      invariant slots == Ranges(nodes[..i]) && AllMasters(nodes[..i]) && AllValid(slots)
    {
      RangesGrow(nodes, i);
      if !nodes[i].isMaster {
        return false, slots;
      }
      ghost var before := slots;
      for j := 0 to |nodes[i].slots|
        invariant slots == before + nodes[i].slots[..j] && AllValid(slots)
      {
        var slot := nodes[i].slots[j];
        if slot.start > slot.end || slot.end >= SLOTS {
          assert Ranges(nodes)[|before| + j] == slot;
          return false, slots;
        }
        slots := slots + [slot];
      }
    }
    assert nodes[..|nodes|] == nodes;
    return true, slots;
  }

  lemma {:induction false} RangesGrow(nodes: seq<Master>, i: nat)
    requires i < |nodes|
    ensures Ranges(nodes[..i + 1]) == Ranges(nodes[..i]) + nodes[i].slots
    ensures Ranges(nodes[..i + 1]) <= Ranges(nodes)
    decreases |nodes|
  {
    assert nodes[..i + 1][..i] == nodes[..i];
    if i + 1 < |nodes| {
      RangesGrow(nodes[..|nodes| - 1], i);
      assert nodes[..|nodes| - 1][..i + 1] == nodes[..i + 1];
    } else {
      assert nodes[..i + 1] == nodes;
    }
  }

  // The route a cluster context holds: a range list and a table of the same ranges.
  class ClusterContext {
    var slots: seq<Range>
    var table: array<Option<Node>>
    var routeVersion: nat

    ghost predicate Valid()
      reads this, table
    {
      Ordered(slots) && TableOf(table[..], slots)
    }

    constructor ()
      ensures Valid() && fresh(table) && slots == [] && routeVersion == 0
    {
      slots, routeVersion := [], 0;
      table := new Option<Node>[SLOTS](_ => None);
    }

    /** Replaces the route by that of a freshly parsed topology. The new structures are built aside
        and put in place only when the whole topology has been accepted. */
    method UpdateRoute(nodes: seq<Master>) returns (ok: bool)
      requires Valid()
      modifies this
      ensures Valid()
      ensures ok <==> Acceptable(nodes)
      ensures ok ==> multiset(slots) == multiset(Ranges(nodes)) && routeVersion == old(routeVersion) + 1 && fresh(table)
      ensures !ok ==> unchanged(this) && unchanged(table)
    {
      var valid, all := CollectRanges(nodes);
      if !valid {
        return false;
      }
      var sorted := Sort(all);
      SortSorts(all);
      DisjointIsSymmetric(all, sorted);
      var filled, newTable := FillTable(sorted);
      if !filled {
        return false;
      }
      slots, table, routeVersion := sorted, newTable, routeVersion + 1;
      return true;
    }

    /** The table answer; out of range slots have no node. */
    method NodeByTable(slot: nat) returns (node: Option<Node>)
      requires Valid()
      ensures node == if slot < SLOTS then Lookup(slots, slot) else None
    {
      if slot >= SLOTS {
        return None;
      }
      return table[slot];
    }
  }

  /** table[s] is a node exactly when one of its ranges holds s, so any two orders in which the same
      ranges are visited give the same table. */
  lemma TableIndependentOfOrder(a: seq<Range>, b: seq<Range>, t: seq<Option<Node>>, u: seq<Option<Node>>)
    requires Ordered(a) && Ordered(b) && multiset(a) == multiset(b) && TableOf(t, a) && TableOf(u, b)
    ensures |t| == SLOTS && t == u
    ensures forall s, n :: 0 <= s < SLOTS ==>
              (t[s] == Some(n) <==> exists i :: 0 <= i < |a| && InRange(a[i], s) && a[i].node == n)
  {
    forall s | 0 <= s < SLOTS
      ensures t[s] == u[s]
    {
      LookupIs(a, s);
      LookupIs(b, s);
      if t[s].Some? {
        var i :| 0 <= i < |a| && InRange(a[i], s);
        assert a[i] in multiset(b) && a[i] in b;
        var k :| 0 <= k < |b| && b[k] == a[i];
        LookupAt(a, s, i);
        LookupAt(b, s, k);
      } else {
        forall k | 0 <= k < |b|
          ensures !InRange(b[k], s)
        {
          assert b[k] in multiset(a) && b[k] in a;
        }
      }
    }
    forall s, n | 0 <= s < SLOTS
      ensures t[s] == Some(n) <==> exists i :: 0 <= i < |a| && InRange(a[i], s) && a[i].node == n
    {
      LookupIs(a, s);
      if i :| 0 <= i < |a| && InRange(a[i], s) && a[i].node == n {
        LookupAt(a, s, i);
      }
    }
  }

  // ---------------------------------------------------------------- binary search

  // PastTheList: the middle is no place of the list. An assertion says so where assertions are compiled
  // in; elsewhere the code reads beyond the list.
  datatype Search = Found(node: Node) | NotFound | PastTheList

  function Answer(n: Option<Node>): Search {
    match n
    case Some(node) => Found(node)
    case None => NotFound
  }

  /** Where the search gives the table's answer: at or after the first range's start, and before it when
      the number of ranges lets the search end. */
  predicate SearchIsRight(slots: seq<Range>, slot: nat) {
    slots != [] && (slot >= slots[0].start || !SecondBit(|slots| + 1))
  }

  /** Whether the second-highest binary digit is a one. */
  predicate SecondBit(m: nat) { if m < 4 then m == 3 else SecondBit(m / 2) }

  lemma {:induction false} OrderedIsShort(rs: seq<Range>, i: nat)
    requires Ordered(rs) && i < |rs|
    ensures i <= rs[i].start < SLOTS
  {
    if i > 0 {
      OrderedIsShort(rs, i - 1);
    }
  }

  // Every range before `start` ends before the slot, every range after `end` begins after it.
  ghost predicate Window(rs: seq<Range>, slot: nat, start: int, end: int) {
    && 0 <= start <= end + 1 && 0 <= end < |rs|
    && (forall i :: 0 <= i < start && i < |rs| ==> rs[i].end < slot)
    && (forall i :: end < i < |rs| ==> slot < rs[i].start)
  }

  lemma WindowNarrows(rs: seq<Range>, slot: nat, start: int, end: int, middle: int)
    requires Ordered(rs) && rs != [] && slot >= rs[0].start && Window(rs, slot, start, end)
    requires if start >= end then middle == end else start <= middle < end
    ensures rs[middle].start > slot ==> middle > 0 && start <= middle && Window(rs, slot, start, middle - 1)
    ensures rs[middle].end < slot ==> Window(rs, slot, middle + 1, end)
  {
  }

  lemma WindowClosed(rs: seq<Range>, slot: nat, start: int, end: int)
    requires Window(rs, slot, start, end) && start > end
    ensures Lookup(rs, slot) == None
  {
    LookupIs(rs, slot);
  }

  // The search for a slot before the first range only ever moves its right end.
  ghost predicate WalksLeft(n: nat, start: int, end: int) {
    && start == 0
    && ((0 <= end < n && SecondBit(n + 1) == SecondBit(end + 2)) || (end == UINT32 - 1 && SecondBit(n + 1)))
  }

  lemma HalfSecondBit(end: nat)
    requires end >= 2
    ensures SecondBit(end + 2) == SecondBit(end / 2 + 1)
  {
    assert (end + 2) / 2 == end / 2 + 1;
  }

  lemma LeftStep(n: nat, start: int, end: int, middle: int)
    requires WalksLeft(n, start, end) && n <= SLOTS
    requires middle == (if start >= end then end else start + (end - start) / 2) < n
    ensures if start >= end then !SecondBit(n + 1) else WalksLeft(n, start, (middle - 1) % UINT32)
  {
    if start < end {
      if end == 1 {
        assert middle == 0 && SecondBit(3);
      } else {
        hide SecondBit;
        assert middle == end / 2 > 0;
        HalfSecondBit(end);
        assert (middle - 1) % UINT32 == middle - 1;
      }
    }
  }

  /** The binary search over the ranges, in unsigned 32-bit arithmetic: `middle - 1` wraps around when
      the middle is the first range. It gives the table's answer, gaps included, if and only if there is
      a first range and the slot is not before it or the number of ranges lets the search end; otherwise
      it leaves the list. */
  method NodeBySlot(slots: seq<Range>, slot: nat) returns (result: Search)
    requires Ordered(slots) && slot < SLOTS
    ensures result == Answer(Lookup(slots, slot)) <==> SearchIsRight(slots, slot)
    ensures result == PastTheList <==> !SearchIsRight(slots, slot)
  {
    hide Lookup, Window, Ordered, SecondBit;
    ghost var before, within := slots != [] && slot < slots[0].start, slots != [] && slot >= slots[0].start;
    if slots != [] {
      OrderedIsShort(slots, |slots| - 1);
    }
    var start, end, middle := 0, (|slots| - 1) % UINT32, 0;
    var stop := false;
    if within {
      WholeWindow(slots, slot);
    }
    if before {
      AllLater(slots, slot);
    }
    if !within {
      NoneBefore(slots, slot);
    }
    while !stop
      invariant start >= 0 && end >= 0
      invariant slots == [] ==> end == UINT32 - 1 && start == 0 && !stop
      invariant before ==> if stop then !SecondBit(|slots| + 1) else WalksLeft(|slots|, start, end)
      invariant within ==> Window(slots, slot, start, end) && (stop ==> start > end)
      decreases !stop, if start <= end < |slots| then end - start + 1 else 0
    {
      if start >= end {
        stop := true;
        middle := end;
      } else {
        middle := start + (end - start) / 2;
      }
      if within {
        WindowBounds(slots, slot, start, end);
        WindowNarrows(slots, slot, start, end, middle);
      }
      if middle >= |slots| {
        return PastTheList;
      }
      if before {
        LeftStep(|slots|, start, end, middle);
      }
      var r := slots[middle];
      if r.start > slot {
        end := (middle - 1) % UINT32;
      } else if r.end < slot {
        start := middle + 1;
      } else {
        LookupAt(slots, slot, middle);
        return Found(r.node);
      }
      if within && stop {
        WindowBounds(slots, slot, start, end);
      }
    }
    if within {
      WindowClosed(slots, slot, start, end);
    }
    return NotFound;
  }

  lemma AllLater(rs: seq<Range>, slot: nat)
    requires Ordered(rs) && rs != [] && slot < rs[0].start
    ensures forall i :: 0 <= i < |rs| ==> slot < rs[i].start
  {
  }

  lemma WholeWindow(rs: seq<Range>, slot: nat)
    requires rs != []
    ensures Window(rs, slot, 0, |rs| - 1)
  {
  }

  lemma WindowBounds(rs: seq<Range>, slot: nat, start: int, end: int)
    requires Window(rs, slot, start, end)
    ensures 0 <= start <= end + 1 && 0 <= end < |rs|
  {
  }

  lemma NoneBefore(rs: seq<Range>, slot: nat)
    requires Ordered(rs) && (rs != [] ==> slot < rs[0].start)
    ensures Lookup(rs, slot) == None
  {
    LookupIs(rs, slot);
  }

  /** Two ranges and a slot before them: the search leaves the list. */
  lemma {:induction false} SearchLeavesList(slots: seq<Range>, a: Node, b: Node)
    requires slots == [Range(5, 6, a), Range(8, 9, b)]
    ensures Ordered(slots) && !SearchIsRight(slots, 0)
  {
  }
}
