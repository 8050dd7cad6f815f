/**
 The routing index of hircluster.cpp: building the slot table and the sorted range array
 from the ranges of the masters (cluster_update_route_by_addr), looking a slot up in the
 table (node_get_by_table) and by binary search over the ranges (node_get_by_slot).
 */
module Route {
  import opened Bytes
  import opened Resp
  import opened HashSlot

  type Node = nat

  /** cluster_slot: the slots start..end, both included, are served by `node`. */
  datatype Range = Range(start: nat, end: nat, node: Node)

  /** A node as parsed from the cluster's reply; `slots` is None when it has no list. */
  datatype NodeInfo = NodeInfo(node: Node, master: bool, slots: Option<seq<Range>>)

  predicate ValidRange(r: Range) {
    r.start <= r.end < SLOTS
  }

  predicate AllValid(rs: seq<Range>) {
    forall i :: 0 <= i < |rs| ==> ValidRange(rs[i])
  }

  predicate Covers(r: Range, k: nat) {
    r.start <= k <= r.end
  }

  predicate Overlap(a: Range, b: Range) {
    a.start <= b.end && b.start <= a.end
  }

  predicate Disjoint(rs: seq<Range>) {
    forall i, j :: 0 <= i < j < |rs| ==> !Overlap(rs[i], rs[j])
  }

  predicate Sorted(rs: seq<Range>) {
    forall i, j :: 0 <= i < j < |rs| ==> rs[i].start <= rs[j].start
  }

  // ------------------------------------------------------------ the owner of a slot

  /** The node of a range that covers `k`, if there is one. */
  function OwnerOf(rs: seq<Range>, k: nat): (n: Option<Node>)
    ensures n == None <==> forall i :: 0 <= i < |rs| ==> !Covers(rs[i], k)
    ensures n.Some? ==> exists i :: 0 <= i < |rs| && Covers(rs[i], k) && rs[i].node == n.value
  {
    if rs == [] then None
    else
      var r := rs[|rs| - 1];
      if Covers(r, k) then Some(r.node) else OwnerOf(rs[..|rs| - 1], k)
  }

  /** In disjoint ranges the owner does not depend on which range is looked at. */
  lemma OwnerIs(rs: seq<Range>, i: nat, k: nat)
    requires Disjoint(rs) && i < |rs| && Covers(rs[i], k)
    ensures OwnerOf(rs, k) == Some(rs[i].node)
  {
    assert OwnerOf(rs, k) != None;
    var j :| 0 <= j < |rs| && Covers(rs[j], k) && rs[j].node == OwnerOf(rs, k).value;
    assert Overlap(rs[i], rs[j]);
    assert Overlap(rs[j], rs[i]);
  }

  lemma {:induction false} Twice(rs: seq<Range>, r: Range)
    requires multiset(rs)[r] >= 2
    ensures exists i, j :: 0 <= i < j < |rs| && rs[i] == r && rs[j] == r
  {
    var n := |rs| - 1;
    assert rs == rs[..n] + [rs[n]];
    if multiset(rs[..n])[r] >= 2 {
      Twice(rs[..n], r);
      var i, j :| 0 <= i < j < n && rs[..n][i] == r && rs[..n][j] == r;
      assert rs[i] == r && rs[j] == r;
    } else {
      assert r in multiset(rs[..n]);
      var i :| 0 <= i < n && rs[i] == r;
    }
  }

  /** Disjointness, said of the collection without its order. */
  predicate Separate(m: multiset<Range>) {
    (forall r :: r in m ==> m[r] == 1) && forall r, t :: r in m && t in m && r != t ==> !Overlap(r, t)
  }

  lemma OnceEach(rs: seq<Range>, i: nat, j: nat)
    requires i < j < |rs| && rs[i] == rs[j]
    ensures multiset(rs)[rs[i]] >= 2
  {
    assert rs == rs[..j] + [rs[j]] + rs[j + 1..];
    assert rs[i] in multiset(rs[..j]);
  }

  lemma TwiceOverlaps(rs: seq<Range>, r: Range)
    requires multiset(rs)[r] >= 2 && ValidRange(r)
    ensures !Disjoint(rs)
  {
    Twice(rs, r);
    var i, j :| 0 <= i < j < |rs| && rs[i] == r && rs[j] == r;
    assert Overlap(rs[i], rs[j]);
  }

  lemma DisjointIsSeparate(rs: seq<Range>)
    requires AllValid(rs)
    ensures Disjoint(rs) <==> Separate(multiset(rs))
  {
    var m := multiset(rs);
    if Disjoint(rs) {
      forall r | r in m
        ensures m[r] == 1
      {
        if m[r] >= 2 {
          TwiceOverlaps(rs, r);
        }
      }
      forall r, t | r in m && t in m && r != t
        ensures !Overlap(r, t)
      {
        var i :| 0 <= i < |rs| && rs[i] == r;
        var j :| 0 <= j < |rs| && rs[j] == t;
        assert !Overlap(rs[i], rs[j]) || !Overlap(rs[j], rs[i]);
      }
    } else {
      var i, j :| 0 <= i < j < |rs| && Overlap(rs[i], rs[j]);
      assert rs[i] in m && rs[j] in m;
      if rs[i] == rs[j] {
        OnceEach(rs, i, j);
      }
    }
  }

  /** Sorting changes neither whether the ranges are acceptable nor who owns a slot. */
  lemma PermutedRanges(a: seq<Range>, b: seq<Range>)
    requires multiset(a) == multiset(b) && AllValid(a)
    ensures AllValid(b) && (Disjoint(a) <==> Disjoint(b))
    ensures Disjoint(a) ==> forall k: nat :: OwnerOf(a, k) == OwnerOf(b, k)
  {
    forall i | 0 <= i < |b|
      ensures ValidRange(b[i])
    {
      assert b[i] in multiset(a);
    }
    DisjointIsSeparate(a);
    DisjointIsSeparate(b);
    if Disjoint(a) {
      forall k: nat
        ensures OwnerOf(a, k) == OwnerOf(b, k)
      {
        SameOwner(a, b, k);
      }
    }
  }

  lemma SameOwner(a: seq<Range>, b: seq<Range>, k: nat)
    requires multiset(a) == multiset(b) && Disjoint(a) && Disjoint(b)
    ensures OwnerOf(a, k) == OwnerOf(b, k)
  {
    OwnedByPermuted(a, b, k);
    OwnedByPermuted(b, a, k);
  }

  lemma OwnedByPermuted(a: seq<Range>, b: seq<Range>, k: nat)
    requires multiset(a) == multiset(b) && Disjoint(a) && Disjoint(b)
    ensures OwnerOf(a, k).Some? ==> OwnerOf(b, k) == OwnerOf(a, k)
  {
    if OwnerOf(a, k).Some? {
      var i :| 0 <= i < |a| && Covers(a[i], k);
      assert a[i] in multiset(b);
      var j :| 0 <= j < |b| && b[j] == a[i];
      OwnerIs(a, i, k);
      OwnerIs(b, j, k);
    }
  }

  // ------------------------------------------------------------ building

  /** hiarray_sort by start. Ranges with equal starts may come out in any order. */
  method SortByStart(rs: seq<Range>) returns (out: seq<Range>)
    ensures multiset(out) == multiset(rs) && Sorted(out)
  {
    out := [];
    var i := 0;
    while i < |rs|
      invariant 0 <= i <= |rs| && multiset(out) == multiset(rs[..i]) && Sorted(out)
    {
      assert rs[..i + 1] == rs[..i] + [rs[i]];
      out := Insert(out, rs[i]);
      i := i + 1;
    }
    assert rs[..i] == rs;
  }

  method Insert(rs: seq<Range>, r: Range) returns (out: seq<Range>)
    requires Sorted(rs)
    ensures multiset(out) == multiset(rs) + multiset{r} && Sorted(out)
  {
    var p := |rs|;
    while p > 0 && rs[p - 1].start > r.start
      invariant 0 <= p <= |rs| && (p < |rs| ==> r.start < rs[p].start)
    {
      p := p - 1;
    }
    InsertedSorted(rs, r, p);
    InsertedContents(rs, r, p);
    out := rs[..p] + [r] + rs[p..];
  }

  lemma InsertedContents(rs: seq<Range>, r: Range, p: nat)
    requires p <= |rs|
    ensures multiset(rs[..p] + [r] + rs[p..]) == multiset(rs) + multiset{r}
  {
    assert rs == rs[..p] + rs[p..];
    assert multiset(rs) == multiset(rs[..p]) + multiset(rs[p..]);
  }

  lemma InsertedSorted(rs: seq<Range>, r: Range, p: nat)
    requires Sorted(rs) && p <= |rs|
    requires (p > 0 ==> rs[p - 1].start <= r.start) && (p < |rs| ==> r.start <= rs[p].start)
    ensures Sorted(rs[..p] + [r] + rs[p..])
  {
    SortedParts(rs[..p], r, rs[p..]);
  }

  lemma SortedParts(a: seq<Range>, r: Range, b: seq<Range>)
    requires Sorted(a) && Sorted(b)
    requires (forall i :: 0 <= i < |a| ==> a[i].start <= r.start) && forall i :: 0 <= i < |b| ==> r.start <= b[i].start
    ensures Sorted(a + [r] + b)
  {
    SortedPair(a, [r]);
    SortedPair(a + [r], b);
  }

  lemma SortedPair(a: seq<Range>, b: seq<Range>)
    requires Sorted(a) && Sorted(b)
    requires a != [] && b != [] ==> a[|a| - 1].start <= b[0].start
    ensures Sorted(a + b)
  {
    forall i, j | 0 <= i < j < |a + b|
      ensures (a + b)[i].start <= (a + b)[j].start
    {
      if i < |a| && j >= |a| {
        assert i < |a| - 1 ==> a[i].start <= a[|a| - 1].start;
        assert j > |a| ==> b[0].start <= b[j - |a|].start;
      }
    }
  }

  type Table = seq<Option<Node>>

  /** The table says of every slot who owns it, or that nobody does. */
  ghost predicate Tells(table: Table, rs: seq<Range>) {
    |table| == SLOTS && forall k: nat :: k < SLOTS ==> table[k] == OwnerOf(rs, k)
  }

  lemma OneMoreRange(rs: seq<Range>, r: Range)
    requires Disjoint(rs) && ValidRange(r) && forall k: nat :: Covers(r, k) ==> OwnerOf(rs, k) == None
    requires AllValid(rs)
    ensures Disjoint(rs + [r])
    ensures forall k: nat :: OwnerOf(rs + [r], k) == if Covers(r, k) then Some(r.node) else OwnerOf(rs, k)
  {
    forall i | 0 <= i < |rs|
      ensures !Overlap(rs[i], r)
    {
      if Overlap(rs[i], r) {
        var k := if rs[i].start <= r.start then r.start else rs[i].start;
        assert Covers(r, k) && Covers(rs[i], k);
      }
    }
    assert (rs + [r])[..|rs|] == rs;
  }

  /** The slots of one range; fails at the first that somebody already holds. */
  method FillRange(table: array<Option<Node>>, ghost rs: seq<Range>, r: Range) returns (ok: bool)
    requires Tells(table[..], rs) && AllValid(rs) && ValidRange(r) && Disjoint(rs)
    modifies table
    ensures ok <==> Disjoint(rs + [r])
    ensures ok ==> Tells(table[..], rs + [r])
  {
    var k := r.start;
    while k <= r.end
      invariant r.start <= k <= r.end + 1
      invariant forall l: nat :: l < SLOTS ==> table[l] == if r.start <= l < k then Some(r.node) else OwnerOf(rs, l)
      invariant forall l: nat :: r.start <= l < k ==> OwnerOf(rs, l) == None
    {
      if table[k] != None {
        ghost var i :| 0 <= i < |rs| && Covers(rs[i], k);
        assert Overlap((rs + [r])[i], (rs + [r])[|rs|]);
        return false;
      }
      table[k] := Some(r.node);
      k := k + 1;
    }
    OneMoreRange(rs, r);
    return true;
  }

  lemma {:induction false} DisjointPrefix(rs: seq<Range>, j: nat)
    requires j <= |rs| && Disjoint(rs)
    ensures Disjoint(rs[..j])
  {
    forall a, b | 0 <= a < b < j
      ensures !Overlap(rs[..j][a], rs[..j][b])
    {
      assert !Overlap(rs[a], rs[b]);
    }
  }

  /** The second half of the route update: all ranges go into a new table. */
  method BuildTable(rs: seq<Range>) returns (ok: bool, table: array<Option<Node>>)
    requires AllValid(rs)
    ensures fresh(table) && table.Length == SLOTS
    ensures ok <==> Disjoint(rs)
    ensures ok ==> Tells(table[..], rs)
  {
    table := new Option<Node>[SLOTS](_ => None);
    var j := 0;
    while j < |rs|
      invariant 0 <= j <= |rs| && fresh(table) && table.Length == SLOTS
      invariant Disjoint(rs[..j]) && Tells(table[..], rs[..j])
    {
      assert rs[..j + 1] == rs[..j] + [rs[j]];
      ok := FillRange(table, rs[..j], rs[j]);
      if !ok {
        if Disjoint(rs) {
          DisjointPrefix(rs, j + 1);
        }
        return;
      }
      j := j + 1;
    }
    assert rs[..j] == rs;
    ok := true;
  }

  function AllRanges(nodes: seq<NodeInfo>): seq<Range> {
    if nodes == [] then []
    else
      var n := |nodes| - 1;
      AllRanges(nodes[..n]) + if nodes[n].slots.Some? then nodes[n].slots.value else []
  }

  /** Only masters were parsed, and every range lies in the slot space. */
  predicate Acceptable(nodes: seq<NodeInfo>) {
    forall i :: 0 <= i < |nodes| ==> nodes[i].master && (nodes[i].slots.Some? ==> AllValid(nodes[i].slots.value))
  }

  lemma {:induction false} AcceptableRanges(nodes: seq<NodeInfo>)
    requires Acceptable(nodes)
    ensures AllValid(AllRanges(nodes))
  {
    if nodes != [] {
      AcceptableRanges(nodes[..|nodes| - 1]);
    }
  }

  /** The first half: the ranges of all masters are collected and checked. */
  method Collect(nodes: seq<NodeInfo>) returns (ok: bool, rs: seq<Range>)
    ensures ok <==> Acceptable(nodes)
    ensures ok ==> rs == AllRanges(nodes)
  {
    rs := [];
    var i := 0;
    while i < |nodes|
      invariant 0 <= i <= |nodes| && Acceptable(nodes[..i]) && rs == AllRanges(nodes[..i])
    {
      assert nodes[..i + 1][..i] == nodes[..i];
      if !nodes[i].master {
        return false, rs;
      }
      if nodes[i].slots.Some? {
        var list := nodes[i].slots.value;
        var l := 0;
        while l < |list|
          invariant 0 <= l <= |list| && AllValid(list[..l]) && rs == AllRanges(nodes[..i]) + list[..l]
        {
          if list[l].start > list[l].end || list[l].end >= SLOTS {
            assert !ValidRange(list[l]);
            return false, rs;
          }
          assert list[..l + 1] == list[..l] + [list[l]];
          rs := rs + [list[l]];
          l := l + 1;
        }
        assert list[..l] == list;
      }
      i := i + 1;
    }
    assert nodes[..i] == nodes;
    ok := true;
  }

  // ------------------------------------------------------------ binary search

  /** What node_get_by_slot does: hand out a node or NULL, or fail its assertion on `middle`. */
  datatype Found = Found(node: Option<Node>) | OutOfArray

  const U32_MAX: nat := 0xFFFF_FFFF

  /** The binary form of m, which is at least 2, starts with two ones. */
  predicate LeadingOnes(m: nat)
    requires m >= 2
  {
    if m < 4 then m == 3 else LeadingOnes(m / 2)
  }

  /** m lies in the upper half of the numbers with k + 2 binary digits. */
  predicate UpperHalf(m: nat, k: nat) {
    3 * Pow2(k) <= m < 4 * Pow2(k)
  }

  lemma {:induction false} UpperHalfLeads(m: nat, k: nat)
    requires m >= 2 && UpperHalf(m, k)
    ensures LeadingOnes(m)
  {
    if k > 0 {
      assert Pow2(k) == 2 * Pow2(k - 1);
      UpperHalfLeads(m / 2, k - 1);
    }
  }

  lemma {:induction false} LeadsToUpperHalf(m: nat) returns (k: nat)
    requires m >= 2 && LeadingOnes(m)
    ensures UpperHalf(m, k)
  {
    k := 0;
    if m >= 4 {
      var l := LeadsToUpperHalf(m / 2);
      k := l + 1;
      assert Pow2(k) == 2 * Pow2(l);
    }
  }

  lemma LeadingOnesIs(m: nat)
    requires m >= 2
    ensures LeadingOnes(m) <==> exists k: nat :: UpperHalf(m, k)
  {
    if LeadingOnes(m) {
      var k := LeadsToUpperHalf(m);
    }
    if k: nat :| UpperHalf(m, k) {
      UpperHalfLeads(m, k);
    }
  }

  /** The search runs off the front of the array, where `middle - 1` wraps around. */
  predicate RunsOff(rs: seq<Range>, slot_num: nat) {
    rs == [] || (slot_num < rs[0].start && LeadingOnes(|rs| + 1))
  }

  /** Nothing before `start` and nothing after `end` covers the slot. */
  ghost predicate Narrowed(rs: seq<Range>, slot_num: nat, start: nat, end: nat) {
    start <= |rs| &&
    (forall i :: 0 <= i < start ==> rs[i].end < slot_num) &&
    if end == U32_MAX then start == 0 && rs != [] && slot_num < rs[0].start && LeadingOnes(|rs| + 1)
    else
      end < |rs| && start <= end + 1 && (forall i :: end < i < |rs| ==> slot_num < rs[i].start) &&
      (slot_num < rs[0].start ==> start == 0 && (LeadingOnes(end + 2) <==> LeadingOnes(|rs| + 1)))
  }

  /** One look at the range in the middle, when it does not cover the slot. */
  lemma GoLeft(rs: seq<Range>, slot_num: nat, start: nat, end: nat, middle: nat)
    requires Sorted(rs) && Narrowed(rs, slot_num, start, end) && start < end < |rs| < U32_MAX
    requires middle == start + (end - start) / 2 && slot_num < rs[middle].start
    ensures Narrowed(rs, slot_num, start, if middle == 0 then U32_MAX else middle - 1)
  {
    forall i | middle <= i < |rs|
      ensures slot_num < rs[i].start
    {
    }
    if slot_num < rs[0].start {
      assert middle == end / 2;
      if middle > 0 {
        assert (end + 2) / 2 == middle + 1;
      }
    }
  }

  lemma GoRight(rs: seq<Range>, slot_num: nat, start: nat, end: nat, middle: nat)
    requires Sorted(rs) && Disjoint(rs) && AllValid(rs) && Narrowed(rs, slot_num, start, end) && start < end < |rs|
    requires middle == start + (end - start) / 2 && rs[middle].end < slot_num
    ensures Narrowed(rs, slot_num, middle + 1, end)
  {
    forall i | 0 <= i < middle
      ensures rs[i].end < slot_num
    {
      assert !Overlap(rs[i], rs[middle]);
    }
    assert rs[0].start <= rs[middle].start;
  }

  /** Disjoint ranges of a sorted array start at least as far in as their position. */
  lemma {:induction false} StartsGrow(rs: seq<Range>, i: nat)
    requires AllValid(rs) && Sorted(rs) && Disjoint(rs) && i < |rs|
    ensures rs[i].start >= i
  {
    if i > 0 {
      StartsGrow(rs, i - 1);
      assert !Overlap(rs[i - 1], rs[i]);
    }
  }

  lemma FewRanges(rs: seq<Range>)
    requires AllValid(rs) && Sorted(rs) && Disjoint(rs)
    ensures |rs| <= SLOTS
  {
    if rs != [] {
      StartsGrow(rs, |rs| - 1);
    }
  }

  /**
   node_get_by_slot, with its 32-bit `middle - 1`. For a nonempty sorted array it agrees with
   the owner of the slot, except that it fails exactly for the slots before the first range
   when the binary form of the array length plus one starts with two ones.
   */
  method NodeGetBySlot(slots: Option<seq<Range>>, slot_num: nat) returns (r: Found)
    requires slots.Some? ==> AllValid(slots.value) && Sorted(slots.value) && Disjoint(slots.value)
    ensures slot_num >= SLOTS || slots.None? ==> r == Found(None)
    ensures slot_num < SLOTS && slots.Some? ==>
              r == if RunsOff(slots.value, slot_num) then OutOfArray else Found(OwnerOf(slots.value, slot_num))
  {
    if slot_num >= SLOTS || slots.None? {
      return Found(None);
    }
    var rs := slots.value;
    FewRanges(rs);
    var start, end, middle := 0, if |rs| == 0 then U32_MAX else |rs| - 1, 0;
    var stop := false;
    while !stop
      invariant 0 <= start && 0 <= end && (rs == [] ==> start == 0 && end == U32_MAX && !stop)
      invariant rs != [] && !stop ==> Narrowed(rs, slot_num, start, end)
      invariant stop ==> OwnerOf(rs, slot_num) == None && !RunsOff(rs, slot_num)
      decreases !stop, if end == U32_MAX then 0 else 1 + end, if end == U32_MAX then 0 else end + 1 - start
    {
      if start >= end {
        stop := true;
        middle := end;
      } else {
        middle := start + (end - start) / 2;
      }
      if middle >= |rs| {
        return OutOfArray;
      }
      if rs[middle].start > slot_num {
        if !stop {
          GoLeft(rs, slot_num, start, end, middle);
        } else {
          LastLook(rs, slot_num, start, end);
        }
        end := if middle == 0 then U32_MAX else middle - 1;
      } else if rs[middle].end < slot_num {
        if !stop {
          GoRight(rs, slot_num, start, end, middle);
        } else {
          LastLook(rs, slot_num, start, end);
        }
        start := middle + 1;
      } else {
        OwnerIs(rs, middle, slot_num);
        return Found(Some(rs[middle].node));
      }
    }
    return Found(None);
  }

  const TWO_RANGES: seq<Range> := [Range(100, 199, 0), Range(300, 399, 1)]

  /** Two ranges and a slot before the first one: the search runs off the array instead of finding nothing. */
  method SlotBeforeTwoRanges() returns (r: Found)
    ensures r == OutOfArray && OwnerOf(TWO_RANGES, 50) == None
  {
    assert Sorted(TWO_RANGES) && Disjoint(TWO_RANGES) && AllValid(TWO_RANGES);
    assert LeadingOnes(3);
    r := NodeGetBySlot(Some(TWO_RANGES), 50);
  }

  /** The last range looked at does not cover the slot, and no other one is left. */
  lemma LastLook(rs: seq<Range>, slot_num: nat, start: nat, end: nat)
    requires AllValid(rs) && Sorted(rs) && Narrowed(rs, slot_num, start, end) && start >= end && end < |rs| < U32_MAX
    requires !Covers(rs[end], slot_num)
    ensures OwnerOf(rs, slot_num) == None && !RunsOff(rs, slot_num)
  {
    forall i | 0 <= i < |rs|
      ensures !Covers(rs[i], slot_num)
    {
    }
  }

  /** What a range array and a table must have in common. */
  ghost predicate Indexes(slots: seq<Range>, table: Table) {
    AllValid(slots) && Sorted(slots) && Disjoint(slots) && Tells(table, slots)
  }

  /** The routing part of the cluster context. */
  class RouteIndex {
    var nodes: seq<NodeInfo>
    var slots: Option<seq<Range>>
    const table: array<Option<Node>>
    var route_version: nat

    ghost predicate Valid()
      reads this, table
    {
      table.Length == SLOTS &&
      if slots.Some? then Indexes(slots.value, table[..]) else forall k :: 0 <= k < SLOTS ==> table[k] == None
    }

    constructor ()
      ensures Valid() && slots == None && nodes == [] && route_version == 0 && fresh(table) && table.Length == 16384
    {
      nodes, slots, route_version := [], None, 0;
      table := new Option<Node>[SLOTS](_ => None);
    }

    /** cluster_update_route_by_addr, from the parsed nodes on. */
    method Update(parsed: seq<NodeInfo>) returns (ok: bool)
      requires Valid()
      modifies this, table
      ensures Valid()
      ensures ok <==> Acceptable(parsed) && Disjoint(AllRanges(parsed))
      ensures ok ==> nodes == parsed && slots.Some? && multiset(slots.value) == multiset(AllRanges(parsed))
      ensures ok ==> Tells(table[..], AllRanges(parsed)) && route_version == old(route_version) + 1
      ensures !ok ==> nodes == old(nodes) && slots == old(slots) && table[..] == old(table[..])
      ensures !ok ==> route_version == old(route_version)
    {
      var rs;
      ok, rs := Collect(parsed);
      if !ok {
        return;
      }
      AcceptableRanges(parsed);
      var sorted := SortByStart(rs);
      PermutedRanges(rs, sorted);
      var newTable;
      ok, newTable := BuildTable(sorted);
      if !ok {
        return;
      }
      nodes := parsed;
      slots := Some(sorted);
      forall k | 0 <= k < SLOTS {
        table[k] := newTable[k];
      }
      assert table[..] == newTable[..];
      route_version := route_version + 1;
    }

    /** node_get_by_table. */
    method NodeByTable(slot_num: nat) returns (n: Option<Node>)
      requires Valid()
      ensures n == if slots.Some? && slot_num < SLOTS then OwnerOf(slots.value, slot_num) else None
    {
      if slot_num >= SLOTS {
        return None;
      }
      return table[slot_num];
    }
  }
}
