/**
 Attaching replicas to their masters while CLUSTER NODES lines are read in whatever order
 they come (hircluster.cpp cluster_master_slave_mapping_with_name). A slave that comes
 before its master stands in for it and hands its list over.
 */
module Replica {
  import opened Bytes
  import opened Resp

  type Name = seq<byte>

  /** cluster_node, as far as replication goes; `slaves` is None while there is no list. */
  class ClusterNode {
    const master: bool
    var slaves: Option<seq<ClusterNode>>

    constructor (master: bool)
      ensures this.master == master && slaves == None
    {
      this.master := master;
      slaves := None;
    }
  }

  /** A node and the name of the master it is, or belongs to. */
  datatype Entry = Entry(node: ClusterNode, name: Name)

  // ------------------------------------------------------------ what a name has gathered

  datatype Group =
    | Absent
    | Waiting(first: ClusterNode, rest: seq<ClusterNode>)   // slaves only, the first stands in
    | Owned(owner: ClusterNode, all: seq<ClusterNode>)
    | Conflict                                             // two masters

  lemma {:induction false} ReversedKeepsAll(s: seq<ClusterNode>)
    ensures multiset(Reversed(s)) == multiset(s)
  {
    if s != [] {
      ReversedKeepsAll(s[1..]);
      assert s == [s[0]] + s[1..];
    }
  }

  function Join(g: Group, node: ClusterNode): Group {
    match g
    case Absent => if node.master then Owned(node, []) else Waiting(node, [])
    case Waiting(first, rest) =>
      if node.master then Owned(node, [first] + Reversed(rest)) else Waiting(first, rest + [node])
    case Owned(owner, all) => if node.master then Conflict else Owned(owner, all + [node])
    case Conflict => Conflict
  }

  /** The group of `name` after the entries, in their order. */
  function Gather(es: seq<Entry>, name: Name): Group {
    if es == [] then Absent
    else
      var e := es[|es| - 1];
      var g := Gather(es[..|es| - 1], name);
      if e.name == name then Join(g, e.node) else g
  }

  /** The masters, or the slaves, that come with `name`. */
  function Naming(es: seq<Entry>, name: Name, master: bool): multiset<ClusterNode> {
    if es == [] then multiset{}
    else Naming(es[..|es| - 1], name, master) + One(es[|es| - 1], name, master)
  }

  function One(e: Entry, name: Name, master: bool): multiset<ClusterNode> {
    if e.name == name && e.node.master == master then multiset{e.node} else multiset{}
  }

  /** What a group says in terms of the masters and slaves that named it. */
  ghost predicate Accounts(g: Group, ms: multiset<ClusterNode>, ss: multiset<ClusterNode>) {
    match g
    case Absent => ms == multiset{} && ss == multiset{}
    case Waiting(first, rest) => ms == multiset{} && ss == multiset([first] + rest)
    case Owned(owner, all) => ms == multiset{owner} && ss == multiset(all)
    case Conflict => |ms| >= 2
  }

  lemma JoinAccounts(g: Group, node: ClusterNode, ms: multiset<ClusterNode>, ss: multiset<ClusterNode>)
    requires Accounts(g, ms, ss)
    ensures Accounts(Join(g, node), ms + (if node.master then multiset{node} else multiset{}),
                     ss + if node.master then multiset{} else multiset{node})
  {
    match g
    case Absent =>
      assert [node] + [] == [node];
    case Waiting(first, rest) =>
      assert [first] + (rest + [node]) == [first] + rest + [node];
      ReversedKeepsAll(rest);
      assert multiset([first] + Reversed(rest)) == multiset{first} + multiset(rest);
    case Owned(owner, all) =>
    case Conflict =>
      assert |ms + multiset{node}| == |ms| + 1;
  }

  /**
   One master: it ends up owning exactly the slaves that named it. No master: the first slave
   stands in for the others. Two masters: an error. In whatever order they came.
   */
  lemma {:induction false} GatherAccounts(es: seq<Entry>, name: Name)
    ensures Accounts(Gather(es, name), Naming(es, name, true), Naming(es, name, false))
  {
    if es != [] {
      var n := |es| - 1;
      GatherAccounts(es[..n], name);
      if es[n].name == name {
        JoinAccounts(Gather(es[..n], name), es[n].node, Naming(es[..n], name, true), Naming(es[..n], name, false));
      }
    }
  }

  // ------------------------------------------------------------ order does not matter

  lemma {:induction false} NamingWithout(es: seq<Entry>, i: nat, name: Name, master: bool)
    requires i < |es|
    ensures Naming(es, name, master) == Naming(es[..i] + es[i + 1..], name, master) + One(es[i], name, master)
  {
    hide One;
    var n := |es| - 1;
    var without := es[..i] + es[i + 1..];
    if i == n {
      assert without == es[..n];
    } else {
      NamingWithout(es[..n], i, name, master);
      assert without[..n - 1] == es[..n][..i] + es[..n][i + 1..] && without[n - 1] == es[n];
    }
  }

  lemma {:induction false} NamingDepends(a: seq<Entry>, b: seq<Entry>, name: Name, master: bool)
    requires multiset(a) == multiset(b)
    ensures Naming(a, name, master) == Naming(b, name, master)
    decreases |a|
  {
    if a == [] {
      assert |multiset(b)| == 0 && b == [];
    } else {
      var n := |a| - 1;
      var i := Elsewhere(a, b);
      NamingDepends(a[..n], b[..i] + b[i + 1..], name, master);
      NamingWithout(b, i, name, master);
    }
  }

  /** The last entry of one list, taken out of the other. */
  lemma Elsewhere(a: seq<Entry>, b: seq<Entry>) returns (i: nat)
    requires multiset(a) == multiset(b) && a != []
    ensures i < |b| && b[i] == a[|a| - 1] && multiset(a[..|a| - 1]) == multiset(b[..i] + b[i + 1..])
  {
    var n := |a| - 1;
    assert a == a[..n] + [a[n]];
    assert a[n] in multiset(b);
    i :| 0 <= i < |b| && b[i] == a[n];
    assert b == b[..i] + [b[i]] + b[i + 1..];
    assert multiset(a[..n]) == multiset(a) - multiset{a[n]};
    assert multiset(b[..i] + b[i + 1..]) == multiset(b) - multiset{b[i]};
  }

  /** The two groups say the same up to the order of the slaves, and which slave stands in. */
  ghost predicate SameGroup(g: Group, h: Group) {
    match g
    case Absent => h.Absent?
    case Waiting(first, rest) => h.Waiting? && multiset([first] + rest) == multiset([h.first] + h.rest)
    case Owned(owner, all) => h.Owned? && h.owner == owner && multiset(h.all) == multiset(all)
    case Conflict => h.Conflict?
  }

  lemma AccountsDetermines(g: Group, h: Group, ms: multiset<ClusterNode>, ss: multiset<ClusterNode>)
    requires Accounts(g, ms, ss) && Accounts(h, ms, ss)
    ensures SameGroup(g, h)
  {
    assert forall x: ClusterNode, y: ClusterNode :: multiset{x} == multiset{y} ==> x in multiset{y};
    assert g.Waiting? ==> g.first in multiset([g.first] + g.rest);
    assert h.Waiting? ==> h.first in multiset([h.first] + h.rest);
  }

  /** Any two orders of the same entries gather the same groups. */
  lemma OrderIrrelevant(a: seq<Entry>, b: seq<Entry>, name: Name)
    requires multiset(a) == multiset(b)
    ensures SameGroup(Gather(a, name), Gather(b, name))
  {
    GatherAccounts(a, name);
    GatherAccounts(b, name);
    NamingDepends(a, b, name, true);
    NamingDepends(a, b, name, false);
    AccountsDetermines(Gather(a, name), Gather(b, name), Naming(a, name, true), Naming(a, name, false));
  }

  // ------------------------------------------------------------ on the heap

  type NodeMap = map<Name, ClusterNode>

  ghost predicate HasList(c: ClusterNode, list: seq<ClusterNode>)
    reads c
  {
    c.slaves == if list == [] then None else Some(list)
  }

  /** The node that the name maps to while its group is `g`. */
  ghost function Stand(g: Group): set<ClusterNode> {
    match g
    case Waiting(first, _) => {first}
    case Owned(owner, _) => {owner}
    case _ => {}
  }

  /** The map and the lists show the group of `name`. */
  ghost predicate Shows(nodes: NodeMap, name: Name, g: Group)
    reads Stand(g)
  {
    match g
    case Absent => name !in nodes
    case Waiting(first, rest) => name in nodes && nodes[name] == first && !first.master && HasList(first, rest)
    case Owned(owner, all) => name in nodes && nodes[name] == owner && owner.master && HasList(owner, all)
    case Conflict => false
  }

  ghost predicate ShowsAll(nodes: NodeMap, es: seq<Entry>)
    reads set e | e in es :: e.node
  {
    forall n: Name :: ShownIn(nodes, es, n)
  }

  ghost predicate ShownIn(nodes: NodeMap, es: seq<Entry>, n: Name)
    reads set e | e in es :: e.node
  {
    Stand(Gather(es, n)) <= (set e | e in es :: e.node) && Shows(nodes, n, Gather(es, n))
  }

  predicate NodesDistinct(es: seq<Entry>) {
    forall i, j :: 0 <= i < j < |es| ==> es[i].node != es[j].node
  }

  lemma {:induction false} StandNamed(es: seq<Entry>, name: Name, c: ClusterNode)
    requires c in Stand(Gather(es, name))
    ensures exists i :: 0 <= i < |es| && es[i].node == c && es[i].name == name
  {
    var n := |es| - 1;
    if c in Stand(Gather(es[..n], name)) {
      StandNamed(es[..n], name, c);
      var i :| 0 <= i < n && es[..n][i].node == c && es[..n][i].name == name;
      assert es[i].node == c && es[i].name == name;
    } else {
      assert es[n].node == c && es[n].name == name;
    }
  }

  /** The waiting list moves to the master, which takes its elements from the front to the front. */
  method HandOver(from: ClusterNode, to: ClusterNode)
    requires from != to && from.slaves.Some? && to.slaves == Some([])
    modifies from, to
    ensures to.slaves == Some(Reversed(old(from.slaves.value))) && from.slaves == None
  {
    ghost var all := from.slaves.value;
    while |from.slaves.value| > 0
      invariant from.slaves.Some? && to.slaves.Some?
      invariant Reversed(from.slaves.value) + to.slaves.value == Reversed(all)
      decreases |from.slaves.value|
    {
      var lnode := from.slaves.value[0];
      to.slaves := Some([lnode] + to.slaves.value);
      from.slaves := Some(from.slaves.value[1..]);
    }
    assert [] + to.slaves.value == to.slaves.value;
    from.slaves := None;
  }

  /** cluster_master_slave_mapping_with_name: fails exactly when a second master comes. */
  method Attach(nodes: NodeMap, node: ClusterNode, name: Name, ghost g: Group) returns (ok: bool, nodes': NodeMap)
    requires Shows(nodes, name, g) && node.slaves == None && node !in Stand(g)
    modifies node, Stand(g)
    ensures ok <==> !Join(g, node).Conflict?
    ensures ok ==> Shows(nodes', name, Join(g, node)) && forall n :: n != name ==> (n in nodes' <==> n in nodes) && (n in nodes ==> nodes'[n] == nodes[n])
    ensures ok && node !in Stand(Join(g, node)) ==> node.slaves == None
  {
    if name !in nodes {
      return true, nodes[name := node];
    }
    var node_old := nodes[name];
    if node.master && node_old.master {
      return false, nodes;
    }
    if node.master {
      node.slaves := Some([]);
      if node_old.slaves != None {
        HandOver(node_old, node);
      }
      node.slaves := Some([node_old] + node.slaves.value);
      return true, nodes[name := node];
    }
    if node_old.slaves == None {
      node_old.slaves := Some([]);
    }
    node_old.slaves := Some(node_old.slaves.value + [node]);
    return true, nodes;
  }

  lemma {:induction false} ConflictStays(es: seq<Entry>, i: nat, name: Name)
    requires i <= |es| && Gather(es[..i], name).Conflict?
    ensures Gather(es, name).Conflict?
  {
    if i == |es| {
      assert es[..i] == es;
    } else {
      assert es[..|es| - 1][..i] == es[..i];
      ConflictStays(es[..|es| - 1], i, name);
    }
  }

  /** One more entry changes the group of its own name and no other. */
  lemma GatherStep(es: seq<Entry>, i: nat, name: Name)
    requires i < |es|
    ensures Gather(es[..i + 1], name) ==
            if es[i].name == name then Join(Gather(es[..i], name), es[i].node) else Gather(es[..i], name)
  {
    assert es[..i + 1][..i] == es[..i];
  }

  ghost predicate Untouched(es: seq<Entry>, from: nat)
    reads set e | e in es :: e.node
  {
    forall j :: from <= j < |es| ==> es[j].node.slaves == None
  }

  /** Attaches one entry and keeps all groups shown. */
  method AttachEntry(nodes: NodeMap, es: seq<Entry>, i: nat) returns (ok: bool, nodes': NodeMap)
    requires i < |es| && NodesDistinct(es) && ShowsAll(nodes, es[..i]) && Untouched(es, i)
    modifies set e | e in es :: e.node
    ensures ok <==> !Gather(es[..i + 1], es[i].name).Conflict?
    ensures ok ==> ShowsAll(nodes', es[..i + 1]) && Untouched(es, i + 1)
  {
    var name, node := es[i].name, es[i].node;
    ghost var g := Gather(es[..i], name);
    assert ShownIn(nodes, es[..i], name);
    NotYetStanding(es, i, name);
    ok, nodes' := Attach(nodes, node, name, g);
    GatherStep(es, i, name);
    if ok {
      ghost var done := es[..i + 1];
      forall n: Name
        ensures ShownIn(nodes', done, n)
      {
        GatherStep(es, i, n);
        if n != name {
          OtherGroup(es, i, n);
          assert old(ShownIn(nodes, es[..i], n));
        }
      }
    }
  }

  lemma NotYetStanding(es: seq<Entry>, i: nat, n: Name)
    requires i < |es| && NodesDistinct(es)
    ensures es[i].node !in Stand(Gather(es[..i], n))
  {
    forall c | c in Stand(Gather(es[..i], n))
      ensures c != es[i].node
    {
      StandNamed(es[..i], n, c);
    }
  }

  /** The groups of different names stand on different nodes. */
  lemma OtherGroup(es: seq<Entry>, i: nat, n: Name)
    requires i < |es| && NodesDistinct(es) && n != es[i].name
    ensures es[i].node !in Stand(Gather(es[..i], n))
    ensures Stand(Gather(es[..i], n)) !! Stand(Gather(es[..i], es[i].name))
  {
    NotYetStanding(es, i, n);
    forall c | c in Stand(Gather(es[..i], n))
      ensures c !in Stand(Gather(es[..i], es[i].name))
    {
      StandNamed(es[..i], n, c);
      if c in Stand(Gather(es[..i], es[i].name)) {
        StandNamed(es[..i], es[i].name, c);
      }
    }
  }

  /**
   All lines of a CLUSTER NODES reply: it succeeds exactly when no name has two masters, and
   then every name maps to its group: to the master, with every slave that named it.
   */
  method MapAll(es: seq<Entry>) returns (ok: bool, nodes: NodeMap)
    requires NodesDistinct(es) && Untouched(es, 0)
    modifies set e | e in es :: e.node
    ensures ok <==> forall n: Name :: |Naming(es, n, true)| <= 1
    ensures ok ==> ShowsAll(nodes, es)
  {
    nodes := map[];
    var i := 0;
    while i < |es|
      invariant 0 <= i <= |es| && ShowsAll(nodes, es[..i]) && Untouched(es, i)
    {
      ok, nodes := AttachEntry(nodes, es, i);
      if !ok {
        ConflictStays(es, i + 1, es[i].name);
        GatherAccounts(es, es[i].name);
        assert |Naming(es, es[i].name, true)| >= 2;
        return;
      }
      i := i + 1;
    }
    assert es[..i] == es;
    forall n: Name
      ensures |Naming(es, n, true)| <= 1
    {
      GatherAccounts(es, n);
      assert ShownIn(nodes, es, n);
    }
    ok := true;
  }
}
