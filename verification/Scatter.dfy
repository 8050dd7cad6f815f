/**
 What MGET, DEL and MSET do to a store, and why a command may be split by hash slot:
 running the fragments in ascending slot order, each at the node that owns its slot,
 has the replies and the effect of running the whole command on the whole store.
 */
module Scatter {
  import opened Bytes
  import opened CommandTable
  import opened Resp
  import opened FragmentLayout
  import opened Fragment
  import opened Merge
  import opened HashSlot

  type Key = seq<byte>
  type Store = map<Key, seq<byte>>

  /** The state of a store after a command, and the command's reply. */
  datatype Ran = Ran(store: Store, reply: Reply)

  function Lookup(store: Store, key: Key): Option<seq<byte>> {
    if key in store then Some(store[key]) else None
  }

  function ValueReply(v: Option<seq<byte>>): Reply {
    if v.Some? then Str(v.value) else Nil
  }

  // ------------------------------------------------------------ the commands on one store

  function ReadAll(store: Store, keys: seq<Key>): (vs: seq<Reply>)
    ensures |vs| == |keys| && forall i :: 0 <= i < |keys| ==> vs[i] == ValueReply(Lookup(store, keys[i]))
  {
    seq(|keys|, i requires 0 <= i < |keys| => ValueReply(Lookup(store, keys[i])))
  }

  /** DEL takes its keys one after the other; a key counts only if it was there at its turn. */
  function Delete(store: Store, keys: seq<Key>): (Store, nat) {
    if keys == [] then (store, 0)
    else
      var n := |keys| - 1;
      var (s, c) := Delete(store, keys[..n]);
      if keys[n] in s then (s - {keys[n]}, c + 1) else (s, c)
  }

  /** MSET assigns pair by pair, so the last value of a repeated key stays. */
  function Assign(store: Store, keys: seq<Key>, values: seq<seq<byte>>): Store
    requires |keys| == |values|
  {
    if keys == [] then store
    else
      var n := |keys| - 1;
      Assign(store, keys[..n], values[..n])[keys[n] := values[n]]
  }

  function Perform(typ: CmdType, store: Store, keys: seq<Key>, values: seq<seq<byte>>): Ran
    requires |keys| == |values| && Splittable(typ)
  {
    if typ == MGET then Ran(store, Arr(ReadAll(store, keys)))
    else if typ == DEL then Ran(Delete(store, keys).0, Integer(Delete(store, keys).1))
    else Ran(Assign(store, keys, values), Status(OK))
  }

  /** MGET: for every key its value, or nil; the store stays. */
  lemma MgetMeans(store: Store, keys: seq<Key>, values: seq<seq<byte>>)
    requires |keys| == |values|
    ensures var r := Perform(MGET, store, keys, values);
            r.store == store && r.reply.Arr? && |r.reply.elems| == |keys| &&
            forall i :: 0 <= i < |keys| ==>
              r.reply.elems[i] == if keys[i] in store then Str(store[keys[i]]) else Nil
  {}

  lemma {:induction false} DeletedStore(store: Store, keys: seq<Key>)
    ensures Delete(store, keys).0 == map k | k in store && k !in keys :: store[k]
  {
    if keys != [] {
      var n := |keys| - 1;
      DeletedStore(store, keys[..n]);
      assert keys == keys[..n] + [keys[n]];
    }
  }

  function Present(store: Store, keys: seq<Key>): set<Key> {
    set k | k in keys && k in store
  }

  lemma PresentLast(store: Store, keys: seq<Key>)
    requires keys != []
    ensures var front, key := keys[..|keys| - 1], keys[|keys| - 1];
            Present(store, keys) == Present(store, front) + (if key in store then {key} else {}) &&
            (key in front && key in store <==> key in Present(store, front))
  {
    assert keys == keys[..|keys| - 1] + [keys[|keys| - 1]];
  }

  lemma {:induction false} DeletedCount(store: Store, keys: seq<Key>)
    ensures Delete(store, keys).1 == |Present(store, keys)|
  {
    if keys != [] {
      var n := |keys| - 1;
      DeletedCount(store, keys[..n]);
      DeletedStore(store, keys[..n]);
      PresentLast(store, keys);
      hide Present;
      if keys[n] in store && keys[n] in keys[..n] {
        assert Present(store, keys[..n]) + {keys[n]} == Present(store, keys[..n]);
      }
    }
  }

  /** DEL: the keys are gone, and the reply is how many of them there were, each counted once. */
  lemma DelMeans(store: Store, keys: seq<Key>, values: seq<seq<byte>>)
    requires |keys| == |values|
    ensures var r := Perform(DEL, store, keys, values);
            r.store == (map k | k in store && k !in keys :: store[k]) &&
            r.reply == Integer(|set k | k in keys && k in store|)
  {
    DeletedStore(store, keys);
    DeletedCount(store, keys);
    assert Present(store, keys) == set k | k in keys && k in store;
  }

  lemma {:induction false} AssignKeeps(store: Store, keys: seq<Key>, values: seq<seq<byte>>, k: Key)
    requires |keys| == |values| && k !in keys
    ensures Lookup(Assign(store, keys, values), k) == Lookup(store, k)
  {
    if keys != [] {
      var n := |keys| - 1;
      assert keys[n] in keys && forall x :: x in keys[..n] ==> x in keys;
      AssignKeeps(store, keys[..n], values[..n], k);
    }
  }

  lemma {:induction false} AssignSets(store: Store, keys: seq<Key>, values: seq<seq<byte>>, i: nat)
    requires |keys| == |values| && i < |keys| && forall j :: i < j < |keys| ==> keys[j] != keys[i]
    ensures Lookup(Assign(store, keys, values), keys[i]) == Some(values[i])
  {
    var n := |keys| - 1;
    if i < n {
      AssignSets(store, keys[..n], values[..n], i);
    }
  }

  /** MSET: every key has the last value given for it, the other keys stay, and the reply is OK. */
  lemma MsetMeans(store: Store, keys: seq<Key>, values: seq<seq<byte>>)
    requires |keys| == |values|
    ensures var r := Perform(MSET, store, keys, values);
            r.reply == Status([79, 75]) &&
            (forall k :: k !in keys ==> (k in r.store <==> k in store) && (k in store ==> r.store[k] == store[k])) &&
            forall i :: 0 <= i < |keys| && (forall j :: i < j < |keys| ==> keys[j] != keys[i]) ==>
              keys[i] in r.store && r.store[keys[i]] == values[i]
  {
    hide Assign;
    var s := Assign(store, keys, values);
    forall k | k !in keys
      ensures (k in s <==> k in store) && (k in store ==> s[k] == store[k])
    {
      AssignKeeps(store, keys, values, k);
    }
    forall i | 0 <= i < |keys| && forall j :: i < j < |keys| ==> keys[j] != keys[i]
      ensures keys[i] in s && s[keys[i]] == values[i]
    {
      AssignSets(store, keys, values, i);
    }
  }

  // ------------------------------------------------------------ the effect on one key

  /** What a command leaves at `key`, given what was there. */
  function After(typ: CmdType, keys: seq<Key>, values: seq<seq<byte>>, key: Key, v: Option<seq<byte>>): Option<seq<byte>>
    requires |keys| == |values|
  {
    if keys == [] || typ == MGET then v
    else
      var n := |keys| - 1;
      if keys[n] == key then if typ == DEL then None else Some(values[n])
      else After(typ, keys[..n], values[..n], key, v)
  }

  lemma {:induction false} RunPointwise(typ: CmdType, store: Store, keys: seq<Key>, values: seq<seq<byte>>, key: Key)
    requires |keys| == |values| && Splittable(typ)
    ensures Lookup(Perform(typ, store, keys, values).store, key) == After(typ, keys, values, key, Lookup(store, key))
  {
    if keys != [] && typ != MGET {
      var n := |keys| - 1;
      RunPointwise(typ, store, keys[..n], values[..n], key);
    }
  }

  /** Key by key, how many deletions count: present at the start, and not deleted before. */
  function Deleted(store: Store, keys: seq<Key>): nat {
    if keys == [] then 0
    else
      var n := |keys| - 1;
      Deleted(store, keys[..n]) + if keys[n] in store && keys[n] !in keys[..n] then 1 else 0
  }

  lemma {:induction false} DeleteCounts(store: Store, keys: seq<Key>)
    ensures Delete(store, keys).1 == Deleted(store, keys)
    ensures forall k :: k in Delete(store, keys).0 <==> k in store && k !in keys
  {
    if keys != [] {
      var n := |keys| - 1;
      DeleteCounts(store, keys[..n]);
      assert keys == keys[..n] + [keys[n]];
    }
  }

  // ------------------------------------------------------------ one slot at a time

  function KeySlots(keys: seq<Key>): (r: seq<nat>)
    ensures |r| == |keys| && forall i :: 0 <= i < |keys| ==> r[i] == Slot(keys[i]) < SLOTS
  {
    seq(|keys|, i requires 0 <= i < |keys| => Slot(keys[i]))
  }

  /** The keys, or the values, of the fragment for `slot`. */
  function Part<T>(xs: seq<T>, slots: seq<nat>, slot: nat): (r: seq<T>)
    requires |xs| == |slots|
    ensures |r| == |Members(slots, slot)|
    ensures forall j :: 0 <= j < |r| ==> r[j] == xs[Members(slots, slot)[j]]
  {
    Pick(xs, Members(slots, slot))
  }

  lemma PartStep<T>(xs: seq<T>, slots: seq<nat>, slot: nat)
    requires |xs| == |slots| && xs != []
    ensures var n := |xs| - 1;
            var front := Part(xs[..n], slots[..n], slot);
            Part(xs, slots, slot) == if slots[n] == slot then front + [xs[n]] else front
  {}

  lemma {:induction false} PartHas(keys: seq<Key>, key: Key)
    ensures key in Part(keys, KeySlots(keys), Slot(key)) <==> key in keys
  {
    hide Slot;
    var slots := KeySlots(keys);
    if key in keys {
      var i :| 0 <= i < |keys| && keys[i] == key;
      MembersHas(slots, i);
      var j :| 0 <= j < |Members(slots, slots[i])| && Members(slots, slots[i])[j] == i;
      assert Part(keys, slots, slots[i])[j] == key;
    }
  }

  /** A fragment does to the keys of its slot what the whole command does, and nothing to others. */
  lemma {:induction false} PartLocal(typ: CmdType, keys: seq<Key>, values: seq<seq<byte>>, slot: nat, key: Key, v: Option<seq<byte>>)
    requires |keys| == |values|
    ensures var slots := KeySlots(keys);
            After(typ, Part(keys, slots, slot), Part(values, slots, slot), key, v) ==
            if Slot(key) == slot then After(typ, keys, values, key, v) else v
  {
    hide Slot;
    hide Part;
    hide After;
    hide KeySlots;
    var slots := KeySlots(keys);
    if keys == [] {
      PartOfNothing(keys, slots, slot);
      PartOfNothing(values, slots, slot);
      AfterNothing(typ, key, v);
    } else {
      var n := |keys| - 1;
      FrontSlots(keys);
      PartStep(keys, slots, slot);
      PartStep(values, slots, slot);
      PartLocal(typ, keys[..n], values[..n], slot, key, v);
      var ks, vs := Part(keys[..n], slots[..n], slot), Part(values[..n], slots[..n], slot);
      AfterSnoc(typ, ks, vs, keys[n], values[n], key, v);
      AfterLast(typ, keys, values, key, v);
    }
  }

  lemma FrontSlots(keys: seq<Key>)
    requires keys != []
    ensures KeySlots(keys)[..|keys| - 1] == KeySlots(keys[..|keys| - 1])
  {
    hide Slot;
  }

  lemma PartOfNothing<T>(xs: seq<T>, slots: seq<nat>, slot: nat)
    requires |xs| == |slots| == 0
    ensures Part(xs, slots, slot) == []
  {}

  lemma AfterNothing(typ: CmdType, key: Key, v: Option<seq<byte>>)
    ensures After(typ, [], [], key, v) == v
  {}

  lemma AfterLast(typ: CmdType, keys: seq<Key>, values: seq<seq<byte>>, key: Key, v: Option<seq<byte>>)
    requires |keys| == |values| > 0
    ensures var n := |keys| - 1;
            After(typ, keys, values, key, v) ==
            if typ != MGET && keys[n] == key then (if typ == DEL then None else Some(values[n]))
            else After(typ, keys[..n], values[..n], key, v)
  {}

  lemma AfterSnoc(typ: CmdType, ks: seq<Key>, vs: seq<seq<byte>>, k: Key, value: seq<byte>, key: Key, v: Option<seq<byte>>)
    requires |ks| == |vs|
    ensures After(typ, ks + [k], vs + [value], key, v) ==
            if typ != MGET && k == key then (if typ == DEL then None else Some(value)) else After(typ, ks, vs, key, v)
  {
    assert (ks + [k])[..|ks|] == ks && (vs + [value])[..|vs|] == vs;
  }

  // ------------------------------------------------------------ replies

  /** The stores hold the same values for `keys`. */
  ghost predicate SameFor(s: Store, t: Store, keys: seq<Key>) {
    forall k :: k in keys ==> Lookup(s, k) == Lookup(t, k)
  }

  lemma {:induction false} DeletedDepends(s: Store, t: Store, keys: seq<Key>)
    requires SameFor(s, t, keys)
    ensures Deleted(s, keys) == Deleted(t, keys)
  {
    if keys != [] {
      var n := |keys| - 1;
      DeletedDepends(s, t, keys[..n]);
      assert keys[n] in keys && Lookup(s, keys[n]) == Lookup(t, keys[n]);
    }
  }

  /** A reply depends only on what the store holds for the command's own keys. */
  lemma ReplyDepends(typ: CmdType, s: Store, t: Store, keys: seq<Key>, values: seq<seq<byte>>)
    requires |keys| == |values| && Splittable(typ) && SameFor(s, t, keys)
    ensures Perform(typ, s, keys, values).reply == Perform(typ, t, keys, values).reply
  {
    if typ == MGET {
      assert ReadAll(s, keys) == ReadAll(t, keys);
    } else if typ == DEL {
      DeleteCounts(s, keys);
      DeleteCounts(t, keys);
      DeletedDepends(s, t, keys);
    }
  }

  /** The deletions counted by the fragments of the slots below `bound`. */
  function DeletedBelow(store: Store, keys: seq<Key>, bound: nat): nat {
    if bound == 0 then 0
    else DeletedBelow(store, keys, bound - 1) + Deleted(store, Part(keys, KeySlots(keys), bound - 1))
  }

  lemma {:induction false} DeletedBelowNone(store: Store, bound: nat)
    ensures DeletedBelow(store, [], bound) == 0
  {
    if bound > 0 {
      DeletedBelowNone(store, bound - 1);
    }
  }

  /** One more key adds to one fragment what it adds to the whole. */
  lemma {:induction false} DeletedBelowStep(store: Store, keys: seq<Key>, bound: nat)
    requires keys != []
    ensures var n := |keys| - 1;
            DeletedBelow(store, keys, bound) == DeletedBelow(store, keys[..n], bound) +
            if Slot(keys[n]) < bound && keys[n] in store && keys[n] !in keys[..n] then 1 else 0
  {
    hide Slot;
    hide Part;
    hide Deleted;
    hide KeySlots;
    hide DeletedBelow;
    DeletedBelowAt(store, keys, bound);
    DeletedBelowAt(store, keys[..|keys| - 1], bound);
    if bound > 0 {
      DeletedBelowStep(store, keys, bound - 1);
      DeletedPartStep(store, keys, bound - 1);
    }
  }

  lemma DeletedBelowAt(store: Store, keys: seq<Key>, bound: nat)
    ensures DeletedBelow(store, keys, bound) ==
            if bound == 0 then 0
            else DeletedBelow(store, keys, bound - 1) + Deleted(store, Part(keys, KeySlots(keys), bound - 1))
  {}

  lemma DeletedPartStep(store: Store, keys: seq<Key>, slot: nat)
    requires keys != []
    ensures var n := |keys| - 1;
            Deleted(store, Part(keys, KeySlots(keys), slot)) ==
            Deleted(store, Part(keys[..n], KeySlots(keys[..n]), slot)) +
            if Slot(keys[n]) == slot && keys[n] in store && keys[n] !in keys[..n] then 1 else 0
  {
    hide Slot;
    hide Part;
    var n := |keys| - 1;
    var slots := KeySlots(keys);
    assert slots[..n] == KeySlots(keys[..n]);
    PartStep(keys, slots, slot);
    var ks := Part(keys[..n], slots[..n], slot);
    if slots[n] == slot {
      PartHas(keys[..n], keys[n]);
      assert (ks + [keys[n]])[..|ks|] == ks;
    }
  }

  lemma {:induction false} DeletedSplits(store: Store, keys: seq<Key>)
    ensures DeletedBelow(store, keys, SLOTS) == Deleted(store, keys)
  {
    if keys == [] {
      DeletedBelowNone(store, SLOTS);
    } else {
      DeletedSplits(store, keys[..|keys| - 1]);
      DeletedBelowStep(store, keys, SLOTS);
    }
  }

  // ------------------------------------------------------------ the nodes of the cluster

  type Nodes = seq<Store>

  /** Slot s is served by node owner[s]. */
  predicate Owning(owner: seq<nat>, nodes: Nodes) {
    |owner| == SLOTS && forall s :: 0 <= s < SLOTS ==> owner[s] < |nodes|
  }

  /** Every key has at the node of its slot the value that it has in the whole store. */
  ghost predicate Agree(nodes: Nodes, owner: seq<nat>, whole: Store)
    requires Owning(owner, nodes)
  {
    forall k: Key :: Lookup(nodes[owner[Slot(k)]], k) == Lookup(whole, k)
  }

  /** The fragments of the slots below `bound`, run in ascending order at their nodes. */
  function RunFragments(typ: CmdType, nodes: Nodes, owner: seq<nat>, keys: seq<Key>, values: seq<seq<byte>>,
                        bound: nat): (r: (Nodes, seq<Reply>))
    requires |keys| == |values| && Splittable(typ) && Owning(owner, nodes) && bound <= SLOTS
    ensures Owning(owner, r.0) && |r.0| == |nodes|
  {
    if bound == 0 then (nodes, [])
    else
      var slot := bound - 1;
      var slots := KeySlots(keys);
      var (ns, rs) := RunFragments(typ, nodes, owner, keys, values, slot);
      if Members(slots, slot) == [] then (ns, rs)
      else
        var ran := RunSlot(typ, ns, owner, keys, values, slot);
        (ns[owner[slot] := ran.store], rs + [ran.reply])
  }

  /** One more slot, run at its node. */
  function RunSlot(typ: CmdType, ns: Nodes, owner: seq<nat>, keys: seq<Key>, values: seq<seq<byte>>, slot: nat): Ran
    requires |keys| == |values| && Splittable(typ) && Owning(owner, ns) && slot < SLOTS
  {
    var slots := KeySlots(keys);
    Perform(typ, ns[owner[slot]], Part(keys, slots, slot), Part(values, slots, slot))
  }

  /** What holds for `key` once the slots below `bound` have been served. */
  function Partly(typ: CmdType, whole: Store, keys: seq<Key>, values: seq<seq<byte>>, bound: nat, key: Key): Option<seq<byte>>
    requires |keys| == |values|
  {
    if Slot(key) < bound then After(typ, keys, values, key, Lookup(whole, key)) else Lookup(whole, key)
  }

  lemma {:induction false} FragmentsEffect(typ: CmdType, nodes: Nodes, owner: seq<nat>, whole: Store,
                                           keys: seq<Key>, values: seq<seq<byte>>, bound: nat, key: Key)
    requires |keys| == |values| && Splittable(typ) && Owning(owner, nodes) && bound <= SLOTS
    requires Agree(nodes, owner, whole)
    ensures Lookup(RunFragments(typ, nodes, owner, keys, values, bound).0[owner[Slot(key)]], key) ==
            Partly(typ, whole, keys, values, bound, key)
  {
    hide RunFragments;
    hide Slot;
    hide RunSlot;
    hide Members;
    hide KeySlots;
    hide Partly;
    hide After;
    hide Agree;
    AgreeAt(nodes, owner, whole, key);
    FragmentsStart(typ, nodes, owner, keys, values);
    if bound > 0 {
      var slot := bound - 1;
      FragmentsEffect(typ, nodes, owner, whole, keys, values, slot, key);
      EffectStep(typ, nodes, owner, keys, values, slot, key);
      PartlyStep(typ, whole, keys, values, slot, key);
    } else {
      PartlyNothing(typ, whole, keys, values, key);
    }
  }

  /** What serving one more slot does to the value of `key` at its node. */
  lemma EffectStep(typ: CmdType, nodes: Nodes, owner: seq<nat>, keys: seq<Key>, values: seq<seq<byte>>, slot: nat, key: Key)
    requires |keys| == |values| && Splittable(typ) && Owning(owner, nodes) && slot < SLOTS
    ensures var before := Lookup(RunFragments(typ, nodes, owner, keys, values, slot).0[owner[Slot(key)]], key);
            Lookup(RunFragments(typ, nodes, owner, keys, values, slot + 1).0[owner[Slot(key)]], key) ==
            if Slot(key) == slot && Members(KeySlots(keys), slot) != [] then After(typ, keys, values, key, before) else before
  {
    hide RunFragments;
    hide Slot;
    hide RunSlot;
    hide Members;
    hide KeySlots;
    hide After;
    FragmentsStep(typ, nodes, owner, keys, values, slot);
    var ns := RunFragments(typ, nodes, owner, keys, values, slot).0;
    if owner[slot] == owner[Slot(key)] {
      SlotEffect(typ, ns, owner, keys, values, slot, key);
    }
  }

  lemma AgreeAt(nodes: Nodes, owner: seq<nat>, whole: Store, key: Key)
    requires Owning(owner, nodes) && Agree(nodes, owner, whole)
    ensures Lookup(nodes[owner[Slot(key)]], key) == Lookup(whole, key)
  {}

  lemma PartlyNothing(typ: CmdType, whole: Store, keys: seq<Key>, values: seq<seq<byte>>, key: Key)
    requires |keys| == |values|
    ensures Partly(typ, whole, keys, values, 0, key) == Lookup(whole, key)
  {}

  lemma PartlyStep(typ: CmdType, whole: Store, keys: seq<Key>, values: seq<seq<byte>>, slot: nat, key: Key)
    requires |keys| == |values|
    ensures var before := Partly(typ, whole, keys, values, slot, key);
            Partly(typ, whole, keys, values, slot + 1, key) ==
            if Slot(key) == slot && Members(KeySlots(keys), slot) != [] then After(typ, keys, values, key, before)
            else before
  {
    hide Slot;
    var slots := KeySlots(keys);
    if Slot(key) == slot && Members(slots, slot) == [] {
      PartLocal(typ, keys, values, slot, key, Lookup(whole, key));
      AfterNothing(typ, key, Lookup(whole, key));
      assert Part(keys, slots, slot) == [] && Part(values, slots, slot) == [];
    }
  }

  lemma SlotEffect(typ: CmdType, ns: Nodes, owner: seq<nat>, keys: seq<Key>, values: seq<seq<byte>>, slot: nat, key: Key)
    requires |keys| == |values| && Splittable(typ) && Owning(owner, ns) && slot < SLOTS
    ensures var before := Lookup(ns[owner[slot]], key);
            Lookup(RunSlot(typ, ns, owner, keys, values, slot).store, key) ==
            if Slot(key) == slot then After(typ, keys, values, key, before) else before
  {
    hide Slot;
    hide Part;
    hide Perform;
    var slots := KeySlots(keys);
    RunPointwise(typ, ns[owner[slot]], Part(keys, slots, slot), Part(values, slots, slot), key);
    PartLocal(typ, keys, values, slot, key, Lookup(ns[owner[slot]], key));
  }

  /** `rs` are the replies of the fragments of the slots `occ`, each as if run alone on `whole`. */
  ghost predicate AnswersAlone(typ: CmdType, whole: Store, keys: seq<Key>, values: seq<seq<byte>>,
                               occ: seq<nat>, rs: seq<Reply>)
    requires |keys| == |values| && Splittable(typ)
  {
    var slots := KeySlots(keys);
    |rs| == |occ| &&
    forall j :: 0 <= j < |occ| ==>
      rs[j] == Perform(typ, whole, Part(keys, slots, occ[j]), Part(values, slots, occ[j])).reply
  }

  lemma OneMoreAnswer(typ: CmdType, whole: Store, keys: seq<Key>, values: seq<seq<byte>>,
                      occ: seq<nat>, rs: seq<Reply>, slot: nat, r: Reply)
    requires |keys| == |values| && Splittable(typ) && AnswersAlone(typ, whole, keys, values, occ, rs)
    requires var slots := KeySlots(keys); r == Perform(typ, whole, Part(keys, slots, slot), Part(values, slots, slot)).reply
    ensures AnswersAlone(typ, whole, keys, values, occ + [slot], rs + [r])
  {
    hide Perform;
    hide Part;
    hide KeySlots;
  }

  lemma SlotReply(typ: CmdType, nodes: Nodes, owner: seq<nat>, whole: Store,
                  keys: seq<Key>, values: seq<seq<byte>>, slot: nat)
    requires |keys| == |values| && Splittable(typ) && Owning(owner, nodes) && slot < SLOTS
    requires Agree(nodes, owner, whole)
    ensures var slots := KeySlots(keys);
            var ns := RunFragments(typ, nodes, owner, keys, values, slot).0;
            RunSlot(typ, ns, owner, keys, values, slot).reply ==
            Perform(typ, whole, Part(keys, slots, slot), Part(values, slots, slot)).reply
  {
    hide Slot;
    hide Part;
    hide Perform;
    hide Agree;
    hide Occupied;
    hide Members;
    hide RunFragments;
    var slots := KeySlots(keys);
    var ns := RunFragments(typ, nodes, owner, keys, values, slot).0;
    var ks, vs := Part(keys, slots, slot), Part(values, slots, slot);
    forall k | k in ks
      ensures Lookup(ns[owner[slot]], k) == Lookup(whole, k)
    {
      var j :| 0 <= j < |ks| && ks[j] == k;
      assert slots[Members(slots, slot)[j]] == slot;
      FragmentsEffect(typ, nodes, owner, whole, keys, values, slot, k);
    }
    ReplyDepends(typ, ns[owner[slot]], whole, ks, vs);
  }

  lemma NoAnswers(typ: CmdType, nodes: Nodes, owner: seq<nat>, whole: Store, keys: seq<Key>, values: seq<seq<byte>>)
    requires |keys| == |values| && Splittable(typ) && Owning(owner, nodes)
    ensures AnswersAlone(typ, whole, keys, values, Occupied(KeySlots(keys), 0),
                         RunFragments(typ, nodes, owner, keys, values, 0).1)
  {
    hide Perform;
    hide Part;
    hide KeySlots;
  }

  lemma FragmentsReplyStep(typ: CmdType, nodes: Nodes, owner: seq<nat>, whole: Store,
                           keys: seq<Key>, values: seq<seq<byte>>, slot: nat)
    requires |keys| == |values| && Splittable(typ) && Owning(owner, nodes) && slot < SLOTS
    requires Agree(nodes, owner, whole)
    requires AnswersAlone(typ, whole, keys, values, Occupied(KeySlots(keys), slot),
                          RunFragments(typ, nodes, owner, keys, values, slot).1)
    ensures AnswersAlone(typ, whole, keys, values, Occupied(KeySlots(keys), slot + 1),
                         RunFragments(typ, nodes, owner, keys, values, slot + 1).1)
  {
    hide RunSlot;
    hide Perform;
    hide AnswersAlone;
    hide Members;
    hide Agree;
    var slots := KeySlots(keys);
    if Members(slots, slot) != [] {
      SlotReply(typ, nodes, owner, whole, keys, values, slot);
      var (ns, rs) := RunFragments(typ, nodes, owner, keys, values, slot);
      OneMoreAnswer(typ, whole, keys, values, Occupied(slots, slot), rs, slot,
                    RunSlot(typ, ns, owner, keys, values, slot).reply);
    } else {
      assert Occupied(slots, slot + 1) == Occupied(slots, slot);
    }
  }

  /** Every fragment answers as if it had been run on the whole store by itself. */
  lemma {:induction false} FragmentsReply(typ: CmdType, nodes: Nodes, owner: seq<nat>, whole: Store,
                                          keys: seq<Key>, values: seq<seq<byte>>, bound: nat)
    requires |keys| == |values| && Splittable(typ) && Owning(owner, nodes) && bound <= SLOTS
    requires Agree(nodes, owner, whole)
    ensures AnswersAlone(typ, whole, keys, values, Occupied(KeySlots(keys), bound),
                         RunFragments(typ, nodes, owner, keys, values, bound).1)
  {
    hide AnswersAlone;
    hide RunFragments;
    hide Occupied;
    hide Agree;
    if bound == 0 {
      NoAnswers(typ, nodes, owner, whole, keys, values);
    } else {
      FragmentsReply(typ, nodes, owner, whole, keys, values, bound - 1);
      FragmentsReplyStep(typ, nodes, owner, whole, keys, values, bound - 1);
    }
  }

  /** The sum of the fragments' counts is the count of the whole DEL. */
  lemma {:induction false} CountsAddUp(nodes: Nodes, owner: seq<nat>, whole: Store, keys: seq<Key>, bound: nat)
    requires Owning(owner, nodes) && bound <= SLOTS && Agree(nodes, owner, whole)
    ensures var rs := RunFragments(DEL, nodes, owner, keys, keys, bound).1;
            CountsOnly(Somes(rs)) && Total(Somes(rs)) == DeletedBelow(whole, keys, bound)
  {
    hide RunFragments;
    hide Slot;
    hide Part;
    hide Delete;
    hide RunSlot;
    hide Members;
    hide KeySlots;
    hide Agree;
    hide CountsOnly;
    hide Deleted;
    hide Total;
    NothingDeleted(whole);
    FragmentsStart(DEL, nodes, owner, keys, keys);
    NoneChecked(DEL);
    assert Somes<Reply>([]) == [];
    if bound > 0 {
      var slot := bound - 1;
      var slots := KeySlots(keys);
      var part := Part(keys, slots, slot);
      CountsAddUp(nodes, owner, whole, keys, slot);
      FragmentsStep(DEL, nodes, owner, keys, keys, slot);
      DeleteCounts(whole, part);
      var (ns, rs) := RunFragments(DEL, nodes, owner, keys, keys, slot);
      if Members(slots, slot) != [] {
        SlotReply(DEL, nodes, owner, whole, keys, keys, slot);
        TotalSnoc(rs, RunSlot(DEL, ns, owner, keys, keys, slot).reply);
      } else {
        assert part == [];
      }
    }
  }

  lemma NothingDeleted(store: Store)
    ensures Deleted(store, []) == 0
  {}

  lemma TotalSnoc(rs: seq<Reply>, r: Reply)
    requires r.Integer? && CountsOnly(Somes(rs))
    ensures CountsOnly(Somes(rs + [r])) && Total(Somes(rs + [r])) == Total(Somes(rs)) + r.i
  {
    assert Somes(rs + [r])[..|rs|] == Somes(rs);
  }

  lemma FragmentsStart(typ: CmdType, nodes: Nodes, owner: seq<nat>, keys: seq<Key>, values: seq<seq<byte>>)
    requires |keys| == |values| && Splittable(typ) && Owning(owner, nodes)
    ensures RunFragments(typ, nodes, owner, keys, values, 0) == (nodes, [])
  {}

  /** One more slot. */
  lemma FragmentsStep(typ: CmdType, nodes: Nodes, owner: seq<nat>, keys: seq<Key>, values: seq<seq<byte>>, slot: nat)
    requires |keys| == |values| && Splittable(typ) && Owning(owner, nodes) && slot < SLOTS
    ensures var (ns, rs) := RunFragments(typ, nodes, owner, keys, values, slot);
            var ran := RunSlot(typ, ns, owner, keys, values, slot);
            RunFragments(typ, nodes, owner, keys, values, slot + 1) ==
            if Members(KeySlots(keys), slot) == [] then (ns, rs)
            else (ns[owner[slot] := ran.store], rs + [ran.reply])
  {
    hide RunSlot;
    hide Members;
    hide KeySlots;
    hide Occupied;
  }

  /** A command never answers with something that its own merge would object to. */
  lemma AnswersWell(typ: CmdType, store: Store, keys: seq<Key>, values: seq<seq<byte>>)
    requires |keys| == |values| && Splittable(typ)
    ensures Problem(typ, Some(Perform(typ, store, keys, values).reply)) == None
  {
    hide Delete;
    hide Assign;
  }

  lemma NoProblems(typ: CmdType, nodes: Nodes, owner: seq<nat>, whole: Store, keys: seq<Key>, values: seq<seq<byte>>)
    requires |keys| == |values| && Splittable(typ) && Owning(owner, nodes) && Agree(nodes, owner, whole)
    ensures FirstProblem(typ, Somes(RunFragments(typ, nodes, owner, keys, values, SLOTS).1)) == None
  {
    hide RunFragments;
    hide Perform;
    hide Part;
    hide Problem;
    hide Agree;
    hide Occupied;
    hide KeySlots;
    FragmentsReply(typ, nodes, owner, whole, keys, values, SLOTS);
    var slots := KeySlots(keys);
    var occ := Occupied(slots, SLOTS);
    var rs := RunFragments(typ, nodes, owner, keys, values, SLOTS).1;
    forall k | 0 <= k < |rs|
      ensures Problem(typ, Somes(rs)[k]) == None
    {
      AnswersWell(typ, whole, Part(keys, slots, occ[k]), Part(values, slots, occ[k]));
    }
  }

  lemma SplitKeepsStore(typ: CmdType, nodes: Nodes, owner: seq<nat>, whole: Store, keys: seq<Key>, values: seq<seq<byte>>)
    requires |keys| == |values| && Splittable(typ) && Owning(owner, nodes) && Agree(nodes, owner, whole)
    ensures Agree(RunFragments(typ, nodes, owner, keys, values, SLOTS).0, owner, Perform(typ, whole, keys, values).store)
  {
    hide RunFragments;
    hide Perform;
    hide After;
    var ns := RunFragments(typ, nodes, owner, keys, values, SLOTS).0;
    forall k: Key
      ensures Lookup(ns[owner[Slot(k)]], k) == Lookup(Perform(typ, whole, keys, values).store, k)
    {
      FragmentsEffect(typ, nodes, owner, whole, keys, values, SLOTS, k);
      RunPointwise(typ, whole, keys, values, k);
    }
  }

  /** The array of every slot lists, in order, what `elems` has for the keys of that slot. */
  ghost predicate ListedBySlot(elems: seq<Reply>, rs: seq<Reply>, slots: seq<nat>) {
    var occ := Occupied(slots, SLOTS);
    |elems| == |slots| && |rs| == |occ| &&
    forall j :: 0 <= j < |occ| ==> rs[j] == Arr(Part(elems, slots, occ[j]))
  }

  /** From the fragments' replies the merge makes `reply`: counts add up, arrays interleave. */
  ghost predicate MergesTo(typ: CmdType, rs: seq<Reply>, slots: seq<nat>, reply: Reply)
    requires Splittable(typ)
  {
    FirstProblem(typ, Somes(rs)) == None &&
    if typ == DEL then reply == Integer(Total(Somes(rs)))
    else if typ == MSET then reply == Status(OK)
    else reply.Arr? && ListedBySlot(reply.elems, rs, slots)
  }

  lemma MgetListed(nodes: Nodes, owner: seq<nat>, whole: Store, keys: seq<Key>, values: seq<seq<byte>>)
    requires |keys| == |values| && Owning(owner, nodes) && Agree(nodes, owner, whole)
    ensures ListedBySlot(ReadAll(whole, keys), RunFragments(MGET, nodes, owner, keys, values, SLOTS).1, KeySlots(keys))
  {
    hide RunFragments;
    hide Part;
    hide Agree;
    hide Occupied;
    FragmentsReply(MGET, nodes, owner, whole, keys, values, SLOTS);
    var slots := KeySlots(keys);
    var occ := Occupied(slots, SLOTS);
    var rs := RunFragments(MGET, nodes, owner, keys, values, SLOTS).1;
    forall j | 0 <= j < |occ|
      ensures rs[j] == Arr(Part(ReadAll(whole, keys), slots, occ[j]))
    {
      PartReads(whole, keys, slots, occ[j]);
    }
  }

  /**
   The fragments, run in ascending slot order at their nodes, leave the cluster in the state
   that the whole command leaves the whole store in, and their replies merge to the reply
   of the whole command.
   */
  lemma SplitPreserves(typ: CmdType, nodes: Nodes, owner: seq<nat>, whole: Store, keys: seq<Key>, values: seq<seq<byte>>)
    requires |keys| == |values| && Splittable(typ) && Owning(owner, nodes) && Agree(nodes, owner, whole)
    ensures var (ns, rs) := RunFragments(typ, nodes, owner, keys, values, SLOTS);
            Agree(ns, owner, Perform(typ, whole, keys, values).store) &&
            MergesTo(typ, rs, KeySlots(keys), Perform(typ, whole, keys, values).reply)
  {
    hide RunFragments;
    hide Delete;
    hide Assign;
    hide ListedBySlot;
    hide Agree;
    hide Total;
    hide FirstProblem;
    SplitKeepsStore(typ, nodes, owner, whole, keys, values);
    NoProblems(typ, nodes, owner, whole, keys, values);
    if typ == DEL {
      DelTotal(nodes, owner, whole, keys, values);
    } else if typ == MGET {
      MgetListed(nodes, owner, whole, keys, values);
    }
  }

  lemma PartReads(whole: Store, keys: seq<Key>, slots: seq<nat>, slot: nat)
    requires |keys| == |slots|
    ensures ReadAll(whole, Part(keys, slots, slot)) == Part(ReadAll(whole, keys), slots, slot)
  {}

  lemma {:induction false} DelIgnoresValues(nodes: Nodes, owner: seq<nat>, keys: seq<Key>, values: seq<seq<byte>>, bound: nat)
    requires |keys| == |values| && Owning(owner, nodes) && bound <= SLOTS
    ensures RunFragments(DEL, nodes, owner, keys, values, bound) == RunFragments(DEL, nodes, owner, keys, keys, bound)
  {
    hide RunFragments;
    hide RunSlot;
    hide Members;
    hide KeySlots;
    hide Occupied;
    FragmentsStart(DEL, nodes, owner, keys, values);
    FragmentsStart(DEL, nodes, owner, keys, keys);
    if bound > 0 {
      var slot := bound - 1;
      DelIgnoresValues(nodes, owner, keys, values, slot);
      FragmentsStep(DEL, nodes, owner, keys, values, slot);
      FragmentsStep(DEL, nodes, owner, keys, keys, slot);
      DelSlotIgnoresValues(RunFragments(DEL, nodes, owner, keys, keys, slot).0, owner, keys, values, slot);
    }
  }

  lemma DelSlotIgnoresValues(ns: Nodes, owner: seq<nat>, keys: seq<Key>, values: seq<seq<byte>>, slot: nat)
    requires |keys| == |values| && Owning(owner, ns) && slot < SLOTS
    ensures RunSlot(DEL, ns, owner, keys, values, slot) == RunSlot(DEL, ns, owner, keys, keys, slot)
  {
    hide Delete;
    hide Part;
    hide KeySlots;
  }

  lemma DelTotal(nodes: Nodes, owner: seq<nat>, whole: Store, keys: seq<Key>, values: seq<seq<byte>>)
    requires |keys| == |values| && Owning(owner, nodes) && Agree(nodes, owner, whole)
    ensures var rs := RunFragments(DEL, nodes, owner, keys, values, SLOTS).1;
            CountsOnly(Somes(rs)) && Total(Somes(rs)) == Delete(whole, keys).1
  {
    hide RunFragments;
    hide CountsOnly;
    DelIgnoresValues(nodes, owner, keys, values, SLOTS);
    CountsAddUp(nodes, owner, whole, keys, SLOTS);
    DeletedSplits(whole, keys);
    DeleteCounts(whole, keys);
  }
}
