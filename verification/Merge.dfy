/**
 Putting the answers of the fragments together (hircluster.cpp command_post_fragment).
 The MGET answer is filled from the last key to the first: every key takes the last
 element that is still left in the reply of its fragment.
 */
module Merge {
  import opened Bytes
  import opened CommandTable
  import opened Resp
  import opened FragmentLayout
  import opened HashSlot
  import opened Fragment

  /**
   What is handed to the caller; NoReply, Mistyped and Exhausted are NULL, the last two with an
   error message. An array reply with a count below -1 has no elements but a count that is not
   zero, and is read through its null pointer: ReadsNull.
   */
  datatype MergeResult = Answer(reply: Reply) | NoReply | Mistyped | Exhausted | ReadsNull

  const OK: seq<byte> := [79, 75]

  /** What is wrong with one fragment's reply, if anything. An error reply is passed on. */
  function Problem(typ: CmdType, r: Option<Reply>): Option<MergeResult>
    requires Splittable(typ)
  {
    if r.None? then Some(NoReply)
    else if r.value.Error? then Some(Answer(r.value))
    else if typ == MGET then if r.value.Arr? || r.value.NegArray? then None else Some(Mistyped)
    else if typ == DEL then if r.value.Integer? then None else Some(Mistyped)
    else if r.value == Status(OK) then None else Some(Mistyped)
  }

  /** The problem of the first fragment that has one. */
  function FirstProblem(typ: CmdType, replies: seq<Option<Reply>>): (p: Option<MergeResult>)
    requires Splittable(typ)
    ensures p.None? <==> forall k :: 0 <= k < |replies| ==> Problem(typ, replies[k]) == None
  {
    if replies == [] then None
    else
      var n := |replies| - 1;
      var p := FirstProblem(typ, replies[..n]);
      if p.Some? then p else Problem(typ, replies[n])
  }

  /** It is that of the first fragment that has one. */
  lemma {:induction false} FirstProblemIsFirst(typ: CmdType, replies: seq<Option<Reply>>, k: nat)
    requires Splittable(typ) && k < |replies|
    ensures Problem(typ, replies[k]).Some? && (forall l :: 0 <= l < k ==> Problem(typ, replies[l]) == None) ==>
              FirstProblem(typ, replies) == Problem(typ, replies[k])
  {
    hide Problem;
    var n := |replies| - 1;
    if k < n {
      FirstProblemIsFirst(typ, replies[..n], k);
    }
  }

  lemma ProblemsStep(typ: CmdType, replies: seq<Option<Reply>>, k: nat)
    requires Splittable(typ) && k < |replies| && FirstProblem(typ, replies[..k]) == None
    ensures FirstProblem(typ, replies[..k + 1]) == Problem(typ, replies[k])
    ensures typ == DEL && Problem(typ, replies[k]).None? ==>
              replies[k].Some? && replies[k].value.Integer? && CountsOnly(replies[..k]) && CountsOnly(replies[..k + 1]) &&
              Total(replies[..k + 1]) == Total(replies[..k]) + replies[k].value.i
  {
    assert replies[..k + 1][..k] == replies[..k];
    if typ == DEL && Problem(typ, replies[k]).None? {
      NoProblemCounts(replies[..k]);
      NoProblemCounts(replies[..k + 1]);
    }
  }

  predicate CountsOnly(replies: seq<Option<Reply>>) {
    forall k :: 0 <= k < |replies| ==> replies[k].Some? && replies[k].value.Integer?
  }

  lemma NoProblemCounts(replies: seq<Option<Reply>>)
    requires FirstProblem(DEL, replies) == None
    ensures CountsOnly(replies)
  {
    hide FirstProblem;
    forall k | 0 <= k < |replies|
      ensures replies[k].Some? && replies[k].value.Integer?
    {
      assert Problem(DEL, replies[k]) == None;
    }
  }

  function Total(replies: seq<Option<Reply>>): int
    requires CountsOnly(replies)
  {
    if replies == [] then 0 else Total(replies[..|replies| - 1]) + replies[|replies| - 1].value.i
  }

  function Replies(commands: seq<Cmd>): (r: seq<Option<Reply>>)
    reads commands
    ensures |r| == |commands| && forall k :: 0 <= k < |commands| ==> r[k] == commands[k].reply
  {
    seq(|commands|, k requires 0 <= k < |commands| reads commands => commands[k].reply)
  }

  /** How many of the keys before `i` have the slot of key `i`. */
  function Rank(slots: seq<nat>, i: nat): (r: nat)
    requires i < |slots|
    ensures r < |Members(slots, slots[i])|
  {
    RankBelow(slots, i);
    |Members(slots[..i], slots[i])|
  }

  lemma {:induction false} MembersMonotone(slots: seq<nat>, i: nat, slot: nat)
    requires i <= |slots|
    ensures |Members(slots[..i], slot)| <= |Members(slots, slot)|
    decreases |slots| - i
  {
    if i < |slots| {
      MembersMonotone(slots, i + 1, slot);
      MembersStep(slots, i, slot);
    } else {
      assert slots[..i] == slots;
    }
  }

  lemma RankBelow(slots: seq<nat>, i: nat)
    requires i < |slots|
    ensures |Members(slots[..i], slots[i])| < |Members(slots, slots[i])|
  {
    MembersMonotone(slots, i + 1, slots[i]);
    MembersStep(slots, i, slots[i]);
  }

  /** Key `i` is the rank-th key of its slot. */
  lemma {:induction false} RankIsPlace(slots: seq<nat>, i: nat)
    requires i < |slots|
    ensures Members(slots, slots[i])[Rank(slots, i)] == i
  {
    var n := |slots| - 1;
    if i < n {
      RankIsPlace(slots[..n], i);
      assert slots[..n][..i] == slots[..i];
    }
  }

  /** How many elements the keys from `i` on take out of the reply of `slot`. */
  function Taken(slots: seq<nat>, i: nat, slot: nat): nat
    requires i <= |slots|
  {
    MembersMonotone(slots, i, slot);
    |Members(slots, slot)| - |Members(slots[..i], slot)|
  }

  lemma TakenStep(slots: seq<nat>, i: nat, slot: nat)
    requires i < |slots|
    ensures Taken(slots, i, slot) == Taken(slots, i + 1, slot) + if slots[i] == slot then 1 else 0
    ensures Taken(slots, |slots|, slot) == 0 && Taken(slots, 0, slot) == |Members(slots, slot)|
    ensures Taken(slots, i + 1, slots[i]) == |Members(slots, slots[i])| - Rank(slots, i) - 1
  {
    MembersStep(slots, i, slot);
    MembersStep(slots, i, slots[i]);
    assert slots[..|slots|] == slots;
  }

  /** The element of its fragment's reply that key `i` receives: counted from the back. */
  function Share(elems: seq<Reply>, slots: seq<nat>, i: nat): Reply
    requires i < |slots| && |Members(slots, slots[i])| <= |elems|
  {
    elems[|elems| - |Members(slots, slots[i])| + Rank(slots, i)]
  }

  /** When the fragment answered one element per key, that is the element of the key's own rank. */
  lemma ShareOfFullReply(elems: seq<Reply>, slots: seq<nat>, i: nat)
    requires i < |slots| && |elems| == |Members(slots, slots[i])|
    ensures Share(elems, slots, i) == elems[Rank(slots, i)]
    ensures Members(slots, slots[i])[Rank(slots, i)] == i
  {
    RankIsPlace(slots, i);
  }

  ghost predicate Distinct(commands: seq<Cmd>)
    reads commands
  {
    forall k, l :: 0 <= k < l < |commands| ==> commands[k].slot_num != commands[l].slot_num
  }

  /** The reply of `c` has lost its last `taken` elements. */
  ghost predicate Left(c: Cmd, elems: seq<Reply>, taken: nat)
    reads c
  {
    taken <= |elems| && c.reply == Some(Arr(elems[..|elems| - taken]))
  }

  /** Takes the last element of a fragment's reply; the reply shrinks in place. */
  method Pop(c: Cmd, ghost elems: seq<Reply>, ghost taken: nat) returns (e: Option<Reply>)
    requires Left(c, elems, taken)
    modifies c`reply
    ensures taken < |elems| ==> e == Some(elems[|elems| - taken - 1]) && Left(c, elems, taken + 1)
    ensures taken == |elems| ==> e == None && c.reply == old(c.reply)
  {
    var es := c.reply.value.elems;
    if |es| == 0 {
      return None;
    }
    e := Some(es[|es| - 1]);
    assert es[..|es| - 1] == elems[..|elems| - (taken + 1)];
    c.reply := Some(Arr(es[..|es| - 1]));
  }

  /** The elements of the array replies. */
  type Elems = map<Cmd, seq<Reply>>

  ghost predicate HasNoElements(c: Cmd)
    reads c
  {
    c.reply.Some? && c.reply.value.NegArray?
  }

  /** Every fragment's reply has lost what the keys from `i` on take. */
  ghost predicate TakenFrom(commands: seq<Cmd>, all: Elems, slots: seq<nat>, i: nat)
    requires i <= |slots|
    reads commands
  {
    forall c :: c in commands ==>
      c.slot_num >= 0 && if c in all then Left(c, all[c], Taken(slots, i, c.slot_num)) else HasNoElements(c)
  }

  /** Every fragment has at least one element for each of its keys. */
  ghost predicate Enough(frag_seq: seq<Cmd>, all: Elems, slots: seq<nat>) {
    |frag_seq| == |slots| &&
    forall i :: 0 <= i < |slots| ==> frag_seq[i] in all && |Members(slots, slots[i])| <= |all[frag_seq[i]]|
  }

  /** The keys from `from` on have received what was last in their fragment's reply. */
  ghost predicate Received(element: seq<Reply>, frag_seq: seq<Cmd>, all: Elems, slots: seq<nat>, from: nat) {
    |element| == |slots| == |frag_seq| &&
    forall i :: from <= i < |slots| ==>
      frag_seq[i] in all && Taken(slots, i + 1, slots[i]) < |all[frag_seq[i]]| &&
      element[i] == all[frag_seq[i]][|all[frag_seq[i]]| - Taken(slots, i + 1, slots[i]) - 1]
  }

  /** Every key has received its share. */
  ghost predicate Shared(element: seq<Reply>, frag_seq: seq<Cmd>, all: Elems, slots: seq<nat>)
    requires Enough(frag_seq, all, slots)
  {
    |element| == |slots| &&
    forall i :: 0 <= i < |slots| ==> element[i] == Share(all[frag_seq[i]], slots, i)
  }

  lemma AllReceived(commands: seq<Cmd>, element: seq<Reply>, frag_seq: seq<Cmd>, all: Elems, slots: seq<nat>)
    requires Leads(frag_seq, commands, slots) && TakenFrom(commands, all, slots, 0)
    requires Received(element, frag_seq, all, slots, 0)
    ensures Enough(frag_seq, all, slots) && Shared(element, frag_seq, all, slots)
  {
    hide Taken;
    hide Members;
    hide Rank;
    forall i | 0 <= i < |slots|
      ensures frag_seq[i] in all && |Members(slots, slots[i])| <= |all[frag_seq[i]]|
      ensures element[i] == Share(all[frag_seq[i]], slots, i)
    {
      TakenStep(slots, i, slots[i]);
      assert Left(frag_seq[i], all[frag_seq[i]], Taken(slots, 0, slots[i]));
    }
  }

  datatype Take = Element(reply: Reply) | Empty | NullArray

  /** Key `i` finds nothing left in the reply of its fragment, or no array at all. */
  ghost predicate Fails(frag_seq: seq<Cmd>, all: Elems, slots: seq<nat>, i: nat)
    requires i < |slots| == |frag_seq|
  {
    frag_seq[i] !in all || |all[frag_seq[i]]| <= Taken(slots, i + 1, slots[i])
  }

  /** It is the first to fail, the keys being served from the last to the first. */
  ghost predicate StopsAt(frag_seq: seq<Cmd>, all: Elems, slots: seq<nat>, i: nat) {
    i < |slots| == |frag_seq| && Fails(frag_seq, all, slots, i) &&
    forall j :: i < j < |slots| ==> !Fails(frag_seq, all, slots, j)
  }

  /** One key of the backward loop. */
  method TakeOne(commands: seq<Cmd>, frag_seq: seq<Cmd>, ghost all: Elems, ghost slots: seq<nat>, i: nat) returns (e: Take)
    requires Leads(frag_seq, commands, slots) && Distinct(commands) && i < |slots|
    requires TakenFrom(commands, all, slots, i + 1)
    modifies commands
    ensures Leads(frag_seq, commands, slots) && Distinct(commands)
    ensures e.NullArray? <==> frag_seq[i] !in all
    ensures frag_seq[i] in all ==>
              var left := |all[frag_seq[i]]| - Taken(slots, i + 1, slots[i]);
              if left > 0 then TakenFrom(commands, all, slots, i) && e == Element(all[frag_seq[i]][left - 1]) else e == Empty
  {
    hide Members;
    hide Taken;
    var c := frag_seq[i];
    TakenStep(slots, i, slots[i]);
    if c.reply.value.NegArray? {
      return NullArray;
    }
    assert Left(c, all[c], Taken(slots, i + 1, c.slot_num));
    var r := Pop(c, all[c], Taken(slots, i + 1, slots[i]));
    if r.None? {
      return Empty;
    }
    e := Element(r.value);
    forall d | d in commands
      ensures if d in all then Left(d, all[d], Taken(slots, i, d.slot_num)) else HasNoElements(d)
    {
      TakenStep(slots, i, d.slot_num);
      if d != c && d in all {
        assert old(Left(d, all[d], Taken(slots, i + 1, d.slot_num)));
      }
    }
  }

  lemma Shortage(frag_seq: seq<Cmd>, all: Elems, slots: seq<nat>, i: nat)
    requires |frag_seq| == |slots| && i < |slots| && Fails(frag_seq, all, slots, i)
    ensures !Enough(frag_seq, all, slots)
  {
    TakenStep(slots, i, slots[i]);
  }

  /** The keys from `i` on have received something, so none of them has failed. */
  lemma ReceivedIsNoFailure(element: seq<Reply>, frag_seq: seq<Cmd>, all: Elems, slots: seq<nat>, i: nat)
    requires Received(element, frag_seq, all, slots, i)
    ensures forall j :: i <= j < |slots| ==> !Fails(frag_seq, all, slots, j)
  {
    hide Taken;
  }

  /**
   The MGET answer: key i gets its share, each fragment's reply loses exactly one element per
   key of its slot, and is used up exactly when it had no more. This fails exactly when some
   fragment has answered too few elements, in the way of the last key that finds none.
   */
  method MergeMget(commands: seq<Cmd>, frag_seq: seq<Cmd>, ghost all: Elems, ghost slots: seq<nat>) returns (out: MergeResult)
    requires Leads(frag_seq, commands, slots) && Distinct(commands)
    requires TakenFrom(commands, all, slots, |slots|)
    modifies commands
    ensures MgetMerged(out, commands, frag_seq, all, slots)
    ensures Enough(frag_seq, all, slots) ==>
              forall c :: c in commands && c in all ==> (c.reply == Some(Arr([])) <==> |all[c]| == |Members(slots, c.slot_num)|)
  {
    hide Taken;
    hide Members;
    hide Distinct;
    hide Fails;
    var element := new Reply[|frag_seq|](_ => Nil);
    var i := |frag_seq|;
    while i > 0
      invariant 0 <= i <= |frag_seq| && fresh(element)
      invariant Leads(frag_seq, commands, slots) && Distinct(commands)
      invariant TakenFrom(commands, all, slots, i) && Received(element[..], frag_seq, all, slots, i)
    {
      i := i - 1;
      ReceivedIsNoFailure(element[..], frag_seq, all, slots, i + 1);
      var e := TakeOne(commands, frag_seq, all, slots, i);
      if !e.Element? {
        TakeFailed(frag_seq, all, slots, i);
        return if e.Empty? then Exhausted else ReadsNull;
      }
      ghost var before := element[..];
      element[i] := e.reply;
      assert element[..] == before[i := e.reply];
    }
    AllReceived(commands, element[..], frag_seq, all, slots);
    EmptiedExactly(commands, all, slots);
    return Answer(Arr(element[..]));
  }

  lemma TakeFailed(frag_seq: seq<Cmd>, all: Elems, slots: seq<nat>, i: nat)
    requires i < |slots| == |frag_seq| && (frag_seq[i] in all ==> |all[frag_seq[i]]| <= Taken(slots, i + 1, slots[i]))
    requires forall j :: i < j < |slots| ==> !Fails(frag_seq, all, slots, j)
    ensures StopsAt(frag_seq, all, slots, i) && !Enough(frag_seq, all, slots)
  {
    Shortage(frag_seq, all, slots, i);
  }

  /** Full replies are emptied, and no other reply is: one element for every key of the slot. */
  lemma EmptiedExactly(commands: seq<Cmd>, all: Elems, slots: seq<nat>)
    requires TakenFrom(commands, all, slots, 0)
    ensures forall c :: c in commands && c in all ==> (c.reply == Some(Arr([])) <==> |all[c]| == |Members(slots, c.slot_num)|)
  {
    hide Members;
    forall c | c in commands && c in all
      ensures c.reply == Some(Arr([])) <==> |all[c]| == |Members(slots, c.slot_num)|
    {
      EmptiedAt(c, all[c], slots);
    }
  }

  lemma EmptiedAt(c: Cmd, elems: seq<Reply>, slots: seq<nat>)
    requires c.slot_num >= 0 && Left(c, elems, Taken(slots, 0, c.slot_num))
    ensures c.reply == Some(Arr([])) <==> |elems| == |Members(slots, c.slot_num)|
  {
    assert slots[..0] == [];
  }

  /** The replies an MGET merge starts from. */
  ghost function ElemsOf(commands: seq<Cmd>): (all: Elems)
    requires forall c :: c in commands ==> c.reply.Some?
    reads commands
    ensures forall c :: c in commands ==> (c in all <==> c.reply.value.Arr?)
    ensures forall c :: c in commands && c in all ==> all[c] == c.reply.value.elems
  {
    map c | c in commands && c.reply.value.Arr? :: c.reply.value.elems
  }

  lemma NothingTaken(commands: seq<Cmd>, slots: seq<nat>)
    requires forall c :: c in commands ==> c.reply.Some? && (c.reply.value.Arr? || c.reply.value.NegArray?) && c.slot_num >= 0
    ensures TakenFrom(commands, ElemsOf(commands), slots, |slots|)
  {
    assert slots[..|slots|] == slots;
    forall c | c in commands && c.reply.value.Arr?
      ensures Left(c, c.reply.value.elems, Taken(slots, |slots|, c.slot_num))
    {
      var elems := c.reply.value.elems;
      assert elems[..|elems|] == elems;
    }
  }

  /** The scan over the fragments: it stops at the first problem and adds up the counts. */
  method CheckReplies(typ: CmdType, commands: seq<Cmd>) returns (problem: Option<MergeResult>, count: int)
    requires Splittable(typ)
    ensures problem == FirstProblem(typ, Replies(commands))
    ensures problem.None? && typ == DEL ==> CountsOnly(Replies(commands)) && count == Total(Replies(commands))
  {
    hide FirstProblem;
    hide Problem;
    hide Total;
    ghost var rs := Replies(commands);
    NoneChecked(typ);
    assert rs[..0] == [];
    count := 0;
    var k := 0;
    while k < |commands|
      invariant 0 <= k <= |commands| && FirstProblem(typ, rs[..k]) == None
      invariant typ == DEL ==> CountsOnly(rs[..k]) && count == Total(rs[..k])
    {
      ProblemsStep(typ, rs, k);
      problem := Problem(typ, commands[k].reply);
      if problem.Some? {
        FirstProblemStands(typ, rs, k + 1);
        return;
      }
      if typ == DEL {
        count := count + commands[k].reply.value.i;
      }
      k := k + 1;
    }
    assert rs[..k] == rs;
    return None, count;
  }

  lemma NoneChecked(typ: CmdType)
    requires Splittable(typ)
    ensures FirstProblem(typ, []) == None && CountsOnly([]) && Total([]) == 0
  {}

  lemma {:induction false} FirstProblemStands(typ: CmdType, rs: seq<Option<Reply>>, k: nat)
    requires Splittable(typ) && k <= |rs| && FirstProblem(typ, rs[..k]).Some?
    ensures FirstProblem(typ, rs) == FirstProblem(typ, rs[..k])
  {
    if k == |rs| {
      assert rs[..k] == rs;
    } else {
      assert rs[..|rs| - 1][..k] == rs[..k];
      FirstProblemStands(typ, rs[..|rs| - 1], k);
    }
  }

  /** A reply that the merge of a command of type `typ` can use. */
  predicate Usable(typ: CmdType, r: Reply) {
    if typ == MGET then r.Arr? || r.NegArray? else if typ == DEL then r.Integer? else r == Status([79, 75])
  }

  /** Reply `k` is the first that is missing or not usable. */
  predicate FirstUnfit(typ: CmdType, rs: seq<Option<Reply>>, k: nat) {
    k < |rs| && !(rs[k].Some? && Usable(typ, rs[k].value)) && forall l :: 0 <= l < k ==> rs[l].Some? && Usable(typ, rs[l].value)
  }

  /** What such a reply makes of the whole: an error is handed on as it is. */
  function Verdict(r: Option<Reply>): MergeResult {
    if r.None? then NoReply else if r.value.Error? then Answer(r.value) else Mistyped
  }

  lemma ProblemIs(typ: CmdType, r: Option<Reply>)
    requires Splittable(typ)
    ensures Problem(typ, r) == if r.Some? && Usable(typ, r.value) then None else Some(Verdict(r))
  {}

  lemma UnfitDecides(typ: CmdType, rs: seq<Option<Reply>>)
    requires Splittable(typ)
    ensures forall k :: 0 <= k < |rs| && FirstUnfit(typ, rs, k) ==> FirstProblem(typ, rs) == Some(Verdict(rs[k]))
  {
    hide FirstProblem;
    hide Problem;
    forall k | 0 <= k < |rs| && FirstUnfit(typ, rs, k)
      ensures FirstProblem(typ, rs) == Some(Verdict(rs[k]))
    {
      ProblemIs(typ, rs[k]);
      forall l | 0 <= l < k
        ensures Problem(typ, rs[l]) == None
      {
        ProblemIs(typ, rs[l]);
      }
      FirstProblemIsFirst(typ, rs, k);
    }
  }

  /** What an MGET merge has done to the replies and handed out. */
  ghost predicate MgetMerged(out: MergeResult, commands: seq<Cmd>, frag_seq: seq<Cmd>, all: Elems, slots: seq<nat>)
    reads commands
  {
    if Enough(frag_seq, all, slots) then
      out.Answer? && out.reply.Arr? && Shared(out.reply.elems, frag_seq, all, slots) &&
      TakenFrom(commands, all, slots, 0)
    else exists i: nat :: StopsAt(frag_seq, all, slots, i) && out == if frag_seq[i] in all then Exhausted else ReadsNull
  }

  /**
   command_post_fragment, for the replies of the fragments of a command whose keys have the
   slots `slots`, whatever these replies are.
   */
  method PostFragment(typ: CmdType, commands: seq<Cmd>, frag_seq: seq<Cmd>, ghost slots: seq<nat>) returns (out: MergeResult)
    requires Splittable(typ) && Leads(frag_seq, commands, slots) && Distinct(commands)
    requires forall c :: c in commands ==> c.slot_num >= 0
    modifies commands
    ensures var problem := FirstProblem(typ, old(Replies(commands)));
            if problem.Some? then out == problem.value && Replies(commands) == old(Replies(commands))
            else if typ == DEL then CountsOnly(old(Replies(commands))) && out == Answer(Integer(Total(old(Replies(commands)))))
            else if typ == MSET then out == Answer(Status(OK))
            else MgetMerged(out, commands, frag_seq, old(ElemsOf(commands)), slots)
    ensures forall k :: 0 <= k < |commands| && FirstUnfit(typ, old(Replies(commands)), k) ==> out == Verdict(old(Replies(commands))[k])
  {
    UnfitDecides(typ, Replies(commands));
    var problem, count := CheckReplies(typ, commands);
    if problem.Some? {
      return problem.value;
    }
    if typ == MGET {
      AllArrays(commands);
      NothingTaken(commands, slots);
      out := MergeMget(commands, frag_seq, ElemsOf(commands), slots);
    } else if typ == DEL {
      return Answer(Integer(count));
    } else {
      return Answer(Status(OK));
    }
  }

  lemma AllArrays(commands: seq<Cmd>)
    requires FirstProblem(MGET, Replies(commands)) == None
    ensures forall c :: c in commands ==> c.reply.Some? && (c.reply.value.Arr? || c.reply.value.NegArray?)
  {
    forall c | c in commands
      ensures c.reply.Some? && (c.reply.value.Arr? || c.reply.value.NegArray?)
    {
      var k :| 0 <= k < |commands| && commands[k] == c;
      assert Problem(MGET, Replies(commands)[k]) == None;
    }
  }

  // ------------------------------------------------------------ the answer as a function of the replies

  /** The fragments of the occupied slots, answered with `rs`. */
  ghost predicate Answered(commands: seq<Cmd>, slots: seq<nat>, rs: seq<Reply>)
    reads commands
  {
    var occ := Occupied(slots, SLOTS);
    |commands| == |occ| == |rs| &&
    forall k :: 0 <= k < |occ| ==> commands[k].slot_num == occ[k] && commands[k].reply == Some(rs[k])
  }

  lemma AnsweredReplies(commands: seq<Cmd>, slots: seq<nat>, rs: seq<Reply>)
    requires Answered(commands, slots, rs)
    ensures Replies(commands) == Somes(rs) && Distinct(commands)
    ensures forall c :: c in commands ==> c.slot_num >= 0 && c.reply.Some? && c.reply.value in rs
  {
    hide Occupied;
    var occ := Occupied(slots, SLOTS);
    forall c | c in commands
      ensures c.slot_num >= 0 && c.reply.Some? && c.reply.value in rs
    {
      var k :| 0 <= k < |commands| && commands[k] == c;
      assert rs[k] in rs;
    }
  }

  function PlaceOf(occ: seq<nat>, slot: nat): (k: nat)
    requires slot in occ
    ensures k < |occ| && occ[k] == slot
  {
    var n := |occ| - 1;
    if occ[n] == slot then n else PlaceOf(occ[..n], slot)
  }

  /** The reply of the fragment that key `i` went to. */
  function AnswerFor(slots: seq<nat>, rs: seq<Reply>, i: nat): Reply
    requires i < |slots| && slots[i] < SLOTS && |rs| == |Occupied(slots, SLOTS)|
  {
    OccupiedIs(slots, slots[i]);
    rs[PlaceOf(Occupied(slots, SLOTS), slots[i])]
  }

  predicate AllSlots(slots: seq<nat>) {
    forall i :: 0 <= i < |slots| ==> slots[i] < SLOTS
  }

  /** Key `i` finds nothing left in the reply of its fragment, or no array with elements. */
  predicate ComesShort(slots: seq<nat>, rs: seq<Reply>, i: nat)
    requires AllSlots(slots) && |rs| == |Occupied(slots, SLOTS)| && i < |slots|
  {
    var r := AnswerFor(slots, rs, i);
    !r.Arr? || |r.elems| <= Taken(slots, i + 1, slots[i])
  }

  /** The last of the first `n` keys that comes short. */
  function LastShort(slots: seq<nat>, rs: seq<Reply>, n: nat): (i: Option<nat>)
    requires AllSlots(slots) && |rs| == |Occupied(slots, SLOTS)| && n <= |slots|
    ensures i.Some? ==> i.value < n
  {
    if n == 0 then None else if ComesShort(slots, rs, n - 1) then Some(n - 1) else LastShort(slots, rs, n - 1)
  }

  lemma {:induction false} LastShortIs(slots: seq<nat>, rs: seq<Reply>, n: nat, i: nat)
    requires AllSlots(slots) && |rs| == |Occupied(slots, SLOTS)| && i < n <= |slots|
    requires ComesShort(slots, rs, i) && forall j :: i < j < n ==> !ComesShort(slots, rs, j)
    ensures LastShort(slots, rs, n) == Some(i)
  {
    hide ComesShort;
    if i < n - 1 {
      LastShortIs(slots, rs, n - 1, i);
    }
  }

  /** Every fragment lists at least one element for each of its keys. */
  predicate ListsEnough(slots: seq<nat>, rs: seq<Reply>)
    requires AllSlots(slots) && |rs| == |Occupied(slots, SLOTS)|
  {
    forall i :: 0 <= i < |slots| ==>
      AnswerFor(slots, rs, i).Arr? && |Members(slots, slots[i])| <= |AnswerFor(slots, rs, i).elems|
  }

  /** What the fragments' replies `rs` merge to, for keys with the slots `slots`. */
  function MergedValue(typ: CmdType, slots: seq<nat>, rs: seq<Reply>): MergeResult
    requires Splittable(typ) && AllSlots(slots) && |rs| == |Occupied(slots, SLOTS)|
  {
    var problem := FirstProblem(typ, Somes(rs));
    if problem.Some? then problem.value
    else if typ == DEL then
      NoProblemCounts(Somes(rs));
      Answer(Integer(Total(Somes(rs))))
    else if typ == MSET then Answer(Status(OK))
    else if ListsEnough(slots, rs) then
      Answer(Arr(seq(|slots|, i requires 0 <= i < |slots| => Share(AnswerFor(slots, rs, i).elems, slots, i))))
    else
      var i := LastShort(slots, rs, |slots|);
      if i.Some? && AnswerFor(slots, rs, i.value).Arr? then Exhausted else ReadsNull
  }

  lemma KeyAnswered(commands: seq<Cmd>, frag_seq: seq<Cmd>, slots: seq<nat>, rs: seq<Reply>, i: nat)
    requires Answered(commands, slots, rs) && Leads(frag_seq, commands, slots) && AllSlots(slots) && i < |slots|
    ensures frag_seq[i].reply == Some(AnswerFor(slots, rs, i)) && frag_seq[i] in commands
  {
    hide Occupied;
    hide Members;
    OccupiedIs(slots, slots[i]);
    var occ := Occupied(slots, SLOTS);
    var k :| 0 <= k < |commands| && commands[k] == frag_seq[i];
    assert occ[k] == occ[PlaceOf(occ, slots[i])];
  }

  /** The answers of the keys, as the collected elements have them. */
  ghost predicate Same(frag_seq: seq<Cmd>, all: Elems, slots: seq<nat>, rs: seq<Reply>)
    requires AllSlots(slots) && |rs| == |Occupied(slots, SLOTS)|
  {
    |frag_seq| == |slots| &&
    forall i :: 0 <= i < |slots| ==>
      if frag_seq[i] in all then AnswerFor(slots, rs, i) == Arr(all[frag_seq[i]]) else !AnswerFor(slots, rs, i).Arr?
  }

  lemma AnswersAreSame(commands: seq<Cmd>, frag_seq: seq<Cmd>, slots: seq<nat>, rs: seq<Reply>)
    requires Answered(commands, slots, rs) && Leads(frag_seq, commands, slots) && AllSlots(slots)
    requires forall c :: c in commands ==> c.reply.Some? && (c.reply.value.Arr? || c.reply.value.NegArray?)
    ensures |rs| == |Occupied(slots, SLOTS)| && Same(frag_seq, ElemsOf(commands), slots, rs)
  {
    hide Answered;
    hide Members;
    hide AnswerFor;
    AnsweredLength(commands, slots, rs);
    forall i | 0 <= i < |slots|
      ensures var all := ElemsOf(commands);
              if frag_seq[i] in all then AnswerFor(slots, rs, i) == Arr(all[frag_seq[i]]) else !AnswerFor(slots, rs, i).Arr?
    {
      KeyAnswered(commands, frag_seq, slots, rs, i);
    }
  }

  lemma SameFailures(frag_seq: seq<Cmd>, all: Elems, slots: seq<nat>, rs: seq<Reply>)
    requires AllSlots(slots) && |rs| == |Occupied(slots, SLOTS)| && Same(frag_seq, all, slots, rs)
    ensures Enough(frag_seq, all, slots) <==> ListsEnough(slots, rs)
    ensures forall i :: 0 <= i < |slots| ==> (Fails(frag_seq, all, slots, i) <==> ComesShort(slots, rs, i))
  {
    hide Members;
    hide AnswerFor;
    hide Taken;
  }

  lemma MgetValue(out: MergeResult, commands: seq<Cmd>, frag_seq: seq<Cmd>, slots: seq<nat>, rs: seq<Reply>, all: Elems)
    requires AllSlots(slots) && |rs| == |Occupied(slots, SLOTS)| && Same(frag_seq, all, slots, rs)
    requires MgetMerged(out, commands, frag_seq, all, slots) && FirstProblem(MGET, Somes(rs)) == None
    ensures out == MergedValue(MGET, slots, rs)
  {
    hide Members;
    hide AnswerFor;
    hide Share;
    hide FirstProblem;
    hide Fails;
    hide ComesShort;
    SameFailures(frag_seq, all, slots, rs);
    if ListsEnough(slots, rs) {
      assert out.reply.elems == MergedValue(MGET, slots, rs).reply.elems;
    } else {
      var i: nat :| StopsAt(frag_seq, all, slots, i) && out == if frag_seq[i] in all then Exhausted else ReadsNull;
      assert ComesShort(slots, rs, i);
      LastShortIs(slots, rs, |slots|, i);
    }
  }

  /** command_post_fragment computes that value, whatever objects carry the fragments and in whatever order the keys came. */
  method MergeAnswered(typ: CmdType, commands: seq<Cmd>, frag_seq: seq<Cmd>, ghost slots: seq<nat>, ghost rs: seq<Reply>)
      returns (out: MergeResult)
    requires Splittable(typ) && Answered(commands, slots, rs) && Leads(frag_seq, commands, slots) && AllSlots(slots)
    modifies commands
    ensures out == MergedValue(typ, slots, rs)
  {
    hide Answered;
    hide MgetMerged;
    hide Same;
    hide ListsEnough;
    hide FirstProblem;
    hide Occupied;
    hide Share;
    hide LastShort;
    AnsweredReplies(commands, slots, rs);
    AnsweredLength(commands, slots, rs);
    ghost var all: Elems := map[];
    if typ == MGET && FirstProblem(typ, Replies(commands)) == None {
      AllArrays(commands);
      all := ElemsOf(commands);
      AnswersAreSame(commands, frag_seq, slots, rs);
    }
    out := PostFragment(typ, commands, frag_seq, slots);
    if typ == MGET && FirstProblem(typ, Somes(rs)) == None {
      MgetValue(out, commands, frag_seq, slots, rs, all);
    }
  }

  lemma AnsweredLength(commands: seq<Cmd>, slots: seq<nat>, rs: seq<Reply>)
    requires Answered(commands, slots, rs)
    ensures |rs| == |Occupied(slots, SLOTS)|
  {}

  // ------------------------------------------------------------ what the merged answer is

  function Sum(rs: seq<Reply>): int
    requires AllFit(DEL, rs)
  {
    if rs == [] then 0 else Sum(rs[..|rs| - 1]) + rs[|rs| - 1].i
  }

  /** All replies can be used. */
  predicate AllFit(typ: CmdType, rs: seq<Reply>) {
    forall k :: 0 <= k < |rs| ==> Usable(typ, rs[k])
  }

  lemma AllUsable(typ: CmdType, rs: seq<Reply>)
    requires Splittable(typ) && AllFit(typ, rs)
    ensures FirstProblem(typ, Somes(rs)) == None
  {
    hide FirstProblem;
    hide Problem;
    forall k | 0 <= k < |rs|
      ensures Problem(typ, Somes(rs)[k]) == None
    {
      ProblemIs(typ, Some(rs[k]));
    }
  }

  /** The first reply that is not usable decides: an error is handed on as it is, anything else is an error. */
  lemma FirstUnusable(typ: CmdType, slots: seq<nat>, rs: seq<Reply>, k: nat)
    requires Splittable(typ) && AllSlots(slots) && |rs| == |Occupied(slots, SLOTS)| && k < |rs|
    requires !Usable(typ, rs[k]) && forall l :: 0 <= l < k ==> Usable(typ, rs[l])
    ensures MergedValue(typ, slots, rs) == if rs[k].Error? then Answer(rs[k]) else Mistyped
  {
    hide FirstProblem;
    hide Problem;
    hide Occupied;
    UnfitDecides(typ, Somes(rs));
    assert FirstUnfit(typ, Somes(rs), k);
  }

  lemma {:induction false} TotalIsSum(rs: seq<Reply>)
    requires AllFit(DEL, rs)
    ensures CountsOnly(Somes(rs)) && Total(Somes(rs)) == Sum(rs)
  {
    if rs != [] {
      var n := |rs| - 1;
      TotalIsSum(rs[..n]);
      assert Somes(rs)[..n] == Somes(rs[..n]);
    }
  }

  /** DEL: the sum of the fragments' counts. */
  lemma DelAnswer(slots: seq<nat>, rs: seq<Reply>)
    requires AllSlots(slots) && |rs| == |Occupied(slots, SLOTS)| && AllFit(DEL, rs)
    ensures MergedValue(DEL, slots, rs) == Answer(Integer(Sum(rs)))
  {
    hide Total;
    hide FirstProblem;
    hide Occupied;
    AllUsable(DEL, rs);
    TotalIsSum(rs);
  }

  /** MSET: OK. */
  lemma MsetAnswer(slots: seq<nat>, rs: seq<Reply>)
    requires AllSlots(slots) && |rs| == |Occupied(slots, SLOTS)| && AllFit(MSET, rs)
    ensures MergedValue(MSET, slots, rs) == Answer(Status([79, 75]))
  {
    hide FirstProblem;
    hide Occupied;
    AllUsable(MSET, rs);
  }

  /** The fragment of the `k`-th occupied slot has answered with an element for each of its keys. */
  predicate HasAll(slots: seq<nat>, rs: seq<Reply>, k: nat)
    requires k < |rs| == |Occupied(slots, SLOTS)|
  {
    rs[k].Arr? && |rs[k].elems| >= |Members(slots, Occupied(slots, SLOTS)[k])|
  }

  predicate AllHaveAll(slots: seq<nat>, rs: seq<Reply>) {
    |rs| == |Occupied(slots, SLOTS)| && forall k :: 0 <= k < |rs| ==> HasAll(slots, rs, k)
  }

  /** `es` has for every key the element of its own place in the reply of its fragment, counted from the back. */
  predicate InPlace(slots: seq<nat>, rs: seq<Reply>, es: seq<Reply>)
    requires AllHaveAll(slots, rs)
  {
    |es| == |slots| &&
    forall k, j :: 0 <= k < |rs| && 0 <= j < |Members(slots, Occupied(slots, SLOTS)[k])| ==>
      HasAll(slots, rs, k) &&
      var ms := Members(slots, Occupied(slots, SLOTS)[k]);
      es[ms[j]] == rs[k].elems[|rs[k].elems| - |ms| + j]
  }

  /** MGET: every key has its own element, and there is an answer only if all fragments have enough of them. */
  lemma MgetAnswer(slots: seq<nat>, rs: seq<Reply>)
    requires AllSlots(slots) && AllHaveAll(slots, rs)
    ensures var m := MergedValue(MGET, slots, rs);
            m.Answer? && m.reply.Arr? && InPlace(slots, rs, m.reply.elems)
  {
    hide FirstProblem;
    hide Occupied;
    hide Members;
    hide Share;
    hide AnswerFor;
    hide InPlace;
    ArraysAreUsable(slots, rs);
    AllUsable(MGET, rs);
    EnoughForEach(slots, rs);
    SharesInPlace(slots, rs, MergedValue(MGET, slots, rs).reply.elems);
  }

  lemma ArraysAreUsable(slots: seq<nat>, rs: seq<Reply>)
    requires AllHaveAll(slots, rs)
    ensures AllFit(MGET, rs)
  {
    hide Occupied;
    hide Members;
    forall k | 0 <= k < |rs|
      ensures Usable(MGET, rs[k])
    {
      assert HasAll(slots, rs, k);
    }
  }

  lemma SharesInPlace(slots: seq<nat>, rs: seq<Reply>, es: seq<Reply>)
    requires AllSlots(slots) && AllHaveAll(slots, rs) && ListsEnough(slots, rs) && |es| == |slots|
    requires forall i :: 0 <= i < |slots| ==> es[i] == Share(AnswerFor(slots, rs, i).elems, slots, i)
    ensures InPlace(slots, rs, es)
  {
    hide Occupied;
    hide Members;
    hide Share;
    hide AnswerFor;
    hide ListsEnough;
    var occ := Occupied(slots, SLOTS);
    forall k, j | 0 <= k < |rs| && 0 <= j < |Members(slots, occ[k])|
      ensures HasAll(slots, rs, k)
      ensures var ms := Members(slots, occ[k]); es[ms[j]] == rs[k].elems[|rs[k].elems| - |ms| + j]
    {
      KeyGetsItsOwn(slots, rs, k, j);
    }
  }

  /** MGET: without enough elements in some fragment's reply there is no answer. */
  lemma MgetNoAnswer(slots: seq<nat>, rs: seq<Reply>)
    requires AllSlots(slots) && |rs| == |Occupied(slots, SLOTS)| && !AllHaveAll(slots, rs) && AllFit(MGET, rs)
    ensures !MergedValue(MGET, slots, rs).Answer?
  {
    hide FirstProblem;
    hide Occupied;
    hide Members;
    hide Share;
    AllUsable(MGET, rs);
    var occ := Occupied(slots, SLOTS);
    var k :| 0 <= k < |rs| && !HasAll(slots, rs, k);
    FragmentHasKey(slots, k);
    var i := Members(slots, occ[k])[0];
    OccupiedIs(slots, slots[i]);
    assert occ[PlaceOf(occ, slots[i])] == occ[k];
    assert AnswerFor(slots, rs, i) == rs[k];
  }

  lemma FragmentHasKey(slots: seq<nat>, k: nat)
    requires k < |Occupied(slots, SLOTS)|
    ensures var ms := Members(slots, Occupied(slots, SLOTS)[k]);
            ms != [] && ms[0] < |slots| && slots[ms[0]] == Occupied(slots, SLOTS)[k]
  {}

  lemma EnoughForEach(slots: seq<nat>, rs: seq<Reply>)
    requires AllSlots(slots) && AllHaveAll(slots, rs)
    ensures ListsEnough(slots, rs)
  {
    hide Occupied;
    hide Members;
    var occ := Occupied(slots, SLOTS);
    forall i | 0 <= i < |slots|
      ensures AnswerFor(slots, rs, i).Arr? && |Members(slots, slots[i])| <= |AnswerFor(slots, rs, i).elems|
    {
      OccupiedIs(slots, slots[i]);
      var p := PlaceOf(occ, slots[i]);
      assert occ[p] == slots[i] && HasAll(slots, rs, p);
    }
  }

  lemma KeyGetsItsOwn(slots: seq<nat>, rs: seq<Reply>, k: nat, j: nat)
    requires AllSlots(slots) && AllHaveAll(slots, rs) && k < |rs| && j < |Members(slots, Occupied(slots, SLOTS)[k])|
    ensures HasAll(slots, rs, k)
    ensures var ms := Members(slots, Occupied(slots, SLOTS)[k]);
            var i := ms[j];
            i < |slots| && slots[i] == Occupied(slots, SLOTS)[k] && AnswerFor(slots, rs, i) == rs[k] &&
            Share(rs[k].elems, slots, i) == rs[k].elems[|rs[k].elems| - |ms| + j]
  {
    hide Occupied;
    hide Members;
    hide Rank;
    assert HasAll(slots, rs, k);
    var occ := Occupied(slots, SLOTS);
    var i := Members(slots, occ[k])[j];
    OccupiedIs(slots, slots[i]);
    var p := PlaceOf(occ, slots[i]);
    assert occ[p] == occ[k];
    RankIs(slots, i, j);
  }

  /** The place of a key among the keys of its slot. */
  lemma RankIs(slots: seq<nat>, i: nat, j: nat)
    requires i < |slots| && j < |Members(slots, slots[i])| && Members(slots, slots[i])[j] == i
    ensures Rank(slots, i) == j
  {
    hide Members;
    RankIsPlace(slots, i);
    MembersGrow(slots, slots[i]);
    var r := Rank(slots, i);
    assert !(r < j) && !(j < r);
  }

  predicate Ascending(ms: seq<nat>) {
    forall a, b :: 0 <= a < b < |ms| ==> ms[a] < ms[b]
  }

  /** The positions of a slot's keys come in ascending order. */
  lemma {:induction false} MembersGrow(slots: seq<nat>, slot: nat)
    ensures Ascending(Members(slots, slot))
  {
    if slots != [] {
      var n := |slots| - 1;
      var front := Members(slots[..n], slot);
      MembersGrow(slots[..n], slot);
      AscendingSnoc(front, n);
    }
  }

  lemma AscendingSnoc(ms: seq<nat>, n: nat)
    requires Ascending(ms) && forall j :: 0 <= j < |ms| ==> ms[j] < n
    ensures Ascending(ms + [n])
  {}
}
