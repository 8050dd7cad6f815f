/**
 The cluster pipeline (hircluster.cpp redisClusterAppendFormattedCommand and
 redisClusterGetReply): one queue of requests is multiplexed over one connection per node,
 and every node answers its commands in the order in which they were sent. The route does
 not change and a node is either reachable all the time or not at all.
 */
module Pipeline {
  import opened CommandTable
  import opened Resp
  import opened FragmentLayout
  import opened HashSlot
  import opened Fragment
  import opened Merge

  /** One command on the wire: a whole command, or one fragment of a split one. */
  datatype Piece = Piece(id: nat, slot: nat)

  /** A command in the request queue: as it is sent when it is not split, its type, and the slots of its keys. */
  datatype Request = Request(whole: Piece, typ: CmdType, slots: seq<nat>)

  /** An MGET, DEL or MSET with keys in several slots is split. */
  predicate IsSplit(r: Request) {
    Splittable(r.typ) && AllSlots(r.slots) && |Occupied(r.slots, SLOTS)| > 1
  }

  /** Its fragments are those of the occupied slots, in ascending order. */
  function FragmentsOf(r: Request): (ps: seq<Piece>)
    ensures |ps| == |Occupied(r.slots, SLOTS)|
  {
    var occ := Occupied(r.slots, SLOTS);
    seq(|occ|, k requires 0 <= k < |occ| => Piece(r.whole.id, occ[k]))
  }

  /** Which node serves a slot, which nodes are down, and how nodes answer. */
  datatype Net = Net(route: seq<Option<nat>>, down: seq<bool>, answer: Piece -> Reply)

  /** The outstanding commands of every node, the oldest first. */
  type Fifos = seq<seq<Piece>>

  function Parts(r: Request): (ps: seq<Piece>)
    ensures ps != []
  {
    if IsSplit(r) then FragmentsOf(r) else [r.whole]
  }

  /** The node a piece can be sent to: its slot has an owner and the connection is good. */
  function NodeOf(net: Net, p: Piece): (n: Option<nat>)
    ensures n.Some? ==> n.value < |net.down|
  {
    if p.slot < |net.route| && net.route[p.slot].Some? && net.route[p.slot].value < |net.down| &&
       !net.down[net.route[p.slot].value] then net.route[p.slot]
    else None
  }

  predicate Reachable(net: Net, ps: seq<Piece>) {
    forall i :: 0 <= i < |ps| ==> NodeOf(net, ps[i]).Some?
  }

  /** The index of the first piece that cannot be sent, or the number of pieces. */
  function FirstBad(net: Net, ps: seq<Piece>): (i: nat)
    ensures i <= |ps| && Reachable(net, ps[..i]) && (i < |ps| ==> NodeOf(net, ps[i]) == None)
    ensures forall k :: 0 <= k < i ==> NodeOf(net, ps[k]).Some?
  {
    if ps == [] then 0
    else
      var n := |ps| - 1;
      var i := FirstBad(net, ps[..n]);
      assert ps[..n][..i] == ps[..i];
      if i < n then i else if NodeOf(net, ps[n]) == None then n
      else
        assert ps[..n + 1] == ps;
        n + 1
  }

  /** The pieces of `ps` that go to node `n`, in order. */
  function On(net: Net, ps: seq<Piece>, n: nat): (r: seq<Piece>)
    ensures |r| <= |ps|
  {
    if ps == [] then []
    else
      var last := ps[|ps| - 1];
      On(net, ps[..|ps| - 1], n) + if NodeOf(net, last) == Some(n) then [last] else []
  }

  // ------------------------------------------------------------ sending and receiving, on values

  function Push(net: Net, f: Fifos, p: Piece): Fifos
    requires |f| == |net.down| && NodeOf(net, p).Some?
  {
    var n := NodeOf(net, p).value;
    f[n := f[n] + [p]]
  }

  function PushAll(net: Net, f: Fifos, ps: seq<Piece>): (g: Fifos)
    requires |f| == |net.down| && Reachable(net, ps)
    ensures |g| == |f|
  {
    if ps == [] then f else Push(net, PushAll(net, f, ps[..|ps| - 1]), ps[|ps| - 1])
  }

  lemma {:induction false} PushAllAt(net: Net, f: Fifos, ps: seq<Piece>, n: nat)
    requires |f| == |net.down| && Reachable(net, ps) && n < |f|
    ensures PushAll(net, f, ps)[n] == f[n] + On(net, ps, n)
  {
    if ps != [] {
      PushAllAt(net, f, ps[..|ps| - 1], n);
    }
  }

  /** Every node still has at least as many outstanding commands as replies will be read from it. */
  predicate Ample(net: Net, f: Fifos, ps: seq<Piece>) {
    |f| == |net.down| && Reachable(net, ps) && forall n :: 0 <= n < |f| ==> |On(net, ps, n)| <= |f[n]|
  }

  /** Reading one reply for each piece: what remains outstanding, and what was answered. */
  function PopAll(net: Net, f: Fifos, ps: seq<Piece>): (r: (Fifos, seq<Piece>))
    requires Ample(net, f, ps)
    ensures |r.0| == |f| && |r.1| == |ps|
    ensures forall n :: 0 <= n < |f| ==> r.0[n] == f[n][|On(net, ps, n)|..]
  {
    if ps == [] then (f, [])
    else
      var k := |ps| - 1;
      var n := NodeOf(net, ps[k]).value;
      assert |On(net, ps, n)| == |On(net, ps[..k], n)| + 1;
      var (g, got) := PopAll(net, f, ps[..k]);
      (g[n := g[n][1..]], got + [g[n][0]])
  }

  /** If every node's outstanding commands begin with its pieces, then it is these that are answered. */
  lemma {:induction false} PopsOwnPieces(net: Net, f: Fifos, ps: seq<Piece>)
    requires Ample(net, f, ps) && forall n :: 0 <= n < |f| ==> On(net, ps, n) <= f[n]
    ensures PopAll(net, f, ps).1 == ps
  {
    if ps != [] {
      var k := |ps| - 1;
      var n := NodeOf(net, ps[k]).value;
      PopsOwnPieces(net, f, ps[..k]);
      assert On(net, ps, n) == On(net, ps[..k], n) + [ps[k]];
      assert f[n][|On(net, ps[..k], n)|] == ps[k];
    }
  }

  // ------------------------------------------------------------ the queue and the connections

  /** All pieces of the queued requests. */
  function AllParts(q: seq<Request>): seq<Piece> {
    if q == [] then [] else AllParts(q[..|q| - 1]) + Parts(q[|q| - 1])
  }

  lemma {:induction false} AllPartsFirst(q: seq<Request>)
    requires q != []
    ensures AllParts(q) == Parts(q[0]) + AllParts(q[1..])
  {
    hide Parts;
    var k := |q| - 1;
    if k == 0 {
      assert q[..0] == [] && AllParts(q[..0]) == [];
      assert AllParts(q[1..]) == [];
    } else {
      AllPartsFirst(q[..k]);
      assert q[..k][1..] == q[1..][..k - 1] && q[1..][k - 1] == q[k];
      assert AllParts(q[1..]) == AllParts(q[..k][1..]) + Parts(q[k]);
    }
  }

  lemma {:induction false} OnConcat(net: Net, a: seq<Piece>, b: seq<Piece>, n: nat)
    ensures On(net, a + b, n) == On(net, a, n) + On(net, b, n)
  {
    if b == [] {
      assert a + b == a;
    } else {
      var k := |b| - 1;
      assert (a + b)[..|a| + k] == a + b[..k];
      OnConcat(net, a, b[..k], n);
    }
  }

  lemma ReachableConcat(net: Net, a: seq<Piece>, b: seq<Piece>)
    ensures Reachable(net, a + b) <==> Reachable(net, a) && Reachable(net, b)
  {
    if Reachable(net, a + b) {
      assert forall i :: 0 <= i < |a| ==> (a + b)[i] == a[i];
      assert forall i :: 0 <= i < |b| ==> (a + b)[|a| + i] == b[i];
    }
  }

  /** The outstanding commands of every node are those of the queue that belong to it, in queue order. */
  predicate Aligned(net: Net, q: seq<Request>, f: Fifos) {
    |f| == |net.down| && Reachable(net, AllParts(q)) && forall n :: 0 <= n < |f| ==> f[n] == On(net, AllParts(q), n)
  }

  /** No node owes less than the queue expects; it may owe more after a failed append. */
  predicate Sound(net: Net, q: seq<Request>, f: Fifos) {
    Ample(net, f, AllParts(q))
  }

  function Answers(net: Net, ps: seq<Piece>): (rs: seq<Reply>)
    ensures |rs| == |ps| && forall i :: 0 <= i < |ps| ==> rs[i] == net.answer(ps[i])
  {
    seq(|ps|, i requires 0 <= i < |ps| => net.answer(ps[i]))
  }

  /** What a get-reply hands out for request `r` when `ps` were answered. */
  datatype Out = Appended | Refused | Got(reply: Reply) | Unmerged | Nothing

  /** The fragments' replies, put together as command_post_fragment does it; None for its NULL. */
  function PutTogether(r: Request, rs: seq<Reply>): Option<Reply>
    requires IsSplit(r) && |rs| == |Parts(r)|
  {
    var m := MergedValue(r.typ, r.slots, rs);
    if m.Answer? then Some(m.reply) else None
  }

  function Merged(net: Net, r: Request, ps: seq<Piece>): Out
    requires |ps| == |Parts(r)|
  {
    if !IsSplit(r) then Got(net.answer(ps[0]))
    else
      var m := PutTogether(r, Answers(net, ps));
      if m.Some? then Got(m.value) else Unmerged
  }

  /** The answer that belongs to a request. */
  function Expected(net: Net, r: Request): Out {
    Merged(net, r, Parts(r))
  }

  class Pipeline {
    const net: Net
    var requests: seq<Request>
    const conns: array<seq<Piece>>

    ghost predicate Valid()
      reads this, conns
    {
      conns.Length == |net.down| && Sound(net, requests, conns[..])
    }

    constructor (net: Net)
      ensures Valid() && this.net == net && requests == [] && Aligned(net, requests, conns[..]) && fresh(conns)
    {
      this.net := net;
      requests := [];
      conns := new seq<Piece>[|net.down|](_ => []);
    }

    /** __redisClusterAppendCommand: one piece goes to the output of its node. */
    method AppendPiece(p: Piece) returns (ok: bool)
      requires conns.Length == |net.down|
      modifies conns
      ensures ok <==> NodeOf(net, p).Some?
      ensures conns[..] == if ok then Push(net, old(conns[..]), p) else old(conns[..])
    {
      var n := NodeOf(net, p);
      if n == None {
        return false;
      }
      conns[n.value] := conns[n.value] + [p];
      return true;
    }

    /**
     redisClusterAppendFormattedCommand, after the command has been split: the pieces are
     sent one by one, and a piece that cannot be sent ends it with an error. What has been
     sent by then stays sent.
     */
    method Append(r: Request) returns (out: Out)
      requires Valid()
      modifies this, conns
      ensures Valid()
      ensures var i := FirstBad(net, Parts(r));
              conns[..] == PushAll(net, old(conns[..]), Parts(r)[..i]) &&
              (if i == |Parts(r)| then out == Appended && requests == old(requests) + [r]
               else out == Refused && requests == old(requests))
    {
      hide Parts;
      hide FirstBad;
      hide PushAll;
      hide Push;
      hide NodeOf;
      hide Ample;
      ghost var f0 := conns[..];
      var ps := Parts(r);
      var i := 0;
      PushNone(net, f0);
      while i < |ps|
        invariant 0 <= i <= |ps| && conns.Length == |net.down| && requests == old(requests)
        invariant Reachable(net, ps[..i]) && conns[..] == PushAll(net, f0, ps[..i])
      {
        if NodeOf(net, ps[i]).Some? {
          PushNext(net, f0, ps, i);
        }
        var ok := AppendPiece(ps[i]);
        if !ok {
          FirstBadIs(net, ps, i);
          SentStaysSound(net, requests, f0, ps[..i]);
          return Refused;
        }
        i := i + 1;
      }
      assert ps[..i] == ps;
      FirstBadIs(net, ps, i);
      QueuedStaysSound(net, requests, f0, r);
      requests := requests + [r];
      return Appended;
    }

    /** __redisClusterGetReply: the oldest outstanding command of the piece's node is answered. */
    method ReadReply(p: Piece) returns (reply: Reply, ghost got: Piece)
      requires conns.Length == |net.down| && NodeOf(net, p).Some? && conns[NodeOf(net, p).value] != []
      modifies conns
      ensures var n := NodeOf(net, p).value;
              var f := old(conns[..]);
              conns[..] == f[n := f[n][1..]] && got == f[n][0] && reply == net.answer(got)
    {
      var n := NodeOf(net, p).value;
      got := conns[n][0];
      reply := net.answer(conns[n][0]);
      conns[n] := conns[n][1..];
    }

    /**
     redisClusterGetReply: one reply is read for every piece of the oldest request, which
     leaves the queue whether or not its replies can be merged.
     */
    method GetReply() returns (out: Out)
      requires Valid()
      modifies this, conns
      ensures Valid()
      ensures old(requests) == [] ==> out == Nothing && requests == [] && conns[..] == old(conns[..])
      ensures old(requests) != [] ==>
                var r := old(requests)[0];
                requests == old(requests)[1..] && Ample(net, old(conns[..]), Parts(r)) &&
                var (f, got) := PopAll(net, old(conns[..]), Parts(r));
                conns[..] == f && out == Merged(net, r, got)
    {
      if requests == [] {
        return Nothing;
      }
      var r := requests[0];
      SoundFirst(net, requests, conns[..]);
      var replies;
      ghost var got;
      replies, got := ReadReplies(Parts(r));
      requests := requests[1..];
      if !IsSplit(r) {
        return Got(replies[0]);
      }
      var m := PutTogether(r, replies);
      return if m.Some? then Got(m.value) else Unmerged;
    }

    /** The loop over the pieces of a request. */
    method ReadReplies(ps: seq<Piece>) returns (replies: seq<Reply>, ghost got: seq<Piece>)
      requires conns.Length == |net.down| && Ample(net, conns[..], ps)
      modifies conns
      ensures (conns[..], got) == PopAll(net, old(conns[..]), ps) && replies == Answers(net, got)
    {
      hide PopAll;
      hide Answers;
      hide On;
      ghost var f0 := conns[..];
      got, replies := [], [];
      PopNothing(net, f0);
      assert ps[..0] == [];
      var i := 0;
      while i < |ps|
        invariant 0 <= i <= |ps| && conns.Length == |net.down|
        invariant Ample(net, f0, ps[..i]) && (conns[..], got) == PopAll(net, f0, ps[..i])
        invariant replies == Answers(net, got)
      {
        PopNext(net, f0, ps, i);
        var reply;
        ghost var p;
        reply, p := ReadReply(ps[i]);
        AnswersNext(net, got, p);
        got := got + [p];
        replies := replies + [reply];
        i := i + 1;
      }
      assert ps[..i] == ps;
    }
  }

  lemma FirstBadIs(net: Net, ps: seq<Piece>, i: nat)
    requires i <= |ps| && Reachable(net, ps[..i]) && (i < |ps| ==> NodeOf(net, ps[i]) == None)
    ensures FirstBad(net, ps) == i
  {
    forall k | 0 <= k < i
      ensures NodeOf(net, ps[k]).Some?
    {
      assert ps[..i][k] == ps[k];
    }
  }

  lemma PushNone(net: Net, f: Fifos)
    requires |f| == |net.down|
    ensures PushAll(net, f, []) == f
  {}

  lemma PushNext(net: Net, f: Fifos, ps: seq<Piece>, i: nat)
    requires |f| == |net.down| && i < |ps| && Reachable(net, ps[..i]) && NodeOf(net, ps[i]).Some?
    ensures Reachable(net, ps[..i + 1]) && PushAll(net, f, ps[..i + 1]) == Push(net, PushAll(net, f, ps[..i]), ps[i])
  {
    assert ps[..i + 1][..i] == ps[..i];
  }

  lemma SentStaysSound(net: Net, q: seq<Request>, f: Fifos, ps: seq<Piece>)
    requires Sound(net, q, f) && Reachable(net, ps)
    ensures Sound(net, q, PushAll(net, f, ps))
  {
    forall n | 0 <= n < |f|
      ensures |On(net, AllParts(q), n)| <= |PushAll(net, f, ps)[n]|
    {
      PushAllAt(net, f, ps, n);
    }
  }

  lemma QueuedStaysSound(net: Net, q: seq<Request>, f: Fifos, r: Request)
    requires Sound(net, q, f) && Reachable(net, Parts(r))
    ensures Sound(net, q + [r], PushAll(net, f, Parts(r)))
  {
    assert (q + [r])[..|q|] == q;
    ReachableConcat(net, AllParts(q), Parts(r));
    forall n | 0 <= n < |f|
      ensures |On(net, AllParts(q + [r]), n)| <= |PushAll(net, f, Parts(r))[n]|
    {
      PushAllAt(net, f, Parts(r), n);
      OnConcat(net, AllParts(q), Parts(r), n);
    }
  }

  lemma {:induction false} OnMonotone(net: Net, ps: seq<Piece>, i: nat, n: nat)
    requires i <= |ps|
    ensures On(net, ps[..i], n) <= On(net, ps, n)
  {
    if i == |ps| {
      assert ps[..i] == ps;
    } else {
      assert ps[..|ps| - 1][..i] == ps[..i];
      OnMonotone(net, ps[..|ps| - 1], i, n);
    }
  }

  lemma AmplePrefix(net: Net, f: Fifos, ps: seq<Piece>, i: nat)
    requires Ample(net, f, ps) && i <= |ps|
    ensures Ample(net, f, ps[..i])
  {
    forall n | 0 <= n < |f|
      ensures |On(net, ps[..i], n)| <= |f[n]|
    {
      OnMonotone(net, ps, i, n);
    }
  }

  lemma PopNothing(net: Net, f: Fifos)
    requires |f| == |net.down|
    ensures Ample(net, f, []) && PopAll(net, f, []) == (f, []) && Answers(net, []) == []
  {}

  lemma AnswersNext(net: Net, got: seq<Piece>, p: Piece)
    ensures Answers(net, got + [p]) == Answers(net, got) + [net.answer(p)]
  {}

  /** One more reply. */
  lemma PopNext(net: Net, f: Fifos, ps: seq<Piece>, i: nat)
    requires Ample(net, f, ps) && i < |ps|
    ensures NodeOf(net, ps[i]).Some? && Ample(net, f, ps[..i]) && Ample(net, f, ps[..i + 1])
    ensures var n := NodeOf(net, ps[i]).value;
            var (g, got) := PopAll(net, f, ps[..i]);
            g[n] != [] && PopAll(net, f, ps[..i + 1]) == (g[n := g[n][1..]], got + [g[n][0]])
  {
    AmplePrefix(net, f, ps, i + 1);
    AmplePrefix(net, f, ps, i);
    var n := NodeOf(net, ps[i]).value;
    assert ps[..i + 1][..i] == ps[..i];
    assert |On(net, ps[..i + 1], n)| == |On(net, ps[..i], n)| + 1;
  }

  /** What is left after the first request's replies have been read still suffices for the others. */
  lemma SoundFirst(net: Net, q: seq<Request>, f: Fifos)
    requires Sound(net, q, f) && q != []
    ensures Ample(net, f, Parts(q[0])) && Sound(net, q[1..], PopAll(net, f, Parts(q[0])).0)
  {
    var a, b := Parts(q[0]), AllParts(q[1..]);
    AllPartsFirst(q);
    ReachableConcat(net, a, b);
    forall n | 0 <= n < |f|
      ensures |On(net, a, n)| + |On(net, b, n)| <= |f[n]|
    {
      OnConcat(net, a, b, n);
    }
  }

  // ------------------------------------------------------------ whole runs

  datatype Event = DoAppend(r: Request) | DoGet

  /** The run as a plain queue: what is handed out is the answer that belongs to the oldest request. */
  function Ideal(net: Net, q: seq<Request>, es: seq<Event>): (r: (seq<Request>, seq<Out>))
    ensures |r.1| == |es|
  {
    if es == [] then (q, [])
    else
      var (p, outs) := Ideal(net, q, es[..|es| - 1]);
      match es[|es| - 1]
      case DoAppend(r) => if Reachable(net, Parts(r)) then (p + [r], outs + [Appended]) else (p, outs + [Refused])
      case DoGet => if p == [] then (p, outs + [Nothing]) else (p[1..], outs + [Expected(net, p[0])])
  }

  /** No append has failed after some of its pieces were sent. */
  predicate Unbroken(net: Net, es: seq<Event>) {
    forall i :: 0 <= i < |es| && es[i].DoAppend? ==> WholeOrNothing(net, es[i].r)
  }

  predicate WholeOrNothing(net: Net, r: Request) {
    FirstBad(net, Parts(r)) == 0 || FirstBad(net, Parts(r)) == |Parts(r)|
  }

  /** Some node owes more than the queue expects. */
  ghost predicate Surplus(net: Net, q: seq<Request>, f: Fifos) {
    Sound(net, q, f) && exists n :: 0 <= n < |f| && |On(net, AllParts(q), n)| < |f[n]|
  }

  lemma AlignedIsSound(net: Net, q: seq<Request>, f: Fifos)
    requires Aligned(net, q, f)
    ensures Sound(net, q, f) && !Surplus(net, q, f)
  {}

  lemma AppendWhole(net: Net, q: seq<Request>, f: Fifos, r: Request)
    requires Sound(net, q, f) && Reachable(net, Parts(r))
    ensures Aligned(net, q, f) ==> Aligned(net, q + [r], PushAll(net, f, Parts(r)))
    ensures Surplus(net, q, f) ==> Surplus(net, q + [r], PushAll(net, f, Parts(r)))
  {
    assert (q + [r])[..|q|] == q;
    ReachableConcat(net, AllParts(q), Parts(r));
    QueuedStaysSound(net, q, f, r);
    var g := PushAll(net, f, Parts(r));
    forall n | 0 <= n < |f|
      ensures g[n] == f[n] + On(net, Parts(r), n)
      ensures On(net, AllParts(q + [r]), n) == On(net, AllParts(q), n) + On(net, Parts(r), n)
    {
      PushAllAt(net, f, Parts(r), n);
      OnConcat(net, AllParts(q), Parts(r), n);
    }
    if Surplus(net, q, f) {
      var n :| 0 <= n < |f| && |On(net, AllParts(q), n)| < |f[n]|;
      assert |On(net, AllParts(q + [r]), n)| < |g[n]|;
    }
  }

  /** A failed append keeps the alignment exactly when it has sent nothing. */
  lemma AppendCut(net: Net, q: seq<Request>, f: Fifos, ps: seq<Piece>)
    requires Sound(net, q, f) && Reachable(net, ps)
    ensures Sound(net, q, PushAll(net, f, ps))
    ensures Aligned(net, q, f) && ps == [] ==> Aligned(net, q, PushAll(net, f, ps))
    ensures ps != [] || Surplus(net, q, f) ==> Surplus(net, q, PushAll(net, f, ps))
  {
    SentStaysSound(net, q, f, ps);
    var g := PushAll(net, f, ps);
    if ps != [] {
      var n := NodeOf(net, ps[|ps| - 1]).value;
      PushAllAt(net, f, ps, n);
      assert |On(net, AllParts(q), n)| < |g[n]|;
    }
  }

  lemma GetAligned(net: Net, q: seq<Request>, f: Fifos)
    requires Sound(net, q, f) && q != []
    ensures Ample(net, f, Parts(q[0]))
    ensures var (g, got) := PopAll(net, f, Parts(q[0]));
            Sound(net, q[1..], g) &&
            (Aligned(net, q, f) ==> Aligned(net, q[1..], g) && got == Parts(q[0])) &&
            (Surplus(net, q, f) ==> Surplus(net, q[1..], g))
  {
    var a, b := Parts(q[0]), AllParts(q[1..]);
    AllPartsFirst(q);
    ReachableConcat(net, a, b);
    SoundFirst(net, q, f);
    var g := PopAll(net, f, a).0;
    forall n | 0 <= n < |f|
      ensures On(net, AllParts(q), n) == On(net, a, n) + On(net, b, n)
    {
      OnConcat(net, a, b, n);
    }
    if Aligned(net, q, f) {
      PopsOwnPieces(net, f, a);
    }
    if Surplus(net, q, f) {
      var n :| 0 <= n < |f| && |On(net, AllParts(q), n)| < |f[n]|;
      assert |On(net, b, n)| < |g[n]|;
    }
  }

  lemma UnbrokenStep(net: Net, es: seq<Event>, e: Event)
    ensures Unbroken(net, es + [e]) <==> Unbroken(net, es) && (e.DoAppend? ==> WholeOrNothing(net, e.r))
  {
    hide WholeOrNothing;
    var all := es + [e];
    if Unbroken(net, es) && (e.DoAppend? ==> WholeOrNothing(net, e.r)) {
      forall i | 0 <= i < |all| && all[i].DoAppend?
        ensures WholeOrNothing(net, all[i].r)
      {
        assert i < |es| ==> all[i] == es[i];
      }
    }
    if Unbroken(net, all) {
      assert all[|es|] == e;
      forall i | 0 <= i < |es| && es[i].DoAppend?
        ensures WholeOrNothing(net, es[i].r)
      {
        assert all[i] == es[i];
      }
    }
  }

  /** Where a run stands: in step with the ideal queue, or out of step for good. */
  ghost predicate Standing(net: Net, q0: seq<Request>, es: seq<Event>, q: seq<Request>, f: Fifos, outs: seq<Out>) {
    if Unbroken(net, es) then Aligned(net, q, f) && Ideal(net, q0, es) == (q, outs)
    else Surplus(net, q, f)
  }

  lemma StandingAppend(net: Net, q0: seq<Request>, es: seq<Event>, q: seq<Request>, f: Fifos, outs: seq<Out>, r: Request)
    requires Standing(net, q0, es, q, f, outs) && Sound(net, q, f)
    ensures var i := FirstBad(net, Parts(r));
            var g := PushAll(net, f, Parts(r)[..i]);
            if i == |Parts(r)| then Standing(net, q0, es + [DoAppend(r)], q + [r], g, outs + [Appended])
            else Standing(net, q0, es + [DoAppend(r)], q, g, outs + [Refused])
  {
    hide Aligned;
    hide Surplus;
    hide Sound;
    hide PushAll;
    hide Unbroken;
    var i := FirstBad(net, Parts(r));
    UnbrokenStep(net, es, DoAppend(r));
    IdealStep(net, q0, es, DoAppend(r));
    assert Parts(r)[..|Parts(r)|] == Parts(r);
    if i == |Parts(r)| {
      AppendWhole(net, q, f, r);
    } else {
      assert !Reachable(net, Parts(r));
      AppendCut(net, q, f, Parts(r)[..i]);
    }
  }

  lemma StandingGet(net: Net, q0: seq<Request>, es: seq<Event>, q: seq<Request>, f: Fifos, outs: seq<Out>)
    requires Standing(net, q0, es, q, f, outs) && Sound(net, q, f)
    ensures q == [] ==> Standing(net, q0, es + [DoGet], q, f, outs + [Nothing])
    ensures q != [] ==> Ample(net, f, Parts(q[0])) &&
                        var (g, got) := PopAll(net, f, Parts(q[0]));
                        Standing(net, q0, es + [DoGet], q[1..], g, outs + [Merged(net, q[0], got)])
  {
    hide Aligned;
    hide Surplus;
    hide Sound;
    hide PopAll;
    hide Ample;
    hide Unbroken;
    hide Merged;
    UnbrokenStep(net, es, DoGet);
    IdealStep(net, q0, es, DoGet);
    if q != [] {
      GetAligned(net, q, f);
    }
  }

  lemma IdealStep(net: Net, q0: seq<Request>, es: seq<Event>, e: Event)
    ensures var (p, outs) := Ideal(net, q0, es);
            Ideal(net, q0, es + [e]) ==
            if e.DoAppend? then
              (if Reachable(net, Parts(e.r)) then (p + [e.r], outs + [Appended]) else (p, outs + [Refused]))
            else if p == [] then (p, outs + [Nothing])
            else (p[1..], outs + [Expected(net, p[0])])
  {
    assert (es + [e])[..|es|] == es;
  }

  /** One event, performed on the pipeline. */
  method Perform(p: Pipeline, e: Event, ghost q0: seq<Request>, ghost es: seq<Event>, ghost outs: seq<Out>) returns (out: Out)
    requires p.Valid() && Standing(p.net, q0, es, p.requests, p.conns[..], outs)
    modifies p, p.conns
    ensures p.Valid() && Standing(p.net, q0, es + [e], p.requests, p.conns[..], outs + [out])
  {
    hide Standing;
    hide Sound;
    hide Ample;
    hide PushAll;
    hide PopAll;
    hide Merged;
    match e
    case DoAppend(r) =>
      StandingAppend(p.net, q0, es, p.requests, p.conns[..], outs, r);
      out := p.Append(r);
    case DoGet =>
      StandingGet(p.net, q0, es, p.requests, p.conns[..], outs);
      out := p.GetReply();
  }

  /**
   Any run from an aligned pipeline: as long as no append fails after something was sent,
   every get-reply hands out the answer of the oldest request; and the connections end up
   in step with the queue exactly when no append has failed like that.
   */
  method RunEvents(p: Pipeline, es: seq<Event>) returns (outs: seq<Out>)
    requires p.Valid() && Aligned(p.net, p.requests, p.conns[..])
    modifies p, p.conns
    ensures p.Valid()
    ensures Unbroken(p.net, es) ==> Ideal(p.net, old(p.requests), es) == (p.requests, outs)
    ensures Aligned(p.net, p.requests, p.conns[..]) <==> Unbroken(p.net, es)
  {
    hide Ideal;
    hide Aligned;
    hide Unbroken;
    ghost var q0 := p.requests;
    StartsStanding(p.net, q0, p.conns[..]);
    outs := [];
    var i := 0;
    while i < |es|
      invariant 0 <= i <= |es| && p.Valid() && Standing(p.net, q0, es[..i], p.requests, p.conns[..], outs)
    {
      var out := Perform(p, es[i], q0, es[..i], outs);
      assert es[..i] + [es[i]] == es[..i + 1];
      outs := outs + [out];
      i := i + 1;
    }
    assert es[..i] == es;
    if Aligned(p.net, p.requests, p.conns[..]) {
      AlignedIsSound(p.net, p.requests, p.conns[..]);
    }
  }

  lemma StartsStanding(net: Net, q: seq<Request>, f: Fifos)
    requires Aligned(net, q, f)
    ensures Standing(net, q, [], q, f, [])
  {}

  // ------------------------------------------------------------ what is handed out

  /** An unsplit command is answered with its one reply. */
  lemma WholeAnswer(net: Net, r: Request, ps: seq<Piece>)
    requires |ps| == |Parts(r)| && !(Splittable(r.typ) && AllSlots(r.slots) && |Occupied(r.slots, SLOTS)| > 1)
    ensures |ps| == 1 && Merged(net, r, ps) == Got(net.answer(ps[0]))
  {}

  /**
   What a get-reply hands out for a split request, given the replies `rs` that have been read for
   its pieces: for MGET every key's own element, for DEL the sum, for MSET OK; the first reply that
   cannot be merged if it is an error; and otherwise nothing, which happens exactly when the first
   such reply is no error, or some MGET fragment has too few elements.
   */
  lemma MergedAnswers(net: Net, r: Request, ps: seq<Piece>, rs: seq<Reply>)
    requires Splittable(r.typ) && AllSlots(r.slots) && |Occupied(r.slots, SLOTS)| > 1
    requires |ps| == |Parts(r)| == |rs| && forall k :: 0 <= k < |rs| ==> rs[k] == net.answer(ps[k])
    ensures |rs| == |Occupied(r.slots, SLOTS)|
    ensures var out := Merged(net, r, ps);
            (r.typ == MGET && AllHaveAll(r.slots, rs) ==>
               out.Got? && out.reply.Arr? && InPlace(r.slots, rs, out.reply.elems)) &&
            (r.typ == MGET && AllFit(MGET, rs) && !AllHaveAll(r.slots, rs) ==> out == Unmerged) &&
            (r.typ == DEL && AllFit(DEL, rs) ==> out == Got(Integer(Sum(rs)))) &&
            (r.typ == MSET && AllFit(MSET, rs) ==> out == Got(Status([79, 75])))
    ensures forall k :: 0 <= k < |rs| && !Usable(r.typ, rs[k]) && (forall l :: 0 <= l < k ==> Usable(r.typ, rs[l])) ==>
              Merged(net, r, ps) == if rs[k].Error? then Got(rs[k]) else Unmerged
  {
    hide MergedValue;
    hide Occupied;
    hide AllHaveAll;
    hide AllFit;
    hide Sum;
    assert rs == Answers(net, ps);
    if r.typ == MGET {
      if AllHaveAll(r.slots, rs) {
        MgetAnswer(r.slots, rs);
      } else if AllFit(MGET, rs) {
        MgetNoAnswer(r.slots, rs);
      }
    } else if r.typ == DEL {
      if AllFit(DEL, rs) {
        DelAnswer(r.slots, rs);
      }
    } else if AllFit(MSET, rs) {
      MsetAnswer(r.slots, rs);
    }
    forall k | 0 <= k < |rs| && !Usable(r.typ, rs[k]) && forall l :: 0 <= l < k ==> Usable(r.typ, rs[l])
      ensures Merged(net, r, ps) == if rs[k].Error? then Got(rs[k]) else Unmerged
    {
      FirstUnusable(r.typ, r.slots, rs, k);
    }
  }

  // ------------------------------------------------------------ a wrong answer

  lemma OnFirst(net: Net, ps: seq<Piece>, n: nat)
    requires ps != [] && NodeOf(net, ps[0]) == Some(n)
    ensures On(net, ps, n) != [] && On(net, ps, n)[0] == ps[0]
  {
    assert ps[..1] == [ps[0]] && ps[..1][..0] == [];
    assert On(net, ps[..1], n) == [ps[0]];
    OnMonotone(net, ps, 1, n);
  }

  lemma PopOne(net: Net, f: Fifos, p: Piece, n: nat)
    requires |f| == |net.down| && NodeOf(net, p) == Some(n) && f[n] != []
    ensures Ample(net, f, [p]) && PopAll(net, f, [p]).1 == [f[n][0]]
  {
    assert [p][..0] == [];
    PopNothing(net, f);
    forall k: nat
      ensures On(net, [p], k) == if k == n then [p] else []
    {
      assert On(net, [], k) == [];
    }
  }

  /**
   Whenever an append fails after something was sent on idle connections, the next command to
   the node of the first piece is answered with what belongs to that piece.
   */
  lemma StaleAnswer(net: Net, f: Fifos, r: Request, p: Piece)
    requires Aligned(net, [], f) && 0 < FirstBad(net, Parts(r)) < |Parts(r)|
    requires NodeOf(net, p) == NodeOf(net, Parts(r)[0])
    ensures var g := Push(net, PushAll(net, f, Parts(r)[..FirstBad(net, Parts(r))]), p);
            Ample(net, g, [p]) && PopAll(net, g, [p]).1 == [Parts(r)[0]]
  {
    hide PopAll;
    hide PushAll;
    hide Ample;
    hide Parts;
    var sent := Parts(r)[..FirstBad(net, Parts(r))];
    assert sent[0] == Parts(r)[0];
    var n := NodeOf(net, p).value;
    var g := PushAll(net, f, sent);
    PushAllAt(net, f, sent, n);
    OnFirst(net, sent, n);
    assert f[n] == [] by {
      assert On(net, AllParts([]), n) == [];
    }
    PopOne(net, Push(net, g, p), p, n);
  }

  /** Two nodes, of which the second is down; a piece is answered with its command's number. */
  const HALF_DOWN: Net := Net([Some(0), Some(1)], [false, true], (p: Piece) => Integer(p.id))
  const FIRST: Request := Request(Piece(1, 1), MGET, [0, 1])
  const SECOND: Request := Request(Piece(2, 0), GET, [0])

  lemma MembersOfTwo(slot: nat)
    ensures Members([0, 1], slot) == if slot < 2 then [slot] else []
  {
    MembersStep([0, 1], 0, slot);
    MembersStep([0, 1], 1, slot);
    assert Members([0, 1][..0], slot) == [];
    assert [0, 1][..2] == [0, 1];
  }

  lemma {:induction false} TwoOccupied(bound: nat)
    requires bound >= 2
    ensures Occupied([0, 1], bound) == [0, 1]
  {
    hide Members;
    OccupiedStep([0, 1], bound - 1);
    MembersOfTwo(bound - 1);
    if bound > 2 {
      TwoOccupied(bound - 1);
    } else {
      OccupiedStep([0, 1], 0);
      MembersOfTwo(0);
      assert Occupied([0, 1], 0) == [];
    }
  }

  lemma HalfSent()
    ensures Parts(FIRST) == [Piece(1, 0), Piece(1, 1)] && FirstBad(HALF_DOWN, Parts(FIRST)) == 1
    ensures Parts(SECOND) == [SECOND.whole] && FirstBad(HALF_DOWN, Parts(SECOND)) == 1
    ensures NodeOf(HALF_DOWN, SECOND.whole) == Some(0) == NodeOf(HALF_DOWN, Piece(1, 0))
  {
    hide Occupied;
    TwoOccupied(SLOTS);
    assert !IsSplit(SECOND);
    assert IsSplit(FIRST);
    FirstBadIs(HALF_DOWN, [Piece(1, 0), Piece(1, 1)], 1);
    FirstBadIs(HALF_DOWN, [SECOND.whole], 1);
  }

  /**
   An MGET over both nodes is refused, its first fragment having been sent; the GET after it
   is accepted, and handed the answer to that fragment.
   */
  method WrongReply() returns (p: Pipeline, outs: seq<Out>)
    ensures outs == [Refused, Appended, Got(Integer(1))] && Expected(HALF_DOWN, SECOND) == Got(Integer(2))
  {
    hide PopAll;
    hide PushAll;
    hide Parts;
    hide Occupied;
    hide FirstBad;
    hide Aligned;
    hide Ample;
    hide Push;
    hide NodeOf;
    hide IsSplit;
    hide Merged;
    hide Expected;
    HalfSent();
    AnswersOfTwo();
    p := new Pipeline(HALF_DOWN);
    ghost var f := p.conns[..];
    StaleAnswer(HALF_DOWN, f, FIRST, SECOND.whole);
    var out1 := p.Append(FIRST);
    ghost var sent := p.conns[..];
    var out2 := p.Append(SECOND);
    assert Parts(SECOND)[..1] == [SECOND.whole];
    PushOne(HALF_DOWN, sent, SECOND.whole);
    var out3 := p.GetReply();
    outs := [out1, out2, out3];
  }

  lemma AnswersOfTwo()
    requires Parts(SECOND) == [SECOND.whole]
    ensures Merged(HALF_DOWN, SECOND, [Piece(1, 0)]) == Got(Integer(1))
    ensures Expected(HALF_DOWN, SECOND) == Got(Integer(2))
  {
    hide Occupied;
    assert !IsSplit(SECOND);
  }

  lemma PushOne(net: Net, f: Fifos, p: Piece)
    requires |f| == |net.down| && NodeOf(net, p).Some?
    ensures Reachable(net, [p]) && PushAll(net, f, [p]) == Push(net, f, p)
  {
    assert [p][..0] == [];
  }

  // ------------------------------------------------------------ the k-th reply

  /** What the get-replies with a request to answer have handed out. */
  function Handed(outs: seq<Out>): seq<Out> {
    if outs == [] then []
    else
      var last := outs[|outs| - 1];
      Handed(outs[..|outs| - 1]) + if last.Got? || last.Unmerged? then [last] else []
  }

  function Accepted(net: Net, es: seq<Event>): seq<Request> {
    if es == [] then []
    else
      var e := es[|es| - 1];
      Accepted(net, es[..|es| - 1]) + if e.DoAppend? && Reachable(net, Parts(e.r)) then [e.r] else []
  }

  function ExpectedAll(net: Net, rs: seq<Request>): (outs: seq<Out>)
    ensures |outs| == |rs| && forall i :: 0 <= i < |rs| ==> outs[i] == Expected(net, rs[i])
  {
    seq(|rs|, i requires 0 <= i < |rs| => Expected(net, rs[i]))
  }

  lemma HandedNext(outs: seq<Out>, out: Out)
    ensures Handed(outs + [out]) == if out.Got? || out.Unmerged? then Handed(outs) + [out] else Handed(outs)
  {
    assert (outs + [out])[..|outs|] == outs;
  }

  lemma ExpectedNext(net: Net, rs: seq<Request>, r: Request)
    ensures ExpectedAll(net, rs + [r]) == ExpectedAll(net, rs) + [Expected(net, r)]
    ensures ExpectedAll(net, [r] + rs) == [Expected(net, r)] + ExpectedAll(net, rs)
  {
    hide Expected;
  }

  /**
   The ideal queue hands out the answers in the order of the appends: what has been handed
   out, followed by what is still owed, are the answers to all accepted requests in order.
   */
  lemma {:induction false} KthReplyAnswersKthAppend(net: Net, es: seq<Event>)
    ensures var (q, outs) := Ideal(net, [], es);
            Handed(outs) + ExpectedAll(net, q) == ExpectedAll(net, Accepted(net, es))
  {
    hide Handed;
    hide ExpectedAll;
    hide Expected;
    hide Reachable;
    hide Ideal;
    hide Parts;
    hide Accepted;
    if es == [] {
      NothingHanded(net);
    } else {
      var front, e := es[..|es| - 1], es[|es| - 1];
      assert es == front + [e];
      KthReplyAnswersKthAppend(net, front);
      IdealStep(net, [], front, e);
      AcceptedNext(net, front, e);
      var (p, outs) := Ideal(net, [], front);
      if e.DoAppend? {
        OweOneMore(net, p, outs, Accepted(net, front), e.r);
      } else if p == [] {
        HandedNext(outs, Nothing);
      } else {
        PayOldest(net, p, outs);
      }
    }
  }

  lemma OweOneMore(net: Net, q: seq<Request>, outs: seq<Out>, accepted: seq<Request>, r: Request)
    requires Handed(outs) + ExpectedAll(net, q) == ExpectedAll(net, accepted)
    ensures Handed(outs + [Appended]) + ExpectedAll(net, q + [r]) == ExpectedAll(net, accepted + [r])
    ensures Handed(outs + [Refused]) == Handed(outs)
  {
    hide Handed;
    hide ExpectedAll;
    hide Expected;
    HandedNext(outs, Appended);
    HandedNext(outs, Refused);
    ExpectedNext(net, q, r);
    ExpectedNext(net, accepted, r);
  }

  lemma PayOldest(net: Net, q: seq<Request>, outs: seq<Out>)
    requires q != []
    ensures Handed(outs + [Expected(net, q[0])]) + ExpectedAll(net, q[1..]) == Handed(outs) + ExpectedAll(net, q)
  {
    hide Handed;
    hide ExpectedAll;
    hide Expected;
    ExpectedIsHanded(net, q[0]);
    HandedNext(outs, Expected(net, q[0]));
    assert q == [q[0]] + q[1..];
    ExpectedNext(net, q[1..], q[0]);
  }

  lemma NothingHanded(net: Net)
    ensures Handed([]) == [] && ExpectedAll(net, []) == [] && Ideal(net, [], []) == ([], []) && Accepted(net, []) == []
  {}

  lemma AcceptedNext(net: Net, es: seq<Event>, e: Event)
    ensures Accepted(net, es + [e]) ==
            if e.DoAppend? && Reachable(net, Parts(e.r)) then Accepted(net, es) + [e.r] else Accepted(net, es)
  {
    assert (es + [e])[..|es|] == es;
  }

  lemma ExpectedIsHanded(net: Net, r: Request)
    ensures Expected(net, r).Got? || Expected(net, r).Unmerged?
  {}
}
