/**
 The incremental reply reader of read.cpp with the object builders of hiredis.cpp.
 Replies are heap objects linked into their parents as they are created; the ghost
 state `S` is the state of the machine in `Resp`, and every method is proved to
 make exactly that machine's moves.
 */
module Reader {
  import opened Bytes
  import opened Resp
  import Sds

  const REPLY_STRING := 1
  const REPLY_ARRAY := 2
  const REPLY_INTEGER := 3
  const REPLY_NIL := 4
  const REPLY_STATUS := 5
  const REPLY_ERROR := 6

  function TypeCode(k: Kind): int {
    match k
    case KString => REPLY_STRING
    case KArray => REPLY_ARRAY
    case KInteger => REPLY_INTEGER
    case KStatus => REPLY_STATUS
    case KError => REPLY_ERROR
  }

  /** A reply object; `Repr` is ghost bookkeeping for the objects it owns so far. */
  class ReplyObject {
    var typ: int
    var integer: int
    var str: seq<byte>
    var elements: int
    var element: array?<ReplyObject?>
    ghost var Repr: set<object>

    constructor (typ: int)
      ensures this.typ == typ && element == null && Repr == {this}
      ensures elements == 0 && integer == 0 && str == []
    {
      this.typ := typ;
      integer := 0;
      str := [];
      elements := 0;
      element := null;
      Repr := {this};
    }

    /** The object is the complete reply `v`. */
    ghost predicate Holds(v: Reply)
      reads this, Repr
      decreases v, 0
    {
      this in Repr &&
      match v
      case Str(s) => typ == REPLY_STRING && str == s
      case Status(s) => typ == REPLY_STATUS && str == s
      case Error(s) => typ == REPLY_ERROR && str == s
      case Integer(i) => typ == REPLY_INTEGER && integer == i
      case Nil => typ == REPLY_NIL
      case NegArray(n) => typ == REPLY_ARRAY && elements == n && element == null
      case Arr(vs) =>
        typ == REPLY_ARRAY && elements == |vs| &&
        (|vs| == 0 ==> element == null) &&
        (|vs| > 0 ==> HasRoom(|vs|) && forall i :: 0 <= i < |vs| ==> Filled(i, vs[i]))
    }

    ghost predicate HasRoom(n: int)
      reads this, Repr
    {
      this in Repr && element != null && element in Repr && element.Length == n
    }

    /** Element `i` is the complete reply `v`, and nothing in it leads back here. */
    ghost predicate Filled(i: nat, v: Reply)
      requires HasRoom(elements)
      reads this, Repr
      decreases v, 1
    {
      i < element.Length &&
      var o := element[i];
      o != null && o in Repr && o.Repr <= Repr && this !in o.Repr && element !in o.Repr && o.Holds(v)
    }

    /** The object is an array whose first elements are those of `f`. */
    ghost predicate Building(f: Frame)
      reads this, Repr
    {
      typ == REPLY_ARRAY && elements == f.count && HasRoom(f.count) && |f.done| <= f.count &&
      forall i :: 0 <= i < |f.done| ==> Filled(i, f.done[i])
    }
  }

  /** The ghost side of delivering `o`: the parent now owns it. */
  ghost method Adopt(p: ReplyObject, o: ReplyObject, v: Reply, f: Frame)
    requires p.Building(f) && |f.done| < f.count && p.element[|f.done|] == o
    requires o.Holds(v) && p !in o.Repr && p.element !in o.Repr && p.Repr !! o.Repr
    modifies p`Repr
    ensures p.Repr == old(p.Repr) + o.Repr
    ensures p.Building(Frame(f.count, f.done + [v]))
  {
    p.Repr := p.Repr + o.Repr;
    forall i | 0 <= i < |f.done|
      ensures p.Filled(i, f.done[i])
    {
      assert old(p.Filled(i, f.done[i]));
    }
    assert p.Filled(|f.done|, v);
  }

  /** The type codes of read.h, and where each kind of reply keeps its value. */
  lemma HoldsCodes(o: ReplyObject, v: Reply)
    requires o.Holds(v)
    ensures match v
            case Str(s) => o.typ == 1 && o.str == s
            case Arr(vs) => o.typ == 2 && o.elements == |vs| && (vs != [] ==> o.element != null && o.element.Length == |vs|)
            case Integer(i) => o.typ == 3 && o.integer == i
            case Nil => o.typ == 4
            case Status(s) => o.typ == 5 && o.str == s
            case Error(s) => o.typ == 6 && o.str == s
            case NegArray(n) => o.typ == 2 && o.elements == n && o.element == null
    ensures v.Arr? ==> forall i :: 0 <= i < |v.elems| ==> o.element[i] != null && o.element[i].Holds(v.elems[i])
  {
    if v.Arr? {
      forall i | 0 <= i < |v.elems|
        ensures o.element[i] != null && o.element[i].Holds(v.elems[i])
      {
        assert o.Filled(i, v.elems[i]);
      }
    }
  }

  // ------------------------------------------------- reply objects under construction

  /** `o` is an array that belongs to the nodes `N` and holds the elements delivered so far. */
  ghost predicate Owned(N: set<object>, o: ReplyObject, f: Frame)
    reads N
  {
    o in N && o.Repr <= N && o.Building(f)
  }

  /** The next element of the array `o` is the object `c`. */
  ghost predicate Points(N: set<object>, o: ReplyObject, f: Frame, c: ReplyObject)
    reads N
  {
    Owned(N, o, f) && |f.done| < f.count && o.element[|f.done|] == c
  }

  ghost predicate Apart(N: set<object>, a: ReplyObject, b: ReplyObject)
    reads N
  {
    a in N && b in N && a.Repr !! b.Repr
  }

  /** The open arrays, outermost first, each pointing at the next. */
  ghost predicate Tower(N: set<object>, objs: seq<ReplyObject>, frames: seq<Frame>)
    reads N
  {
    |objs| == |frames| &&
    (forall i :: 0 <= i < |objs| ==> Owned(N, objs[i], frames[i])) &&
    (forall i, j :: 0 <= i < j < |objs| ==> Apart(N, objs[i], objs[j])) &&
    (forall i :: 0 < i < |objs| ==> Points(N, objs[i - 1], frames[i - 1], objs[i]))
  }

  /** `o` is the complete reply `v`, linked into the innermost array but not yet counted. */
  ghost predicate Linked(N: set<object>, objs: seq<ReplyObject>, frames: seq<Frame>, o: ReplyObject, v: Reply)
    reads N
  {
    Tower(N, objs, frames) && o in N && o.Repr <= N && o.Holds(v) &&
    (forall i :: 0 <= i < |objs| ==> Apart(N, objs[i], o)) &&
    (objs != [] ==> Points(N, objs[|objs| - 1], frames[|frames| - 1], o))
  }

  /** Counting a value: the innermost array owns it, and is itself complete when that fills it. */
  ghost method Count(N: set<object>, objs: seq<ReplyObject>, frames: seq<Frame>,
                     p: ReplyObject, o: ReplyObject, v: Reply)
    requires objs != [] && p == objs[|objs| - 1] && Linked(N, objs, frames, o, v)
    modifies p`Repr
    ensures var n := |objs| - 1;
            var f := frames[n];
            if |f.done| + 1 == f.count
            then Linked(N, objs[..n], frames[..n], objs[n], Arr(f.done + [v]))
            else Tower(N, objs, frames[..n] + [Frame(f.count, f.done + [v])])
  {
    hide ReplyObject.Building;
    var n := |objs| - 1;
    var f := frames[n];
    CountIn(N, objs, frames, p, o, v);
    if |f.done| + 1 == f.count {
      Completed(p, f.done + [v]);
    }
  }

  lemma HasItself(p: ReplyObject, f: Frame)
    requires p.Building(f)
    ensures p in p.Repr && p.element != null && p.element in p.Repr && p.element.Length == f.count
  {}

  lemma Completed(p: ReplyObject, vs: seq<Reply>)
    requires p.Building(Frame(|vs|, vs)) && vs != []
    ensures p.Holds(Arr(vs))
  {}

  ghost method CountIn(N: set<object>, objs: seq<ReplyObject>, frames: seq<Frame>,
                       p: ReplyObject, o: ReplyObject, v: Reply)
    requires objs != [] && p == objs[|objs| - 1] && Linked(N, objs, frames, o, v)
    modifies p`Repr
    ensures |objs| == |frames|
    ensures var n := |objs| - 1;
            var f := frames[n];
            Tower(N, objs[..n], frames[..n]) && Owned(N, p, Frame(f.count, f.done + [v])) && |f.done| < f.count &&
            (forall i :: 0 <= i < n ==> Apart(N, objs[i], p)) &&
            (n > 0 ==> Points(N, objs[n - 1], frames[n - 1], p))
  {
    hide ReplyObject.Building;
    hide ReplyObject.Holds;
    var n := |objs| - 1;
    var f := frames[n];
    assert Owned(N, p, f) && Points(N, p, f, o) && Apart(N, p, o);
    HasItself(p, f);
    forall i | 0 <= i < n
      ensures objs[i] != p && p !in objs[i].Repr
    {
      assert Apart(N, objs[i], p) && Owned(N, objs[i], frames[i]);
      HasItself(objs[i], frames[i]);
    }
    Adopt(p, o, v, f);
    forall i | 0 <= i < n
      ensures Owned(N, objs[i], frames[i]) && Apart(N, objs[i], p)
    {
      assert old(Owned(N, objs[i], frames[i])) && old(Apart(N, objs[i], p)) && old(Apart(N, objs[i], o));
    }
    forall i, j | 0 <= i < j < n
      ensures Apart(N, objs[i], objs[j])
    {
      assert old(Apart(N, objs[i], objs[j]));
    }
    forall i | 0 < i <= n
      ensures Points(N, objs[i - 1], frames[i - 1], objs[i])
    {
      assert old(Points(N, objs[i - 1], frames[i - 1], objs[i])) && Owned(N, objs[i - 1], frames[i - 1]);
      HasItself(objs[i - 1], frames[i - 1]);
    }
  }

  /** Writes the new object `o` into the next element of the innermost array `p`. */
  method SetElement(ghost N: set<object>, ghost objs: seq<ReplyObject>, ghost frames: seq<Frame>,
                    p: ReplyObject, idx: nat, o: ReplyObject)
    requires objs != [] && p == objs[|objs| - 1] && Tower(N, objs, frames)
    requires var f := frames[|frames| - 1]; idx == |f.done| < f.count
    requires o in o.Repr && o.Repr !! N
    modifies p.element
    ensures Tower(N + o.Repr, objs, frames)
    ensures Points(N + o.Repr, p, frames[|frames| - 1], o)
    ensures forall i :: 0 <= i < |objs| ==> Apart(N + o.Repr, objs[i], o)
  {
    ghost var n := |objs| - 1;
    assert Owned(N, p, frames[n]);
    forall i | 0 <= i < n
      ensures p.element !in objs[i].Repr
    {
      assert Apart(N, objs[i], p) && Owned(N, objs[i], frames[i]);
    }
    p.element[idx] := o;
    forall i | 0 <= i < |frames[n].done|
      ensures p.Filled(i, frames[n].done[i])
    {
      assert old(p.Filled(i, frames[n].done[i]));
    }
    forall i | 0 <= i <= n
      ensures Owned(N + o.Repr, objs[i], frames[i])
    {
      assert old(Owned(N, objs[i], frames[i]));
    }
    forall i, j | 0 <= i < j <= n
      ensures Apart(N + o.Repr, objs[i], objs[j])
    {
      assert old(Apart(N, objs[i], objs[j]));
    }
    forall i | 0 < i <= n
      ensures Points(N + o.Repr, objs[i - 1], frames[i - 1], objs[i])
    {
      assert old(Points(N, objs[i - 1], frames[i - 1], objs[i]));
    }
  }

  lemma InnermostOwned(N: set<object>, objs: seq<ReplyObject>, frames: seq<Frame>)
    requires objs != [] && Tower(N, objs, frames)
    ensures |objs| == |frames| && objs[|objs| - 1] in N
    ensures objs[|objs| - 1].element != null && objs[|objs| - 1].element in N
  {
    assert Owned(N, objs[|objs| - 1], frames[|objs| - 1]);
  }

  lemma StepCompletes(st: State, rest: seq<byte>, v: Reply, used: nat)
    requires st.kind.Some? && !(st.kind.value == KArray && |st.frames| == MAX_DEPTH)
    requires Scan(st.kind.value, rest) == Whole(v, used)
    ensures Step(st, rest) == Go(State(Deliver(st.frames, v).0, None), used, Deliver(st.frames, v).1)
  {}

  lemma ScanWaits(kind: Kind, rest: seq<byte>)
    requires Newline(rest).None?
    ensures Scan(kind, rest) == Need
  {}

  lemma BulkScan(rest: seq<byte>, i: nat, n: int)
    requires Newline(rest) == Some(i) && n == Number(rest, i)
    ensures Scan(KString, rest) ==
            if n < 0 then Whole(Nil, i + 2)
            else if i + 2 + n + 2 <= |rest| then Whole(Str(rest[i + 2..i + 2 + n]), i + 2 + n + 2)
            else Need
  {
    hide Number;
    hide Newline;
  }

  lemma Sliced(rest: seq<byte>, buf: seq<byte>, p: nat, n: nat)
    requires p <= |buf| && rest == buf[p..] && n <= |rest|
    ensures buf[p + n..] == rest[n..]
  {}

  lemma SlicedOut(rest: seq<byte>, buf: seq<byte>, p: nat, i: nat, n: nat)
    requires p <= |buf| && rest == buf[p..] && i + n <= |rest|
    ensures buf[p + i..p + i + n] == rest[i..i + n]
  {}

  lemma StepWaits(st: State, rest: seq<byte>)
    requires st.kind.Some? && !(st.kind.value == KArray && |st.frames| == MAX_DEPTH)
    requires Scan(st.kind.value, rest) == Need
    ensures Step(st, rest) == Wait
  {}

  lemma TypedStep(st: State, b: seq<byte>)
    requires st.kind.Some?
    ensures match Step(st, b)
            case Wait => !(st.kind == Some(KArray) && |st.frames| == MAX_DEPTH)
            case Fail(_) => true
            case Go(st', _, _) => st'.kind == None
  {}

  lemma StuckWhenEmpty(st: State)
    requires !(st.kind == Some(KArray) && |st.frames| == MAX_DEPTH)
    ensures Run(st, []) == Stuck(st, [], [])
  {}

  lemma RunAtType(st: State, b: seq<byte>)
    requires st.kind.None?
    ensures b == [] ==> Run(st, b) == Stuck(st, b, [])
    ensures b != [] && KindOf(b[0]).None? ==> Run(st, b) == Failed(BadType(b[0]), [])
  {}

  lemma TowerGrows(N: set<object>, objs: seq<ReplyObject>, frames: seq<Frame>, o: ReplyObject, n: nat)
    requires Tower(N, objs, frames) && n > 0
    requires Owned(N, o, Frame(n, [])) && forall i :: 0 <= i < |objs| ==> Apart(N, objs[i], o)
    requires objs != [] ==> Points(N, objs[|objs| - 1], frames[|objs| - 1], o)
    ensures Tower(N, objs + [o], frames + [Frame(n, [])])
  {
    hide Owned;
    hide Points;
  }

  /** One entry of the task stack; `parent` is the index of the parent task, or -1. */
  datatype ReadTask = ReadTask(typ: int, elements: int, idx: int, obj: ReplyObject?, parent: int)

  /** Task `i` is the open array `o`, and the task above it reads that array's next element. */
  ghost predicate TaskIs(stack: seq<ReadTask>, i: nat, o: ReplyObject, f: Frame) {
    i + 1 < |stack| &&
    stack[i].typ == REPLY_ARRAY && stack[i].elements == f.count && stack[i].obj == o &&
    stack[i + 1].parent == i && stack[i + 1].idx == |f.done|
  }

  ghost predicate TasksAre(stack: seq<ReadTask>, objs: seq<ReplyObject>, frames: seq<Frame>) {
    |stack| == 9 && |objs| == |frames| && Good(frames) && stack[0].parent == -1 &&
    forall i :: 0 <= i < |frames| ==> TaskIs(stack, i, objs[i], frames[i])
  }

  lemma TaskAdvances(stack: seq<ReadTask>, objs: seq<ReplyObject>, frames: seq<Frame>, v: Reply)
    requires TasksAre(stack, objs, frames) && frames != []
    requires var f := frames[|frames| - 1]; |f.done| + 1 < f.count
    ensures var n := |frames| - 1;
            var f := frames[n];
            TasksAre(stack[n + 1 := stack[n + 1].(typ := -1, elements := -1, idx := stack[n + 1].idx + 1)],
                     objs, frames[..n] + [Frame(f.count, f.done + [v])])
  {
    var n := |frames| - 1;
    assert forall i :: 0 <= i <= n ==> TaskIs(stack, i, objs[i], frames[i]);
  }

  predicate KindMatches(typ: int, kind: Option<Kind>) {
    match kind
    case None => typ == -1
    case Some(k) => typ == TypeCode(k)
  }

  class Reader {
    var err: Option<ReadError>
    var buf: seq<byte>
    var pos: nat
    var len: nat
    const rstack: array<ReadTask>
    var ridx: int
    var reply: ReplyObject?

    ghost var S: State                  // where the machine of Resp stands
    ghost var objs: seq<ReplyObject>    // the open arrays, outermost first
    ghost var N: set<object>            // every object of the reply under construction

    ghost function Rest(): seq<byte>
      reads this
    {
      if pos <= |buf| then buf[pos..] else []
    }

    ghost predicate Shape()
      reads this
    {
      this !in N && (rstack as object) !in N && pos <= len == |buf| && -1 <= ridx &&
      (err.Some? ==> ridx == -1 && buf == [])
    }

    ghost predicate Valid()
      reads this, rstack, N
    {
      Shape() && rstack.Length == 9 &&
      (ridx == -1 ==> S == START && objs == []) &&
      (ridx != -1 ==> Busy() && KindMatches(rstack[ridx].typ, S.kind))
    }

    /** The task stack, the ghost state and the object graph describe the same open arrays. */
    ghost predicate Busy()
      reads this, rstack, N
    {
      rstack.Length == 9 && ridx == |S.frames| == |objs| <= 8 &&
      TasksAre(rstack[..], objs, S.frames) && Tower(N, objs, S.frames) &&
      (ridx > 0 ==> reply == objs[0])
    }

    /** The reply `em` has been completed, if there is one, and nothing is left on the stack. */
    ghost predicate Emitted(em: Option<Reply>)
      reads this, N
    {
      if em.None? then ridx != -1
      else ridx == -1 && reply != null && reply in N && reply.Repr <= N && reply.Holds(em.value)
    }

    /** One turn of moveToNextTask above the root: count the value, then close the array or go on. */
    method Turn(ghost nodes: set<object>, ghost os: seq<ReplyObject>, ghost fs: seq<Frame>,
                ghost p: ReplyObject, ghost o: ReplyObject, ghost v: Reply) returns (closed: bool)
      requires this !in nodes && (rstack as object) !in nodes
      requires TasksAre(rstack[..], os, fs) && ridx == |fs| > 0 && p == os[ridx - 1]
      requires Linked(nodes, os, fs, o, v)
      modifies this`ridx, rstack, p`Repr
      ensures var n := |fs| - 1;
              var f := fs[n];
              closed == (|f.done| + 1 == f.count) &&
              if closed then
                ridx == n && |os| == |fs| && TasksAre(rstack[..], os[..n], fs[..n]) && Linked(nodes, os[..n], fs[..n], p, Arr(f.done + [v]))
              else
                ridx == |fs| && rstack.Length == 9 && rstack[ridx].typ == -1 &&
                TasksAre(rstack[..], os, fs[..n] + [Frame(f.count, f.done + [v])]) &&
                Tower(nodes, os, fs[..n] + [Frame(f.count, f.done + [v])])
    {
      hide Tower;
      hide Owned;
      hide Points;
      var cur := rstack[ridx];
      var prv := rstack[ridx - 1];
      assert TaskIs(rstack[..], ridx - 1, p, fs[ridx - 1]);
      closed := cur.idx == prv.elements - 1;
      if !closed {
        TaskAdvances(rstack[..], os, fs, v);
      }
      Count(nodes, os, fs, p, o, v);
      if closed {
        ridx := ridx - 1;
      } else {
        rstack[ridx] := cur.(typ := -1, elements := -1, idx := cur.idx + 1);
      }
    }

    /** The stack is empty: the root reply is complete. */
    method Leave(ghost o: ReplyObject, ghost v: Reply)
      requires Shape() && err.None? && rstack.Length == 9 && ridx == 0 && reply == o
      requires o in N && o.Repr <= N && o.Holds(v)
      modifies this`ridx, this`S, this`objs
      ensures Valid() && S == START && Emitted(Some(v))
    {
      ridx := ridx - 1;
      S := START;
      objs := [];
    }

    /** The next element of an open array is read next. */
    ghost method Settle(os: seq<ReplyObject>, fs: seq<Frame>)
      requires Shape() && err.None? && rstack.Length == 9 && 0 < ridx == |fs| <= 8 && rstack[ridx].typ == -1
      requires TasksAre(rstack[..], os, fs) && Tower(N, os, fs) && reply == os[0]
      modifies this`S, this`objs
      ensures Valid() && S == State(fs, None) && Emitted(None)
    {
      S := State(fs, None);
      objs := os;
    }

    method MoveToNextTask(ghost o0: ReplyObject, ghost v0: Reply)
      requires Shape() && err.None? && Busy() && Linked(N, objs, S.frames, o0, v0)
      requires ridx == 0 ==> reply == o0
      modifies this`ridx, this`S, this`objs, rstack, N
      ensures Valid()
      ensures S == State(Deliver(old(S.frames), v0).0, None)
      ensures Emitted(Deliver(old(S.frames), v0).1)
    {
      hide Tower;
      hide TasksAre;
      hide ReplyObject.Building;
      hide Points;
      ghost var nodes, os, fs := N, objs, S.frames;
      ghost var o, v := o0, v0;
      while ridx >= 0
        invariant TasksAre(rstack[..], os, fs) && ridx == |fs| == |os|
        invariant Linked(nodes, os, fs, o, v)
        invariant reply == if ridx == 0 then o else os[0]
        invariant Deliver(fs, v) == Deliver(old(S.frames), v0)
        decreases ridx
      {
        if ridx == 0 {
          Leave(o, v);
          return;
        }
        ghost var n := ridx - 1;
        ghost var f := fs[n];
        ghost var p := os[n];
        InnermostOwned(nodes, os, fs);
        var closed := Turn(nodes, os, fs, p, o, v);
        if !closed {
          Settle(os, fs[..n] + [Frame(f.count, f.done + [v])]);
          return;
        }
        o, v, os, fs := p, Arr(f.done + [v]), os[..n], fs[..n];
      }
    }

    // ------------------------------------------------------------ lines and numbers

    /** The byte at `i`; the buffer is followed by its NUL terminator. */
    function At(i: nat): byte
      reads this
      requires i <= |buf|
    {
      if i < |buf| then buf[i] else NUL
    }

    /** seekNewline on the `n` bytes at `p`, the unread part of the buffer: an offset, or -1. */
    method SeekNewline(p: nat, n: nat) returns (r: int)
      requires p + n == |buf|
      ensures r == match Newline(buf[p..]) case None => -1 case Some(i) => i as int
    {
      ghost var s := buf[p..];
      var i := 0;
      var last := n - 1;
      while i < last
        invariant 0 <= i && (i <= last || n <= i)
        invariant forall j: nat :: j < i ==> !BreakAt(s, j)
      {
        while i < last && At(p + i) != CR
          invariant 0 <= i <= last
          invariant forall j: nat :: j < i ==> !BreakAt(s, j)
        {
          assert s[i] == buf[p + i];
          i := i + 1;
        }
        assert s[i] == buf[p + i];
        if At(p + i) != CR {
          return -1;
        } else if At(p + i + 1) == LF {
          assert s[i + 1] == buf[p + i + 1];
          NewlineUnique(s, i);
          return i;
        } else {
          assert i + 1 < n ==> s[i + 1] == buf[p + i + 1];
          i := i + 1;
        }
      }
      return -1;
    }

    /** readLongLong at `p`, where a line ends at offset `i`. */
    method ReadLongLong(p: nat, ghost i: nat) returns (n: int)
      requires p <= |buf| && BreakAt(buf[p..], i)
      ensures n == Number(buf[p..], i)
    {
      ghost var line := buf[p..][..i + 1];
      assert line == buf[p..p + i + 1];
      var k := 0;
      var v := 0;
      var mult := 1;
      if buf[p] == MINUS {
        mult := -1;
        k := 1;
      } else if buf[p] == PLUS {
        k := 1;
      }
      ghost var all := Digits(line[k..], 0);
      while buf[p + k] != CR
        invariant 0 <= k <= i && v >= 0
        invariant EndsInCr(line[k..]) && Digits(line[k..], v) == all
        decreases i - k
      {
        assert line[k..][0] == buf[p + k] && line[k..][1..] == line[k + 1..];
        if !IsDigit(buf[p + k]) {
          return -1;
        }
        v := v * 10 + DigitVal(buf[p + k]);
        k := k + 1;
      }
      assert line[k..][0] == buf[p + k];
      return mult * v;
    }

    // ------------------------------------------------------------ creating objects

    /** The tail of every create function: link the new object into its parent, if there is one. */
    method LinkNew(o: ReplyObject)
      requires Shape() && err.None? && Busy()
      requires o in o.Repr && o.Repr !! N && this !in o.Repr && (rstack as object) !in o.Repr
      modifies this`N, N
      ensures N == old(N) + o.Repr && Shape() && Busy() && unchanged(o.Repr)
      ensures forall i :: 0 <= i < |objs| ==> Apart(N, objs[i], o)
      ensures objs != [] ==> Points(N, objs[|objs| - 1], S.frames[|objs| - 1], o)
    {
      hide ReplyObject.Building;
      var task := rstack[ridx];
      if ridx > 0 {
        assert TaskIs(rstack[..], ridx - 1, objs[ridx - 1], S.frames[ridx - 1]);
        InnermostOwned(N, objs, S.frames);
      }
      if task.parent >= 0 {
        var parent := rstack[task.parent].obj;
        SetElement(N, objs, S.frames, parent, task.idx, o);
      }
      N := N + o.Repr;
    }

    /** Sets the root reply and moves on, once the object for the current task is linked. */
    method Finish(o: ReplyObject, ghost v: Reply)
      requires Shape() && err.None? && Busy() && Linked(N, objs, S.frames, o, v)
      modifies this`ridx, this`S, this`objs, this`reply, rstack, N
      ensures Valid()
      ensures S == State(Deliver(old(S.frames), v).0, None)
      ensures Emitted(Deliver(old(S.frames), v).1)
    {
      if ridx == 0 {
        reply := o;
      }
      MoveToNextTask(o, v);
    }

    /** createStringObject: the object takes the type of the current task. */
    method CreateStringObject(str: seq<byte>, ghost v: Reply) returns (o: ReplyObject)
      requires Shape() && err.None? && Busy()
      requires var t := rstack[ridx].typ;
               (v == Str(str) && t == REPLY_STRING) || (v == Status(str) && t == REPLY_STATUS) ||
               (v == Error(str) && t == REPLY_ERROR)
      modifies this`N, N
      ensures Shape() && Busy() && Linked(N, objs, S.frames, o, v)
      ensures fresh(N - old(N))
    {
      hide Tower;
      hide TasksAre;
      o := new ReplyObject(rstack[ridx].typ);
      o.str := str;
      LinkNew(o);
    }

    /** createIntegerObject. */
    method CreateIntegerObject(value: int) returns (o: ReplyObject)
      requires Shape() && err.None? && Busy()
      modifies this`N, N
      ensures Shape() && Busy() && Linked(N, objs, S.frames, o, Integer(value))
      ensures fresh(N - old(N))
    {
      hide Tower;
      hide TasksAre;
      o := new ReplyObject(REPLY_INTEGER);
      o.integer := value;
      LinkNew(o);
    }

    /** createNilObject. */
    method CreateNilObject() returns (o: ReplyObject)
      requires Shape() && err.None? && Busy()
      modifies this`N, N
      ensures Shape() && Busy() && Linked(N, objs, S.frames, o, Nil)
      ensures fresh(N - old(N))
    {
      hide Tower;
      hide TasksAre;
      o := new ReplyObject(REPLY_NIL);
      LinkNew(o);
    }

    /** createArrayObject: a positive count gets an array of null pointers. */
    method CreateArrayObject(elements: int) returns (o: ReplyObject)
      requires Shape() && err.None? && Busy() && elements != -1
      modifies this`N, N
      ensures Shape() && Busy() && fresh(N - old(N))
      ensures elements == 0 ==> Linked(N, objs, S.frames, o, Arr([]))
      ensures elements < 0 ==> Linked(N, objs, S.frames, o, NegArray(elements))
      ensures elements > 0 ==>
                Owned(N, o, Frame(elements, [])) &&
                (forall i :: 0 <= i < |objs| ==> Apart(N, objs[i], o)) &&
                (objs != [] ==> Points(N, objs[|objs| - 1], S.frames[|objs| - 1], o))
    {
      hide Tower;
      hide TasksAre;
      o := new ReplyObject(REPLY_ARRAY);
      if elements > 0 {
        o.element := new ReplyObject?[elements](_ => null);
        o.Repr := {o, o.element};
      }
      o.elements := elements;
      LinkNew(o);
    }

    // ------------------------------------------------------------ items

    /** What one item did, compared with the step the machine makes from the state before. */
    ghost predicate Lands(r: Stepped, ok: bool, before: State, rest: seq<byte>)
      reads this, N
    {
      match r
      case Wait => !ok && err.None? && ridx != -1 && S == before && Rest() == rest
      case Fail(e) => !ok && err == Some(e)
      case Go(st, used, em) => ok && err.None? && S == st && used <= |rest| && Rest() == rest[used..] &&
                                (em.Some? <==> ridx == -1) && Emitted(em)
    }

    method SetError(e: ReadError)
      requires Valid() && err.None?
      modifies this
      ensures Valid() && err == Some(e) && N == old(N) && reply == null && Rest() == []
    {
      reply := null;
      buf := [];
      pos := 0;
      len := 0;
      ridx := -1;
      err := Some(e);
      S := START;
      objs := [];
    }

    /** readLine: the offset of the line break that ends the next line, or -1; the cursor moves past it. */
    method ReadLine() returns (n: int)
      requires Shape() && err.None?
      modifies this`pos
      ensures Shape()
      ensures match Newline(old(Rest()))
              case None => n == -1 && pos == old(pos)
              case Some(i) => n == i && pos == old(pos) + i + 2
    {
      n := SeekNewline(pos, len - pos);
      if n >= 0 {
        pos := pos + n + 2;
      }
    }

    /** The object for the line of `n` bytes at `p`, of the type of the current task. */
    method LineObject(p: nat, n: nat) returns (o: ReplyObject, ghost v: Reply)
      requires Shape() && err.None? && Busy() && KindMatches(rstack[ridx].typ, S.kind)
      requires S.kind == Some(KError) || S.kind == Some(KStatus) || S.kind == Some(KInteger)
      requires p <= len && Newline(buf[p..]) == Some(n)
      modifies this`N, N
      ensures Shape() && Busy() && Linked(N, objs, S.frames, o, v) && fresh(N - old(N))
      ensures Scan(S.kind.value, buf[p..]) == Whole(v, n + 2)
    {
      hide Tower;
      hide TasksAre;
      hide Linked;
      hide Number;
      ghost var rest := buf[p..];
      assert buf[p..p + n] == rest[..n];
      if rstack[ridx].typ == REPLY_INTEGER {
        var value := ReadLongLong(p, n);
        o := CreateIntegerObject(value);
        v := Integer(value);
      } else {
        v := if S.kind == Some(KError) then Error(rest[..n]) else Status(rest[..n]);
        o := CreateStringObject(buf[p..p + n], v);
      }
    }

    method ProcessLineItem() returns (ok: bool)
      requires Valid() && err.None? && ridx != -1
      requires S.kind == Some(KError) || S.kind == Some(KStatus) || S.kind == Some(KInteger)
      modifies this, rstack, N
      ensures Valid() && fresh(N - old(N))
      ensures Lands(Step(old(S), old(Rest())), ok, old(S), old(Rest()))
    {
      hide Tower;
      hide TasksAre;
      hide Linked;
      hide Emitted;
      hide Step;
      hide Deliver;
      hide Scan;
      ghost var rest := Rest();
      var p := pos;
      var n := ReadLine();
      if n == -1 {
        ScanWaits(S.kind.value, rest);
        StepWaits(S, rest);
        return false;
      }
      var o;
      ghost var v;
      o, v := LineObject(p, n);
      Sliced(rest, buf, p, n + 2);
      StepCompletes(S, rest, v, n + 2);
      Finish(o, v);
      ok := true;
    }

    /** Moves the cursor over a bulk string whose object has been created, and moves on. */
    method Consume(o: ReplyObject, ghost v: Reply, used: nat)
      requires Shape() && err.None? && Busy() && Linked(N, objs, S.frames, o, v)
      requires S.kind == Some(KString) && Scan(KString, Rest()) == Whole(v, used)
      modifies this, rstack, N
      ensures Valid() && N == old(N)
      ensures Lands(Step(old(S), old(Rest())), true, old(S), old(Rest()))
    {
      hide Tower;
      hide TasksAre;
      hide Linked;
      hide Emitted;
      hide Step;
      hide Deliver;
      hide Scan;
      ghost var rest := Rest();
      StepCompletes(S, rest, v, used);
      Sliced(rest, buf, pos, used);
      pos := pos + used;
      Finish(o, v);
    }

    /** processBulkItem once the length `n`, on the line that ends at `i`, has been read. */
    method BulkOfLength(i: nat, n: int) returns (ok: bool)
      requires Valid() && err.None? && ridx != -1 && S.kind == Some(KString)
      requires Newline(Rest()) == Some(i) && n == Number(Rest(), i)
      modifies this, rstack, N
      ensures Valid() && fresh(N - old(N))
      ensures Lands(Step(old(S), old(Rest())), ok, old(S), old(Rest()))
    {
      hide Tower;
      hide TasksAre;
      hide Linked;
      hide Emitted;
      hide Step;
      hide Number;
      hide Newline;
      hide Scan;
      hide Deliver;
      ghost var rest := Rest();
      BulkScan(rest, i, n);
      if n < 0 {
        var o := CreateNilObject();
        Consume(o, Nil, i + 2);
        return true;
      }
      if pos + i + 2 + n + 2 > len {
        StepWaits(S, rest);
        return false;
      }
      var str := buf[pos + i + 2..pos + i + 2 + n];
      SlicedOut(rest, buf, pos, i + 2, n);
      var o := CreateStringObject(str, Str(str));
      Consume(o, Str(str), i + 2 + n + 2);
      return true;
    }

    method ProcessBulkItem() returns (ok: bool)
      requires Valid() && err.None? && ridx != -1 && S.kind == Some(KString)
      modifies this, rstack, N
      ensures Valid() && fresh(N - old(N))
      ensures Lands(Step(old(S), old(Rest())), ok, old(S), old(Rest()))
    {
      hide Busy;
      var i := SeekNewline(pos, len - pos);
      if i == -1 {
        return false;
      }
      var n := ReadLongLong(pos, i);
      ok := BulkOfLength(i, n);
    }

    /** Pushes the task that reads the first of the `n` elements of `o`. */
    method PushRow(o: ReplyObject, n: int)
      requires Shape() && rstack.Length == 9 && 0 <= ridx < MAX_DEPTH && n > 0 && rstack[ridx].typ == REPLY_ARRAY
      requires ridx == |S.frames| && TasksAre(rstack[..], objs, S.frames)
      modifies this`ridx, this`reply, rstack
      ensures ridx == old(ridx) + 1 && rstack[ridx].typ == -1
      ensures TasksAre(rstack[..], objs + [o], S.frames + [Frame(n, [])])
      ensures reply == if old(ridx) == 0 then o else old(reply)
    {
      var row := rstack[ridx].(elements := n, obj := o);
      ghost var was := rstack[..];
      assert forall i :: 0 <= i < |objs| ==> TaskIs(was, i, objs[i], S.frames[i]);
      if ridx == 0 {
        reply := o;
      }
      rstack[ridx] := row;
      ridx := ridx + 1;
      rstack[ridx] := ReadTask(-1, -1, 0, null, ridx - 1);
      assert rstack[..] == was[ridx - 1 := row][ridx := rstack[ridx]];
    }

    /** Opens the array `o` of `n` elements: its first element becomes the current task. */
    method PushTask(o: ReplyObject, n: int)
      requires Shape() && err.None? && Busy() && n > 0 && ridx < MAX_DEPTH && rstack[ridx].typ == REPLY_ARRAY
      requires Owned(N, o, Frame(n, [])) && forall i :: 0 <= i < |objs| ==> Apart(N, objs[i], o)
      requires objs != [] ==> Points(N, objs[|objs| - 1], S.frames[|objs| - 1], o)
      modifies this`ridx, this`reply, this`S, this`objs, rstack
      ensures Valid() && Emitted(None)
      ensures S == State(old(S.frames) + [Frame(n, [])], None)
    {
      hide Tower;
      hide TasksAre;
      TowerGrows(N, objs, S.frames, o, n);
      PushRow(o, n);
      Settle(objs + [o], S.frames + [Frame(n, [])]);
    }

    /** processMultiBulkItem once the element count has been read and the cursor moved past its line. */
    method ArrayOfCount(n: int)
      requires Shape() && err.None? && Busy() && ridx < MAX_DEPTH && rstack[ridx].typ == REPLY_ARRAY
      modifies this`ridx, this`reply, this`S, this`objs, this`N, rstack, N
      ensures Valid() && fresh(N - old(N))
      ensures n > 0 ==> S == State(old(S.frames) + [Frame(n, [])], None) && Emitted(None)
      ensures n <= 0 ==> var v := if n == -1 then Nil else if n == 0 then Arr([]) else NegArray(n);
                         S == State(Deliver(old(S.frames), v).0, None) && Emitted(Deliver(old(S.frames), v).1)
    {
      hide Tower;
      hide TasksAre;
      hide Linked;
      hide Owned;
      hide Points;
      hide Emitted;
      hide Deliver;
      if n == -1 {
        var o := CreateNilObject();
        Finish(o, Nil);
      } else {
        var o := CreateArrayObject(n);
        if n > 0 {
          PushTask(o, n);
        } else {
          Finish(o, if n == 0 then Arr([]) else NegArray(n));
        }
      }
    }

    method ProcessMultiBulkItem() returns (ok: bool)
      requires Valid() && err.None? && ridx != -1 && S.kind == Some(KArray)
      modifies this, rstack, N
      ensures Valid() && fresh(N - old(N))
      ensures Lands(Step(old(S), old(Rest())), ok, old(S), old(Rest()))
    {
      hide Tower;
      hide TasksAre;
      hide Deliver;
      hide Linked;
      ghost var rest := Rest();
      if ridx == 8 {
        SetError(TooDeep);
        return false;
      }
      var p := pos;
      var i := ReadLine();
      if i == -1 {
        return false;
      }
      assert buf[pos..] == rest[i + 2..];
      var n := ReadLongLong(p, i);
      ArrayOfCount(n);
      return true;
    }

    /** The typed part of processItem. */
    method ProcessTyped() returns (ok: bool)
      requires Valid() && err.None? && ridx != -1 && S.kind.Some?
      modifies this, rstack, N
      ensures Valid() && fresh(N - old(N))
      ensures Lands(Step(old(S), old(Rest())), ok, old(S), old(Rest()))
      ensures err.None? ==> Ready()
    {
      hide Tower;
      hide TasksAre;
      hide Step;
      TypedStep(S, Rest());
      var typ := rstack[ridx].typ;
      if typ == REPLY_ERROR || typ == REPLY_STATUS || typ == REPLY_INTEGER {
        ok := ProcessLineItem();
      } else if typ == REPLY_STRING {
        ok := ProcessBulkItem();
      } else {
        ok := ProcessMultiBulkItem();
      }
    }

    /** Reads the type byte of the current item if that has not been done; false when it cannot. */
    method ReadType() returns (ok: bool)
      requires Valid() && err.None? && ridx != -1 && S.kind.None?
      modifies this, rstack
      ensures Valid() && N == old(N) && (err.None? ==> ridx != -1)
      ensures ok ==> err.None? && old(Rest()) != [] && KindOf(old(Rest())[0]).Some? &&
                     S == State(old(S).frames, KindOf(old(Rest())[0])) && Rest() == old(Rest())[1..]
      ensures !ok && err.None? ==> S == old(S) && Rest() == old(Rest()) == []
      ensures !ok && err.Some? ==> old(Rest()) != [] && KindOf(old(Rest())[0]).None? && err == Some(BadType(old(Rest())[0]))
    {
      if len - pos < 1 {
        return false;
      }
      var c := buf[pos];
      assert buf[pos..][0] == c && buf[pos + 1..] == buf[pos..][1..];
      match KindOf(c)
      case None =>
        SetError(BadType(c));
        return false;
      case Some(k) =>
        SetType(k);
        return true;
    }

    method SetType(k: Kind)
      requires Valid() && err.None? && ridx != -1 && pos < len
      modifies this`pos, this`S, rstack
      ensures Valid() && S == old(S).(kind := Some(k)) && pos == old(pos) + 1 && Emitted(None)
    {
      hide Tower;
      ghost var was := rstack[..];
      assert forall i :: 0 <= i < |objs| ==> TaskIs(was, i, objs[i], S.frames[i]);
      pos := pos + 1;
      rstack[ridx] := rstack[ridx].(typ := TypeCode(k));
      S := S.(kind := Some(k));
      assert rstack[..] == was[ridx := rstack[ridx]];
    }

    /** What an item did, compared with the whole run of the machine from the state before. */
    ghost predicate Runs(r: Outcome, ok: bool, em: Option<Reply>)
      reads this, N
    {
      if ok then err.None? && (em.Some? <==> ridx == -1) && Emitted(em) && r == After(Emit(em), Run(S, Rest()))
      else if err.None? then ridx != -1 && r == Stuck(S, Rest(), [])
      else r == Failed(err.value, [])
    }

    method ProcessItem() returns (ok: bool, ghost em: Option<Reply>)
      requires Ready() && err.None? && ridx != -1
      modifies this, rstack, N
      ensures Ready() && fresh(N - old(N))
      ensures Runs(old(Run(S, Rest())), ok, em)
      ensures ok ==> |Rest()| < old(|Rest()|)
    {
      hide Tower;
      hide TasksAre;
      hide Step;
      hide Emitted;
      em := None;
      ghost var st0, rest0 := S, Rest();
      if rstack[ridx].typ < 0 {
        RunAtType(S, Rest());
        ok := ReadType();
        if !ok { return; }
        TwoSteps(st0.frames, rest0);
      }
      ghost var st1, rest1 := S, Rest();
      assert Run(st0, rest0) == Run(st1, rest1);
      ok := ProcessTyped();
      if ok {
        em := Step(st1, rest1).emitted;
      }
    }

    constructor ()
      ensures Ready() && err.None? && S == START && Rest() == [] && N == {} && fresh(rstack)
    {
      err := None;
      buf := [];
      pos := 0;
      len := 0;
      ridx := -1;
      reply := null;
      rstack := new ReadTask[9](_ => ReadTask(-1, -1, -1, null, -1));
      S := START;
      objs := [];
      N := {};
    }

    /** Between calls no array type byte is waiting at the level where arrays are refused. */
    ghost predicate Ready()
      reads this, rstack, N
    {
      Valid() && !(S.kind == Some(KArray) && |S.frames| == MAX_DEPTH)
    }

    /** redisReaderFeed. */
    method Feed(chunk: seq<byte>) returns (ok: bool)
      requires Ready()
      modifies this`buf, this`len
      ensures Ready() && ok == err.None?
      ensures err.None? ==> Rest() == old(Rest()) + chunk
    {
      hide Tower;
      hide TasksAre;
      if err.Some? {
        return false;
      }
      if |chunk| >= 1 {
        assert (buf + chunk)[pos..] == buf[pos..] + chunk;
        buf := buf + chunk;
        len := |buf|;
      }
      return true;
    }

    /** Drops the consumed part of the buffer once it is at least 1024 bytes long. */
    method Compact(ghost em: Option<Reply>)
      requires Ready() && err.None? && (em.Some? ==> Emitted(em))
      modifies this`buf, this`pos, this`len
      ensures Ready() && Rest() == old(Rest()) && (em.Some? ==> Emitted(em))
      ensures if old(pos) < 1024 then buf == old(buf) && pos == old(pos) else pos == 0
    {
      hide Tower;
      hide TasksAre;
      if pos >= 1024 {
        Sds.KeptSuffix(buf, pos);
        buf := Sds.Kept(buf, pos, -1);
        pos := 0;
        len := |buf|;
      }
    }

    /** The item loop of redisReaderGetReply. */
    method ProcessItems() returns (ghost em: Option<Reply>)
      requires Ready() && err.None? && ridx != -1
      modifies this, rstack, N
      ensures Ready() && fresh(N - old(N))
      ensures var r := old(Run(S, Rest()));
              if err.Some? then r == Failed(err.value, [])
              else if ridx == -1 then em.Some? && Emitted(em) && r == After(Emit(em), Run(S, Rest()))
              else em.None? && r == Stuck(S, Rest(), [])
      ensures em.Some? ==> |Rest()| < old(|Rest()|)
    {
      hide Busy;
      hide Emitted;
      em := None;
      ghost var start := Run(S, Rest());
      AfterNothing(start);
      while ridx >= 0
        invariant Ready() && err.None? && fresh(N - old(N))
        invariant (em.Some? <==> ridx == -1) && (em.Some? ==> Emitted(em)) && start == After(Emit(em), Run(S, Rest()))
        invariant |Rest()| <= old(|Rest()|) && (em.Some? ==> |Rest()| < old(|Rest()|))
        decreases |Rest()|
      {
        ghost var here := Run(S, Rest());
        AfterNothing(here);
        var ok;
        ok, em := ProcessItem();
        if !ok {
          em := None;
          break;
        }
      }
    }

    /** The reply `o` is the next value of the run `r`, and nothing in it belongs to the reader. */
    ghost predicate Delivers(r: Outcome, o: ReplyObject, v: Reply)
      reads this, N, o, o.Repr
    {
      o in o.Repr && o.Holds(v) && this !in o.Repr && (rstack as object) !in o.Repr && N == {} &&
      S == START && r == After([v], Run(START, Rest()))
    }

    /** redisReaderGetReply: the next reply, null when more bytes are needed, or an error. */
    method GetReply() returns (ok: bool, out: ReplyObject?, ghost v: Reply)
      requires Ready()
      modifies this, rstack, N
      ensures Ready() && fresh(N - old(N)) && ok == err.None?
      ensures old(err.Some?) ==> err == old(err) && out == null
      ensures old(err.None?) ==>
                var r := old(Run(S, Rest()));
                if out != null then ok && Delivers(r, out, v) && |Rest()| < old(|Rest()|)
                else if ok then r == Stuck(S, Rest(), [])
                else r == Failed(err.value, [])
      ensures out != null ==> fresh(out.Repr - old(N))
      ensures ok && old(len) > 0 ==> pos < 1024
    {
      hide Busy;
      hide Emitted;
      out := null;
      v := Nil;
      if err.Some? {
        return false, null, v;
      }
      if len == 0 {
        StuckWhenEmpty(S);
        return true, null, v;
      }
      ghost var em := ReadOn();
      if err.Some? {
        return false, null, v;
      }
      if ridx == -1 {
        v := em.value;
        out := TakeReply(v);
      }
      return true, out, v;
    }

    /** Reads items from the buffer, and drops what has been consumed. */
    method ReadOn() returns (ghost em: Option<Reply>)
      requires Ready() && err.None?
      modifies this, rstack, N
      ensures Ready() && fresh(N - old(N))
      ensures var r := old(Run(S, Rest()));
              if err.Some? then r == Failed(err.value, [])
              else if ridx == -1 then em.Some? && Emitted(em) && r == After(Emit(em), Run(S, Rest()))
              else em.None? && r == Stuck(S, Rest(), [])
      ensures em.Some? ==> |Rest()| < old(|Rest()|)
      ensures err.None? ==> pos < 1024
    {
      hide Busy;
      hide Emitted;
      hide Run;
      if ridx == -1 {
        FirstTask();
      }
      em := ProcessItems();
      if err.None? {
        Compact(em);
      }
    }

    /** Hands the finished reply over to the caller. */
    method TakeReply(ghost v: Reply) returns (out: ReplyObject)
      requires Ready() && err.None? && Emitted(Some(v))
      modifies this`reply, this`N
      ensures Ready() && N == {} && out.Holds(v) && out.Repr <= old(N)
    {
      out := reply;
      reply := null;
      N := {};
    }

    /** Sets the first item to process when the stack is empty. */
    method FirstTask()
      requires Ready() && err.None? && ridx == -1
      modifies this`ridx, rstack
      ensures Ready() && ridx != -1
    {
      rstack[0] := ReadTask(-1, -1, -1, null, -1);
      ridx := 0;
    }
  }

  // ------------------------------------------------------------ whole sessions

  /** The replies handed out so far, none of which the reader will touch again. */
  ghost predicate HandedOut(r: Reader, outs: seq<ReplyObject>, vs: seq<Reply>)
    reads r, outs, set k, x | 0 <= k < |outs| && x in outs[k].Repr :: x
  {
    |outs| == |vs| && forall k :: 0 <= k < |outs| ==> Kept(r, outs[k], vs[k])
  }

  ghost predicate Kept(r: Reader, o: ReplyObject, v: Reply)
    reads r, o, o.Repr
  {
    o in o.Repr && o.Holds(v) && r !in o.Repr && (r.rstack as object) !in o.Repr && o.Repr !! r.N
  }

  /** Where the reader stands, as an outcome of the machine with `vs` emitted. */
  ghost function Stands(r: Reader, vs: seq<Reply>): Outcome
    reads r
  {
    if r.err.Some? then Failed(r.err.value, vs) else Stuck(r.S, r.Rest(), vs)
  }

  /** One call of GetReply by a caller that keeps the earlier replies. */
  method Next(r: Reader, outs0: seq<ReplyObject>, ghost vs0: seq<Reply>)
    returns (outs: seq<ReplyObject>, ghost vs: seq<Reply>, more: bool)
    requires r.Ready() && HandedOut(r, outs0, vs0)
    modifies r, r.rstack, r.N
    ensures r.Ready() && HandedOut(r, outs, vs) && fresh(r.N - old(r.N))
    ensures more ==> old(r.err).None? && |r.Rest()| < old(|r.Rest()|)
    ensures var here := old(Resting(r, vs0));
            if more then here == Resting(r, vs) else here == Stands(r, vs)
  {
    hide ReplyObject.Holds;
    hide Reader.Ready;
    hide Run;
    var ok, o;
    ghost var v;
    ok, o, v := r.GetReply();
    forall k | 0 <= k < |outs0|
      ensures Kept(r, outs0[k], vs0[k])
    {
      assert old(Kept(r, outs0[k], vs0[k]));
    }
    if o == null {
      assert vs0 + [] == vs0;
      return outs0, vs0, false;
    }
    AfterAfter(vs0, [v], Run(r.S, r.Rest()));
    return outs0 + [o], vs0 + [v], true;
  }

  /** What is still to come from the bytes already fed, after the replies `vs`. */
  ghost function Resting(r: Reader, vs: seq<Reply>): Outcome
    reads r
  {
    if r.err.Some? then Failed(r.err.value, vs) else After(vs, Run(r.S, r.Rest()))
  }

  /** Calls GetReply until it has nothing more to give. */
  method Drain(r: Reader, outs0: seq<ReplyObject>, ghost vs0: seq<Reply>)
    returns (outs: seq<ReplyObject>, ghost vs: seq<Reply>)
    requires r.Ready() && HandedOut(r, outs0, vs0)
    modifies r, r.rstack, r.N
    ensures r.Ready() && HandedOut(r, outs, vs) && fresh(r.N - old(r.N))
    ensures Stands(r, vs) == old(Resting(r, vs0))
  {
    hide Reader.Ready;
    hide HandedOut;
    hide Resting;
    outs, vs := outs0, vs0;
    var more := true;
    while more
      invariant r.Ready() && HandedOut(r, outs, vs) && fresh(r.N - old(r.N))
      invariant old(Resting(r, vs0)) == if more then Resting(r, vs) else Stands(r, vs)
      decreases more, |r.Rest()|
    {
      outs, vs, more := Next(r, outs, vs);
    }
  }

  /**
   A whole session: a new reader is fed chunk after chunk and drained after each.
   The objects it hands out hold exactly the replies of the recursive parser on
   all the bytes, and the session ends in the parser's error, if it has one.
   */
  method Session(chunks: seq<seq<byte>>) returns (outs: seq<ReplyObject>, error: Option<ReadError>)
    ensures var t := ParseStream(Concat(chunks));
            error == t.error && |outs| == |t.replies| &&
            forall k :: 0 <= k < |outs| ==> outs[k].Holds(t.replies[k])
  {
    hide Reader.Ready;
    hide ReplyObject.Holds;
    var r := new Reader();
    outs := [];
    ghost var vs := [];
    var i := 0;
    while i < |chunks|
      invariant 0 <= i <= |chunks| && r.Ready() && HandedOut(r, outs, vs)
      invariant fresh(r) && fresh(r.rstack) && fresh(r.N)
      invariant Stands(r, vs) == Feeds(chunks[..i])
    {
      ghost var before := Stands(r, vs);
      assert chunks[..i + 1][..i] == chunks[..i];
      assert Feeds(chunks[..i + 1]) == Resume(before, chunks[i]);
      var ok := FeedKeeping(r, chunks[i], outs, vs);
      outs, vs := Drain(r, outs, vs);
      i := i + 1;
    }
    assert chunks[..i] == chunks;
    FeedsAreRun(chunks);
    MachineRefinesParser(Concat(chunks));
    error := r.err;
    assert TranscriptOf(Stands(r, vs)) == Transcript(vs, error);
    forall k | 0 <= k < |outs|
      ensures outs[k].Holds(vs[k])
    {
      assert Kept(r, outs[k], vs[k]);
    }
  }

  method FeedKeeping(r: Reader, chunk: seq<byte>, ghost outs: seq<ReplyObject>, ghost vs: seq<Reply>)
    returns (ok: bool)
    requires r.Ready() && HandedOut(r, outs, vs)
    modifies r`buf, r`len
    ensures r.Ready() && HandedOut(r, outs, vs)
    ensures r.err.None? ==> r.Rest() == old(r.Rest()) + chunk
  {
    ok := r.Feed(chunk);
    forall k | 0 <= k < |outs|
      ensures Kept(r, outs[k], vs[k])
    {
      assert old(Kept(r, outs[k], vs[k]));
    }
  }
}
