/**
 The asynchronous context (async.cpp): a FIFO of callbacks, flags that are set from inside
 callbacks, deferred freeing and disconnecting. Callbacks are arbitrary: each one may issue
 commands, free the context and ask for a disconnect. Pub/sub and MONITOR are left out.
 */
module Async {
  import opened Resp

  /** A registered callback: the caller's data; the function itself may be NULL. */
  datatype Callback = Callback(privdata: nat, hasFn: bool)

  /** One cell of redisCallbackList. */
  class Cell {
    var next: Cell?
    const cb: Callback

    constructor (cb: Callback)
      ensures this.cb == cb && next == null
    {
      this.cb := cb;
      next := null;
    }
  }

  class CallbackList {
    var head: Cell?
    var tail: Cell?
    ghost var spine: seq<Cell>

    ghost predicate Valid()
      reads this, spine
    {
      (spine == [] ==> head == null && tail == null) &&
      (spine != [] ==> head == spine[0] && tail == spine[|spine| - 1] && tail.next == null) &&
      (forall i :: 0 <= i < |spine| - 1 ==> spine[i].next == spine[i + 1]) &&
      forall i, j :: 0 <= i < j < |spine| ==> spine[i] != spine[j]
    }

    ghost function Contents(): (cs: seq<Callback>)
      reads this
      ensures |cs| == |spine| && forall i :: 0 <= i < |cs| ==> cs[i] == spine[i].cb
    {
      seq(|spine|, i requires 0 <= i < |spine| reads this => spine[i].cb)
    }

    ghost function Cells(): set<Cell>
      reads this
    {
      set c | c in spine
    }

    constructor ()
      ensures Valid() && spine == []
    {
      head, tail, spine := null, null, [];
    }

    /** __redisPushCallback. */
    method Push(source: Callback)
      requires Valid()
      modifies this, Cells()
      ensures Valid() && Contents() == old(Contents()) + [source]
      ensures |spine| == |old(spine)| + 1 && spine[..|old(spine)|] == old(spine) && fresh(spine[|old(spine)|])
    {
      var cb := new Cell(source);
      if head == null {
        head := cb;
      }
      if tail != null {
        tail.next := cb;
      }
      tail := cb;
      spine := spine + [cb];
    }

    /** __redisShiftCallback; None stands for REDIS_ERR. */
    method Shift() returns (target: Option<Callback>)
      requires Valid()
      modifies this
      ensures Valid()
      ensures old(spine) == [] ==> target == None && spine == []
      ensures old(spine) != [] ==> spine == old(spine)[1..] && target == Some(old(Contents())[0]) &&
                                   Contents() == old(Contents())[1..]
    {
      var cb := head;
      if cb == null {
        return None;
      }
      head := cb.next;
      if cb == tail {
        tail := null;
      }
      spine := spine[1..];
      return Some(cb.cb);
    }
  }

  // ------------------------------------------------------------ what has happened so far

  /** A callback has been run, with a reply or with NULL. */
  datatype Ran = Ran(privdata: nat, reply: Option<Reply>)

  /** The runs that belong to the first |got| accepted commands: one for each callback that is not NULL. */
  function Runs(accepted: seq<Callback>, got: seq<Option<Reply>>): (rs: seq<Ran>)
    requires |got| <= |accepted|
  {
    if got == [] then []
    else
      var n := |got| - 1;
      Runs(accepted, got[..n]) + if accepted[n].hasFn then [Ran(accepted[n].privdata, got[n])] else []
  }

  lemma {:induction false} RunsOnlyUse(accepted: seq<Callback>, more: seq<Callback>, got: seq<Option<Reply>>)
    requires |got| <= |accepted|
    ensures Runs(accepted + more, got) == Runs(accepted, got)
  {
    if got != [] {
      RunsOnlyUse(accepted, more, got[..|got| - 1]);
    }
  }

  /** The positions below `n` of commands whose callback is not NULL. */
  function WithFn(accepted: seq<Callback>, n: nat): (at: seq<nat>)
    requires n <= |accepted|
    ensures forall j :: 0 <= j < |at| ==> at[j] < n && accepted[at[j]].hasFn
    ensures forall i, j :: 0 <= i < j < |at| ==> at[i] < at[j]
  {
    if n == 0 then [] else WithFn(accepted, n - 1) + if accepted[n - 1].hasFn then [n - 1] else []
  }

  lemma {:induction false} EachIsListed(accepted: seq<Callback>, n: nat, k: nat)
    requires k < n <= |accepted| && accepted[k].hasFn
    ensures k in WithFn(accepted, n)
  {
    if k < n - 1 {
      EachIsListed(accepted, n - 1, k);
    }
  }

  /** One by one, the runs are those of the commands with a callback. */
  lemma {:induction false} RunsInOrder(accepted: seq<Callback>, got: seq<Option<Reply>>)
    requires |got| <= |accepted|
    ensures var rs, at := Runs(accepted, got), WithFn(accepted, |got|);
            |rs| == |at| && forall j :: 0 <= j < |at| ==> rs[j] == Ran(accepted[at[j]].privdata, got[at[j]])
  {
    if got != [] {
      var n := |got| - 1;
      RunsInOrder(accepted, got[..n]);
      var at := WithFn(accepted, n);
      assert forall j :: 0 <= j < |at| ==> got[..n][at[j]] == got[at[j]];
    }
  }

  /**
   Exactly once, in the order of acceptance: the runs are, one by one, those of the commands
   with a callback, and each has been handed what its own command got.
   */
  lemma RunsExactlyOnce(accepted: seq<Callback>, got: seq<Option<Reply>>)
    requires |got| <= |accepted|
    ensures var rs, at := Runs(accepted, got), WithFn(accepted, |got|);
            |rs| == |at| &&
            (forall j :: 0 <= j < |at| ==> rs[j] == Ran(accepted[at[j]].privdata, got[at[j]])) &&
            forall k :: 0 <= k < |got| && accepted[k].hasFn ==> k in at
  {
    hide Runs;
    hide WithFn;
    RunsInOrder(accepted, got);
    forall k | 0 <= k < |got| && accepted[k].hasFn
      ensures k in WithFn(accepted, |got|)
    {
      EachIsListed(accepted, |got|, k);
    }
  }

  function Nones(n: nat): (r: seq<Option<Reply>>)
    ensures |r| == n && forall i :: 0 <= i < n ==> r[i] == None
  {
    seq(n, i => None)
  }

  /** What a callback may do, and what the application may do from outside. */
  datatype Action = Command(cb: Callback) | Free | Disconnect

  /** How a batch of replies ends: none left for now, or a protocol error. */
  datatype End = NoMore(outputFlushed: bool) | ReadError

  /** The assertion that ends the process: callbacks were lost, or a reply came unasked. */
  datatype Abort = Lost | Unasked

  /** The commands among some actions, in order. */
  function CommandsOf(actions: seq<Action>): seq<Callback> {
    if actions == [] then []
    else
      var last := actions[|actions| - 1];
      CommandsOf(actions[..|actions| - 1]) + if last.Command? then [last.cb] else []
  }

  /** The commands that the callbacks issue in their runs `a` to `b - 1`. */
  function Scripted(script: nat -> seq<Action>, a: nat, b: nat): seq<Callback>
    decreases b
  {
    if b <= a then [] else Scripted(script, a, b - 1) + CommandsOf(script(b - 1))
  }

  lemma {:induction false} ScriptedJoin(script: nat -> seq<Action>, a: nat, b: nat, c: nat)
    requires a <= b <= c
    ensures Scripted(script, a, b) + Scripted(script, b, c) == Scripted(script, a, c)
    decreases c
  {
    if b < c {
      ScriptedJoin(script, a, b, c - 1);
    } else {
      assert Scripted(script, b, c) == [];
    }
  }

  lemma ScriptedOne(script: nat -> seq<Action>, a: nat)
    ensures Scripted(script, a, a) == [] && Scripted(script, a, a + 1) == CommandsOf(script(a))
  {
    assert Scripted(script, a, a) == [];
  }

  lemma NoCommands()
    ensures CommandsOf([]) == []
  {}

  lemma CommandsStep(actions: seq<Action>, i: nat)
    requires i < |actions|
    ensures CommandsOf(actions[..i + 1]) == CommandsOf(actions[..i]) + if actions[i].Command? then [actions[i].cb] else []
  {
    assert actions[..i + 1][..i] == actions[..i];
  }

  class AsyncContext {
    const replies: CallbackList
    var disconnecting: bool
    var freeing: bool
    var in_callback: bool
    var err: bool
    var freed: bool
    var abort: Option<Abort>
    var runs: nat                          // how many callbacks have run: the application's clock

    ghost var asked: seq<Callback>         // the commands issued, by the application or in callbacks
    ghost var accepted: seq<Callback>      // the accepted commands
    ghost var delivered: seq<Reply>        // the replies taken by accepted commands, in order
    ghost var dropped: nat                 // how many commands were then given up with NULL
    ghost var log: seq<Ran>                // the runs of callbacks, in order

    /** What the accepted commands that are no longer pending have got. */
    ghost function Got(): (got: seq<Option<Reply>>)
      reads `delivered, `dropped
      ensures |got| == |delivered| + dropped
    {
      Somes(delivered) + Nones(dropped)
    }

    /** The context as it is between two events. */
    ghost predicate Idle()
      reads this, replies, replies.spine
    {
      Valid() && !in_callback && !freeing && !freed && abort == None && dropped == 0
    }

    /** What has been run is accounted for; what is pending are the accepted commands after that. */
    ghost predicate Balanced()
      reads `delivered, `dropped, `accepted, `log, replies
    {
      |Got()| <= |accepted| && log == Runs(accepted, Got()) && replies.Contents() == accepted[|Got()|..]
    }

    /** Commands are accepted as they are issued, until the connection is to be closed. */
    ghost predicate Faithful()
      reads `asked, `accepted, `disconnecting, `freeing
    {
      accepted <= asked && (!disconnecting && !freeing ==> accepted == asked)
    }

    /** What has been issued since are the commands of the callbacks that have run since. */
    twostate predicate Asks(script: nat -> seq<Action>)
      reads this
    {
      old(runs) <= runs && asked == old(asked) + Scripted(script, old(runs), runs) && Heeded(script, old(runs))
    }

    /** Where a callback has asked for it since its run `from`, the context is to be closed. */
    ghost predicate Heeded(script: nat -> seq<Action>, from: nat)
      reads `runs, `disconnecting, `freeing
    {
      forall n :: from <= n < runs ==> (Disconnect in script(n) ==> disconnecting) && (Free in script(n) ==> freeing)
    }

    ghost predicate Valid()
      reads this, replies, replies.spine
    {
      replies.Valid() && Balanced() && Faithful() && (dropped > 0 ==> disconnecting || freeing)
    }

    constructor ()
      ensures Valid() && fresh(replies) && replies.spine == [] && accepted == [] && delivered == [] && log == [] && dropped == 0 && asked == [] && runs == 0
      ensures !disconnecting && !freeing && !in_callback && !err && !freed && abort == None
    {
      replies := new CallbackList();
      disconnecting, freeing, in_callback, err, freed, abort, runs := false, false, false, false, false, None, 0;
      accepted, delivered, dropped, log := [], [], 0, [];
      asked := [];
    }

    /** Nothing but the cells that were in the list, and new ones, is in it. */
    twostate predicate SameCells()
      reads this, replies
    {
      forall c :: c in replies.spine ==> c in old(replies.spine) || fresh(c)
    }

    /** Flags are only ever raised, and nothing is accepted once one of them is up. */
    twostate predicate OnlyGrown()
      reads this
    {
      (old(disconnecting) ==> disconnecting) && (old(freeing) ==> freeing) && (old(err) ==> err) &&
      old(accepted) <= accepted && (old(disconnecting) || old(freeing) ==> accepted == old(accepted))
    }

    /** The regular path of __redisAsyncCommand: nothing is accepted once the connection is to be closed. */
    method AsyncCommand(cb: Callback) returns (ok: bool)
      requires Valid()
      modifies this`accepted, this`asked, replies, replies.Cells()
      ensures Valid() && SameCells() && (!ok ==> replies.spine == old(replies.spine))
      ensures ok <==> !disconnecting && !freeing
      ensures accepted == (if ok then old(accepted) + [cb] else old(accepted)) && asked == old(asked) + [cb]
    {
      hide Runs;
      hide Somes;
      hide Nones;
      hide CallbackList.Valid;
      asked := asked + [cb];
      if disconnecting || freeing {
        return false;
      }
      RunsOnlyUse(accepted, [cb], Got());
      replies.Push(cb);
      accepted := accepted + [cb];
      return true;
    }

    /** A callback has been shifted and what it gets is counted, but it has not been run. */
    ghost predicate Owing(cb: Callback, reply: Option<Reply>)
      reads this, replies, replies.spine
    {
      replies.Valid() && |Got()| <= |accepted| && replies.Contents() == accepted[|Got()|..] &&
      log + (if cb.hasFn then [Ran(cb.privdata, reply)] else []) == Runs(accepted, Got()) && Faithful() &&
      (dropped > 0 ==> disconnecting || freeing)
    }

    /** What the application does inside a callback. */
    method PerformAll(actions: seq<Action>, script: nat -> seq<Action>)
      requires Valid() && in_callback && !freed && abort == None
      modifies this, replies, replies.Cells()
      ensures Valid() && in_callback && !freed && abort == None && SameCells() && OnlyGrown()
      ensures delivered == old(delivered) && dropped == old(dropped) && log == old(log) && err == old(err)
      ensures Disconnect !in actions ==> disconnecting == old(disconnecting)
      ensures asked == old(asked) + CommandsOf(actions) && runs == old(runs)
      ensures (Disconnect in actions ==> disconnecting) && (Free in actions ==> freeing)
      decreases 3
    {
      hide Runs;
      hide Balanced;
      hide CommandsOf;
      hide CallbackList.Valid;
      NoCommands();
      assert actions[..0] == [];
      var i := 0;
      while i < |actions|
        invariant 0 <= i <= |actions| && Valid() && in_callback && !freed && abort == None && SameCells() && OnlyGrown()
        invariant delivered == old(delivered) && dropped == old(dropped) && log == old(log) && err == old(err)
        invariant Disconnect !in actions ==> disconnecting == old(disconnecting)
        invariant asked == old(asked) + CommandsOf(actions[..i]) && runs == old(runs)
        invariant (Disconnect in actions[..i] ==> disconnecting) && (Free in actions[..i] ==> freeing)
      {
        CommandsStep(actions, i);
        assert actions[..i + 1] == actions[..i] + [actions[i]];
        match actions[i] {
          case Command(cb) =>
            var ok := AsyncCommand(cb);
          case Free =>
            AsyncFree(script);
          case Disconnect =>
            AsyncDisconnect(script);
        }
        i := i + 1;
      }
      assert actions[..i] == actions;
    }

    /** __redisRunCallback. */
    method RunCallback(cb: Callback, reply: Option<Reply>, script: nat -> seq<Action>)
      requires Owing(cb, reply) && !in_callback && !freed && abort == None
      modifies this, replies, replies.Cells()
      ensures Valid() && !in_callback && !freed && abort == None && SameCells() && OnlyGrown()
      ensures delivered == old(delivered) && dropped == old(dropped) && err == old(err)
      ensures (forall n :: Disconnect !in script(n)) ==> disconnecting == old(disconnecting)
      ensures Asks(script)
      decreases 5
    {
      hide Runs;
      ScriptedOne(script, runs);
      if cb.hasFn {
        in_callback := true;
        log := log + [Ran(cb.privdata, reply)];
        var actions := script(runs);
        runs := runs + 1;
        PerformAll(actions, script);
        in_callback := false;
      }
    }

    /** redisAsyncFree: inside a callback only the flag is set. */
    method AsyncFree(script: nat -> seq<Action>)
      requires Valid() && !freed && abort == None
      modifies this, replies, replies.Cells()
      ensures Valid() && abort == None && in_callback == old(in_callback) && SameCells() && OnlyGrown() && freeing
      ensures accepted == old(accepted) && delivered == old(delivered) && err == old(err)
      ensures old(in_callback) ==> !freed && dropped == old(dropped) && log == old(log) && disconnecting == old(disconnecting) && replies.spine == old(replies.spine)
      ensures Asks(script) && (old(in_callback) ==> asked == old(asked) && runs == old(runs))
      ensures !old(in_callback) ==> freed && replies.spine == []
      decreases if in_callback then 0 else 10
    {
      ScriptedOne(script, runs);
      freeing := true;
      if !in_callback {
        DoFree(script);
      }
    }

    /** redisAsyncDisconnect: deferred inside a callback and while replies are pending. */
    method AsyncDisconnect(script: nat -> seq<Action>)
      requires Valid() && !freed && abort == None
      modifies this, replies, replies.Cells()
      ensures Valid() && abort == None && in_callback == old(in_callback) && SameCells() && disconnecting
      ensures accepted == old(accepted) && delivered == old(delivered) && freeing == old(freeing) && err == old(err)
      ensures freed <==> !old(in_callback) && old(replies.spine) == []
      ensures !freed ==> dropped == old(dropped) && log == old(log) && replies.spine == old(replies.spine)
      ensures Asks(script) && (old(in_callback) ==> asked == old(asked) && runs == old(runs))
      decreases if in_callback then 0 else 10
    {
      ScriptedOne(script, runs);
      disconnecting := true;
      if !in_callback && replies.head == null {
        DoDisconnect(script);
      }
    }

    /** __redisAsyncFree: the pending callbacks are run with NULL, and cannot issue commands any more. */
    method DoFree(script: nat -> seq<Action>)
      requires Valid() && !in_callback && !freed && abort == None
      requires disconnecting || freeing
      modifies this, replies, replies.Cells()
      ensures Valid() && !in_callback && freed && abort == None && SameCells() && OnlyGrown()
      ensures replies.spine == [] && accepted == old(accepted) && delivered == old(delivered) && err == old(err)
      ensures old(replies.spine) == [] ==>
                freeing == old(freeing) && disconnecting == old(disconnecting) &&
                dropped == old(dropped) && log == old(log)
      ensures Asks(script)
      decreases 8
    {
      hide Scripted;
      hide Balanced;
      hide Runs;
      ScriptedOne(script, runs);
      var more := true;
      while more
        invariant Valid() && !in_callback && !freed && abort == None && SameCells() && OnlyGrown()
        invariant accepted == old(accepted) && delivered == old(delivered) && err == old(err)
        invariant (disconnecting || freeing) && (!more ==> replies.spine == [])
        invariant old(replies.spine) == [] ==>
                    replies.spine == [] && freeing == old(freeing) && disconnecting == old(disconnecting) &&
                    dropped == old(dropped) && log == old(log)
        invariant Asks(script)
        decreases more, |replies.spine|
      {
        ghost var mid := runs;
        more := DropOne(script);
        ScriptedJoin(script, old(runs), mid, runs);
      }
      freed := true;
    }

    /** The next pending callback is run with NULL. */
    method DropOne(script: nat -> seq<Action>) returns (more: bool)
      requires Valid() && !in_callback && !freed && abort == None && (disconnecting || freeing)
      modifies this, replies, replies.Cells()
      ensures Valid() && !in_callback && !freed && abort == None && SameCells() && OnlyGrown()
      ensures accepted == old(accepted) && delivered == old(delivered) && err == old(err)
      ensures more <==> old(replies.spine) != []
      ensures more ==> |replies.spine| < |old(replies.spine)|
      ensures !more ==> replies.spine == [] && freeing == old(freeing) && disconnecting == old(disconnecting) &&
                        dropped == old(dropped) && log == old(log)
      ensures Asks(script)
      decreases 7
    {
      hide Balanced;
      hide Runs;
      ScriptedOne(script, runs);
      PendingIsCounted();
      var cb := ShiftDropped();
      if cb == None {
        return false;
      }
      RunCallback(cb.value, None, script);
      PendingIsCounted();
      return true;
    }

    lemma Accounted()
      requires Valid()
      ensures |delivered| + dropped + |replies.spine| == |accepted|
      ensures log == Runs(accepted, Somes(delivered) + Nones(dropped))
    {
      assert |replies.Contents()| == |replies.spine|;
    }

    /** The head of the list is taken off to get NULL. */
    method ShiftDropped() returns (cb: Option<Callback>)
      requires Valid() && (disconnecting || freeing)
      modifies this`dropped, replies
      ensures replies.Valid() && (cb == None <==> old(replies.spine) == [])
      ensures cb == None ==> Valid() && dropped == old(dropped) && replies.spine == []
      ensures cb != None ==> Owing(cb.value, None) && dropped == old(dropped) + 1 && replies.spine == old(replies.spine)[1..]
    {
      cb := replies.Shift();
      if cb != None {
        CountDropped(cb.value);
      }
    }

    /** The pending commands are counted by what has been accepted and what has been got. */
    lemma PendingIsCounted()
      requires Valid()
      ensures |replies.spine| == |accepted| - |Got()|
    {
      assert |replies.Contents()| == |replies.spine|;
    }

    /** The assertion of a disconnect without an error, which takes the oldest pending command off the list. */
    method CheckNonePending() returns (ok: bool)
      requires Valid() && abort == None
      modifies this`abort, replies
      ensures ok <==> old(replies.spine) == []
      ensures if ok then Valid() && replies.spine == [] && abort == None
              else abort == Some(Lost) && replies.spine == old(replies.spine)[1..]
    {
      hide Runs;
      hide Somes;
      hide Nones;
      var cb := replies.Shift();
      ok := cb == None;
      if !ok {
        abort := Some(Lost);
      }
    }

    /** __redisAsyncDisconnect: without an error the pending list is asserted to be empty. */
    method DoDisconnect(script: nat -> seq<Action>)
      requires Valid() && !in_callback && !freed && abort == None && (disconnecting || err)
      modifies this, replies, replies.Cells()
      ensures accepted == old(accepted) && delivered == old(delivered) && err == old(err) && !in_callback
      ensures SameCells() && OnlyGrown()
      ensures if !old(err) && old(replies.spine) != [] then abort == Some(Lost) && !freed && dropped == old(dropped) && log == old(log)
              else abort == None && freed && Valid() && replies.spine == []
      ensures !old(err) || old(replies.spine) == [] ==> freeing == old(freeing)
      ensures !old(err) ==> disconnecting == old(disconnecting)
      ensures Asks(script)
      decreases 9
    {
      ScriptedOne(script, runs);
      hide Runs;
      hide Somes;
      hide Nones;
      if !err {
        var none := CheckNonePending();
        if !none {
          return;
        }
      } else {
        disconnecting := true;
      }
      DoFree(script);
    }

    /** The reply goes to the oldest pending command. */
    ghost method CountDelivered(cb: Callback, reply: Reply)
      requires replies.Valid() && Faithful() && |Got()| < |accepted| && log == Runs(accepted, Got()) && dropped == 0
      requires cb == accepted[|Got()|] && replies.Contents() == accepted[|Got()| + 1..]
      modifies this`delivered
      ensures delivered == old(delivered) + [reply] && Owing(cb, Some(reply))
    {
      ghost var before := Got();
      delivered := delivered + [reply];
      assert Got() == before + [Some(reply)];
      assert Got()[..|before|] == before;
    }

    method ShiftDelivered(reply: Reply) returns (cb: Option<Callback>)
      requires Valid() && dropped == 0
      modifies this`delivered, replies
      ensures replies.Valid() && (cb == None <==> old(replies.spine) == [])
      ensures cb == None ==> Valid() && delivered == old(delivered) && replies.spine == []
      ensures cb != None ==> Owing(cb.value, Some(reply)) && delivered == old(delivered) + [reply] &&
                             replies.spine == old(replies.spine)[1..]
    {
      cb := replies.Shift();
      if cb != None {
        CountDelivered(cb.value, reply);
      }
    }

    /** One reply of the loop of redisProcessCallbacks; false when no command is pending. */
    method Deliver(reply: Reply, script: nat -> seq<Action>) returns (some: bool)
      requires Idle()
      modifies this, replies, replies.Cells()
      ensures Valid() && !in_callback && !freed && abort == None && SameCells() && OnlyGrown()
      ensures dropped == 0 && err == old(err) && delivered == old(delivered) + if some then [reply] else []
      ensures some <==> old(replies.spine) != []
      ensures !some ==> replies.spine == [] && freeing == old(freeing)
      ensures (forall n :: Disconnect !in script(n)) ==> disconnecting == old(disconnecting)
      ensures Asks(script)
      decreases 7
    {
      ScriptedOne(script, runs);
      hide Balanced;
      hide Runs;
      var cb := ShiftDelivered(reply);
      if cb == None {
        return false;
      }
      RunCallback(cb.value, Some(reply), script);
      return true;
    }

    /** The end of a batch: the cue to disconnect, a read error, or nothing to do until the next one. */
    method EndBatch(end: End, script: nat -> seq<Action>)
      requires Idle()
      modifies this, replies, replies.Cells()
      ensures accepted == old(accepted) && delivered == old(delivered) && !in_callback && SameCells() && OnlyGrown()
      ensures var cue := old(disconnecting) && end == NoMore(true);
              (abort == Some(Lost) <==> cue && !old(err) && |old(Got())| < |accepted|) &&
              (abort == None && (cue || end.ReadError?) ==> freed && replies.spine == []) &&
              (cue && abort == Some(Lost) ==> disconnecting) &&
              (!cue && end.NoMore? ==> !freed && dropped == 0 && abort == None && !freeing && disconnecting == old(disconnecting))
      ensures abort == None ==> Valid()
      ensures abort != Some(Unasked) && (abort == Some(Lost) ==> dropped == 0 && !freed)
      ensures !freed || end.NoMore? ==> err == old(err)
      ensures abort == Some(Lost) ==> log == old(log)
      ensures Asks(script)
    {
      ScriptedOne(script, runs);
      PendingIsCounted();
      if end.NoMore? {
        if disconnecting && end.outputFlushed {
          DoDisconnect(script);
        }
      } else {
        err := true;
        DoDisconnect(script);
      }
    }

    /** A reply has come although no command is pending: an error ends the connection, another one the process. */
    method UnaskedReply(reply: Reply, script: nat -> seq<Action>)
      requires Idle() && replies.spine == []
      modifies this, replies, replies.Cells()
      ensures accepted == old(accepted) && delivered == old(delivered) && !in_callback && SameCells() && OnlyGrown()
      ensures if reply.Error? then abort == None && Valid() && freed && replies.spine == []
              else abort == Some(Unasked) && !freed
      ensures Asks(script)
    {
      ScriptedOne(script, runs);
      if reply.Error? {
        err := true;
        DoDisconnect(script);
      } else {
        abort := Some(Unasked);
      }
    }

    /**
     redisProcessCallbacks, for the replies that the reader hands out and the way they end.
     `taken` replies go to pending commands, in order. The process is aborted exactly when the
     batch ends with nothing left to send on a context that is to be disconnected while commands
     are still pending, or when a reply that is not an error comes while none is.
     */
    method ProcessCallbacks(rs: seq<Reply>, end: End, script: nat -> seq<Action>) returns (ghost taken: nat)
      requires Idle()
      modifies this, replies, replies.Cells()
      ensures taken <= |rs| && delivered == old(delivered) + rs[..taken] && !in_callback && SameCells() && OnlyGrown()
      ensures abort == None ==> Valid() && (if freed then replies.spine == [] else taken == |rs| && Idle() && err == old(err))
      ensures abort == Some(Lost) <==> end == NoMore(true) && disconnecting && !err && !freed && |accepted| > |delivered|
      ensures abort == Some(Lost) ==> taken == |rs|
      ensures abort == Some(Unasked) <==> taken < |rs| && !rs[taken].Error? && !freed && |accepted| == |delivered|
      ensures abort == None && !freed && end == NoMore(true) ==> !disconnecting
      ensures abort == None && (freeing || end.ReadError?) ==> freed && replies.spine == []
      ensures rs == [] ==> accepted == old(accepted) && (abort == Some(Lost) ==> log == old(log))
      ensures rs == [] ==> (abort == Some(Lost) <==> end == NoMore(true) && old(disconnecting && !err && |accepted| > |delivered|))
      ensures (forall n :: Disconnect !in script(n)) && !old(disconnecting) ==> abort != Some(Lost)
      ensures (forall n :: Disconnect !in script(n)) && !freed && abort == None ==> disconnecting == old(disconnecting)
      ensures Asks(script)
    {
      hide Balanced;
      hide Faithful;
      hide CallbackList.Valid;
      hide Somes;
      hide Runs;
      hide Scripted;
      hide Nones;
      ScriptedOne(script, runs);
      taken := 0;
      var i := 0;
      while i < |rs|
        invariant 0 <= i <= |rs| && taken == i
        invariant Valid() && !in_callback && !freeing && !freed && abort == None && dropped == 0 && SameCells() && OnlyGrown()
        invariant delivered == old(delivered) + rs[..i] && err == old(err)
        invariant i == 0 ==> accepted == old(accepted) && disconnecting == old(disconnecting) && log == old(log)
        invariant (forall n :: Disconnect !in script(n)) ==> disconnecting == old(disconnecting)
        invariant Asks(script)
      {
        assert rs[..i + 1] == rs[..i] + [rs[i]];
        ghost var mid := runs;
        var some := Deliver(rs[i], script);
        ScriptedJoin(script, old(runs), mid, runs);
        mid := runs;
        if !some {
          PendingIsCounted();
          UnaskedReply(rs[i], script);
          ScriptedJoin(script, old(runs), mid, runs);
          return;
        }
        i := i + 1;
        taken := i;
        if freeing {
          DoFree(script);
          ScriptedJoin(script, old(runs), mid, runs);
          return;
        }
      }
      assert rs[..i] == rs;
      ghost var mid := runs;
      EndBatch(end, script);
      ScriptedJoin(script, old(runs), mid, runs);
    }

    /** One more command is given up. */
    ghost method CountDropped(cb: Callback)
      requires replies.Valid() && Faithful() && |Got()| < |accepted| && log == Runs(accepted, Got())
      requires cb == accepted[|Got()|] && replies.Contents() == accepted[|Got()| + 1..] && (disconnecting || freeing)
      modifies this`dropped
      ensures dropped == old(dropped) + 1 && Owing(cb, None)
    {
      ghost var before := Got();
      dropped := dropped + 1;
      assert Got() == before + [None];
      assert Got()[..|before|] == before;
    }
  }

  // ------------------------------------------------------------ whole runs

  /** What happens to a context from outside: a call of the application, a readable socket, a broken one. */
  datatype Event = Call(a: Action) | Readable(rs: seq<Reply>, end: End) | SocketError

  function AllReplies(es: seq<Event>): seq<Reply> {
    if es == [] then []
    else AllReplies(es[..|es| - 1]) + if es[|es| - 1].Readable? then es[|es| - 1].rs else []
  }

  ghost predicate NeverDisconnects(es: seq<Event>, script: nat -> seq<Action>) {
    (forall n :: Disconnect !in script(n)) && forall i :: 0 <= i < |es| ==> es[i] != Call(Disconnect)
  }

  /** One event; false when the context is gone or the process has been aborted. */
  method Step(ac: AsyncContext, e: Event, script: nat -> seq<Action>) returns (ghost taken: nat)
    requires ac.Idle()
    modifies ac, ac.replies, ac.replies.Cells()
    ensures ac.SameCells() && (ac.abort == None ==> if ac.freed then ac.Valid() && ac.replies.spine == [] else ac.Idle())
    ensures ac.abort == None && (ac.freeing || e == Call(Free) || e == SocketError || (e.Readable? && e.end.ReadError?)) ==> ac.freed
    ensures e == Call(Disconnect) && old(ac.replies.spine) == [] ==> ac.freed && ac.abort == None
    ensures e.Readable? ==> taken <= |e.rs| && ac.delivered == old(ac.delivered) + e.rs[..taken]
    ensures !e.Readable? ==> taken == 0 && ac.delivered == old(ac.delivered)
    ensures e.Readable? && !ac.freed && ac.abort == None ==> taken == |e.rs|
    ensures ac.abort == Some(Lost) <==>
              e.Readable? && e.end == NoMore(true) && ac.disconnecting && !ac.err && !ac.freed && |ac.accepted| > |ac.delivered|
    ensures ac.abort == Some(Unasked) <==>
              e.Readable? && taken < |e.rs| && !e.rs[taken].Error? && !ac.freed && |ac.accepted| == |ac.delivered|
    ensures (forall n :: Disconnect !in script(n)) && e != Call(Disconnect) && !old(ac.disconnecting) ==> ac.abort != Some(Lost)
    ensures (forall n :: Disconnect !in script(n)) && e != Call(Disconnect) && !ac.freed && ac.abort == None ==>
              ac.disconnecting == old(ac.disconnecting)
    ensures old(ac.disconnecting) || old(ac.freeing) ==> ac.accepted == old(ac.accepted)
    ensures if e.Call? && e.a.Command? then ac.asked == old(ac.asked) + [e.a.cb] && ac.runs == old(ac.runs) else ac.Asks(script)
    ensures ac.abort == None ==> ac.accepted <= ac.asked && (!ac.disconnecting && !ac.freeing ==> ac.accepted == ac.asked)
    ensures ac.OnlyGrown() && (e == Call(Disconnect) ==> ac.disconnecting) && (e == Call(Free) ==> ac.freeing)
  {
    hide Runs;
    hide Scripted;
    hide Nones;
    hide Somes;
    ScriptedOne(script, ac.runs);
    taken := 0;
    match e
    case Call(a) =>
      match a {
        case Command(cb) =>
          var ok := ac.AsyncCommand(cb);
        case Free =>
          ac.AsyncFree(script);
        case Disconnect =>
          ac.AsyncDisconnect(script);
      }
    case Readable(rs, end) =>
      taken := ac.ProcessCallbacks(rs, end, script);
    case SocketError =>
      ac.err := true;
      ac.DoDisconnect(script);
  }

  /** The delivered replies so far are the replies of the batches read so far, all of them while the context lives. */
  ghost predicate Taken(delivered: seq<Reply>, es: seq<Event>, living: bool) {
    if living then delivered == AllReplies(es) else delivered <= AllReplies(es)
  }

  lemma TakenStep(delivered: seq<Reply>, es: seq<Event>, e: Event, delivered': seq<Reply>, taken: nat, living: bool)
    requires Taken(delivered, es, true)
    requires if e.Readable? then taken <= |e.rs| && delivered' == delivered + e.rs[..taken] else delivered' == delivered
    requires living && e.Readable? ==> taken == |e.rs|
    ensures Taken(delivered', es + [e], living)
  {
    assert (es + [e])[..|es|] == es;
  }

  lemma AllRepliesStep(es: seq<Event>, e: Event)
    ensures AllReplies(es + [e]) == AllReplies(es) + if e.Readable? then e.rs else []
  {
    assert (es + [e])[..|es|] == es;
  }

  /** The commands issued by the first events: by the application, or by the callbacks that ran during them. */
  function AskedBy(es: seq<Event>, script: nat -> seq<Action>, marks: seq<nat>): seq<Callback> {
    if |marks| <= 1 || |marks| > |es| + 1 then []
    else
      var n := |marks| - 2;
      AskedBy(es, script, marks[..n + 1]) +
      if es[n].Call? && es[n].a.Command? then [es[n].a.cb] else Scripted(script, marks[n], marks[n + 1])
  }

  lemma AskedNothing(es: seq<Event>, script: nat -> seq<Action>)
    ensures AskedBy(es, script, [0]) == []
  {}

  lemma AskedStep(es: seq<Event>, script: nat -> seq<Action>, marks: seq<nat>, runs: nat)
    requires 1 <= |marks| <= |es|
    ensures var e := es[|marks| - 1];
            AskedBy(es, script, marks + [runs]) ==
            AskedBy(es, script, marks) +
            if e.Call? && e.a.Command? then [e.a.cb] else Scripted(script, marks[|marks| - 1], runs)
  {
    assert (marks + [runs])[..|marks|] == marks;
  }

  lemma NothingTaken()
    ensures Taken([], [], true)
  {}

  lemma TakenMeans(delivered: seq<Reply>, es: seq<Event>, living: bool)
    requires Taken(delivered, es, living)
    ensures delivered <= AllReplies(es) && (living ==> delivered == AllReplies(es))
  {}

  lemma {:induction false} RepliesGrow(es: seq<Event>, i: nat)
    requires i <= |es|
    ensures AllReplies(es[..i]) <= AllReplies(es)
  {
    if i == |es| {
      assert es[..i] == es;
    } else {
      assert es[..|es| - 1][..i] == es[..i];
      RepliesGrow(es[..|es| - 1], i);
    }
  }

  /**
   Any run of a new context, with any callbacks. As long as the process is not aborted, what
   has been run is: each accepted command's callback once, in the order of acceptance, the
   first ones with the replies in the order in which they came, the others with NULL. When the
   context has been freed, that is every accepted command. Without a graceful disconnect no
   callback is ever lost; and when, besides, there come no more replies than commands have
   been accepted, the process is never aborted. The accepted commands are the first of those
   issued, in their order: all of them unless the connection is to be closed. `marks` says how
   many callbacks had run before each event.
   */
  method RunEvents(es: seq<Event>, script: nat -> seq<Action>) returns (ac: AsyncContext, ghost marks: seq<nat>)
    ensures ac.abort == None ==>
              |ac.delivered| + ac.dropped <= |ac.accepted| &&
              ac.log == Runs(ac.accepted, Somes(ac.delivered) + Nones(ac.dropped))
    ensures ac.abort == None && !ac.freed ==> ac.dropped == 0 && ac.delivered == AllReplies(es)
    ensures ac.abort == None && ac.freed ==> |ac.delivered| + ac.dropped == |ac.accepted|
    ensures ac.abort == None && ac.freeing ==> ac.freed
    ensures 1 <= |marks| <= |es| + 1 && marks[|marks| - 1] == ac.runs && ac.asked == AskedBy(es, script, marks)
    ensures ac.Heeded(script, 0)
    ensures forall i :: 0 <= i < |marks| - 1 ==> (es[i] == Call(Disconnect) ==> ac.disconnecting) && (es[i] == Call(Free) ==> ac.freeing)
    ensures ac.abort == None && !ac.freed ==> |marks| == |es| + 1 && (!ac.disconnecting ==> ac.accepted == ac.asked)
    ensures ac.abort == None ==> ac.accepted <= ac.asked
    ensures ac.delivered <= AllReplies(es)
    ensures NeverDisconnects(es, script) ==> ac.abort != Some(Lost)
    ensures ac.abort == Some(Lost) ==> |ac.delivered| < |ac.accepted| && ac.disconnecting && !ac.err
    ensures ac.abort == Some(Unasked) ==> |ac.delivered| == |ac.accepted| < |AllReplies(es)|
    ensures NeverDisconnects(es, script) && |AllReplies(es)| <= |ac.accepted| ==>
              ac.abort == None && |ac.delivered| + ac.dropped <= |ac.accepted| &&
              ac.log == Runs(ac.accepted, Somes(ac.delivered) + Nones(ac.dropped))
  {
    hide Runs;
    hide AsyncContext.Balanced;
    hide Taken;
    hide AllReplies;
    hide AskedBy;
    hide Scripted;
    AskedNothing(es, script);
    ac := new AsyncContext();
    NothingTaken();
    assert es[..0] == [];
    var i := 0;
    var living := true;
    marks := [0];
    while i < |es| && living
      invariant |marks| == i + 1 && marks[i] == ac.runs && ac.asked == AskedBy(es, script, marks)
      invariant ac.abort == None ==> ac.accepted <= ac.asked && (!ac.disconnecting && !ac.freeing ==> ac.accepted == ac.asked)
      invariant 0 <= i <= |es| && fresh(ac) && fresh(ac.replies) && fresh(ac.replies.Cells())
      invariant ac.Heeded(script, 0)
      invariant forall j :: 0 <= j < i ==> (es[j] == Call(Disconnect) ==> ac.disconnecting) && (es[j] == Call(Free) ==> ac.freeing)
      invariant living ==> ac.Idle()
      invariant !living ==> ac.freed || ac.abort != None
      invariant ac.freed && ac.abort == None ==> ac.Valid() && ac.replies.spine == []
      invariant ac.abort == None && ac.freeing ==> ac.freed
      invariant Taken(ac.delivered, es[..i], living)
      invariant NeverDisconnects(es, script) ==> ac.abort != Some(Lost) && (living ==> !ac.disconnecting)
      invariant ac.abort == Some(Lost) ==> |ac.delivered| < |ac.accepted| && ac.disconnecting && !ac.err
      invariant ac.abort == Some(Unasked) ==> |ac.delivered| == |ac.accepted| < |AllReplies(es[..i])|
    {
      ghost var before, cells := ac.delivered, ac.replies.Cells();
      ghost var taken := Step(ac, es[i], script);
      forall c | c in ac.replies.Cells()
        ensures fresh(c)
      {
        assert c in cells || fresh(c);
      }
      living := !ac.freed && ac.abort == None;
      TakenMeans(before, es[..i], true);
      TakenStep(before, es[..i], es[i], ac.delivered, taken, living);
      AllRepliesStep(es[..i], es[i]);
      assert es[..i] + [es[i]] == es[..i + 1];
      AskedStep(es, script, marks, ac.runs);
      marks := marks + [ac.runs];
      i := i + 1;
    }
    RepliesGrow(es, i);
    assert es[..|es|] == es;
    TakenMeans(ac.delivered, es[..i], living);
    assert ac.abort.Some? ==> ac.abort.value.Lost? || ac.abort.value.Unasked?;
    if ac.abort == None {
      ac.Accounted();
    }
  }

  /** The graceful disconnect of async.h: a reply is outstanding, the output is flushed, and the process is aborted. */
  method DisconnectWhilePending(cb: Callback, script: nat -> seq<Action>) returns (ac: AsyncContext)
    ensures ac.abort == Some(Lost) && ac.accepted == [cb] && ac.log == []
  {
    hide Runs;
    hide Scripted;
    hide Somes;
    hide Nones;
    hide CallbackList.Valid;
    ac := new AsyncContext();
    var ok := ac.AsyncCommand(cb);
    ghost var cells := ac.replies.Cells();
    ac.AsyncDisconnect(script);
    forall c | c in ac.replies.Cells()
      ensures fresh(c)
    {
      assert c in cells || fresh(c);
    }
    ghost var taken := ac.ProcessCallbacks([], NoMore(true), script);
  }
}
