/**
 Executing a command in the face of redirections (hircluster.cpp
 redis_cluster_command_execute and the loop of redisClusterFormattedCommand). The cluster
 is an adversary: at every turn it decides about the route, the connection, what it answers
 and whether the steps that a redirection asks for succeed.
 */
module Redirect {
  import opened Bytes
  import opened Resp

  const MOVED: seq<byte> := [77, 79, 86, 69, 68]
  const ASK: seq<byte> := [65, 83, 75]
  const TRYAGAIN: seq<byte> := [84, 82, 89, 65, 71, 65, 73, 78]
  const CROSSSLOT: seq<byte> := [67, 82, 79, 83, 83, 83, 76, 79, 84]
  const CLUSTERDOWN: seq<byte> := [67, 76, 85, 83, 84, 69, 82, 68, 79, 87, 78]

  datatype ErrorType = NotError | Moved | Ask | TryAgain | CrossSlot | ClusterDown | OtherError

  predicate Announces(s: seq<byte>, word: seq<byte>) {
    |word| < |s| && word <= s
  }

  /** cluster_reply_error_type. */
  function TypeOfReply(r: Reply): ErrorType {
    if !r.Error? then NotError
    else if Announces(r.s, MOVED) then Moved
    else if Announces(r.s, ASK) then Ask
    else if Announces(r.s, TRYAGAIN) then TryAgain
    else if Announces(r.s, CROSSSLOT) then CrossSlot
    else if Announces(r.s, CLUSTERDOWN) then ClusterDown
    else OtherError
  }

  predicate Redirects(r: Reply) {
    TypeOfReply(r) != NotError && TypeOfReply(r) != OtherError
  }

  /** What becomes of a connection context when it is asked for. */
  datatype Link = NoContext | Broken | Usable

  /** Everything the cluster decides while the command is sent once. */
  datatype Turn = Turn(
    routed: bool,          // the slot has an owner in the table
    link: Link,            // the connection to it
    spare: Option<Link>,   // another node that answers PING, and the connection to it
    written: bool,         // the command could be appended to the output
    reply: Option<Reply>,  // what came back
    updated: bool,         // after MOVED: the route could be updated
    known: bool,           // after ASK: the node could be found
    askLink: Link,         // after ASK: the connection to it
    asking: bool)          // after ASK: it answered ASKING

  /** How an execution ended: the reply or NULL, the retry counter, how often the command was sent, the turns used. */
  datatype Ended = Ended(reply: Option<Reply>, retry_count: int, sent: nat, used: nat)

  /** Choosing the connection: None when the execution fails, else the new retry counter. */
  function Connect(turn: Turn, max: int, rc: int): (bool, int) {
    if !turn.routed || turn.link.NoContext? then (false, rc)
    else if turn.link.Usable? then (true, rc)
    else if turn.spare.None? then (false, rc)
    else (rc + 1 <= max && turn.spare.value.Usable?, rc + 1)
  }

  /** After a redirection: whether to send again, and whether to the node that ASK named. */
  function Follow(turn: Turn, e: ErrorType): (bool, bool) {
    if e == Moved then (turn.updated, false)
    else if e == Ask then (turn.known && turn.askLink.Usable? && turn.asking, true)
    else (true, false)
  }

  /** What one turn comes to: the end, or another sending. */
  datatype Attempt = Over(reply: Option<Reply>, retry_count: int, sent: nat) | Again(retry_count: int, ask: bool)

  /** One turn; `asked` says that the connection has been chosen by ASK. */
  function Attempted(turn: Turn, max: int, rc: int, asked: bool): (a: Attempt)
    ensures a.Over? ==> a.sent <= 1 && rc <= a.retry_count && (rc <= max ==> a.retry_count <= max + 1)
    ensures a.Over? && a.sent == 1 && rc > max ==> a.retry_count > max
    ensures a.Again? ==> rc < a.retry_count <= max
  {
    var (connected, rc1) := if asked then (true, rc) else Connect(turn, max, rc);
    if !connected || !turn.written then Over(None, rc1, 0)
    else if turn.reply.None? || !Redirects(turn.reply.value) then Over(turn.reply, rc1, 1)
    else if rc1 + 1 > max then Over(None, rc1 + 1, 1)
    else
      var (again, ask) := Follow(turn, TypeOfReply(turn.reply.value));
      if again then Again(rc1 + 1, ask) else Over(None, rc1 + 1, 1)
  }

  /** The execution from turn `t` on. */
  function Executed(env: nat -> Turn, t: nat, max: int, rc: int, asked: bool): Ended
    decreases max - rc
  {
    match Attempted(env(t), max, rc, asked)
    case Over(reply, rc1, sent) => Ended(reply, rc1, sent, 1)
    case Again(rc1, ask) =>
      var rest := Executed(env, t + 1, max, rc1, ask);
      rest.(sent := rest.sent + 1, used := rest.used + 1)
  }

  function Capped(rc: int, max: int): int {
    if rc <= max then rc else max
  }

  /** Every sending after the first has been paid for by the retry counter, which never passes the limit by more than one. */
  lemma {:induction false} SendsArePaid(env: nat -> Turn, t: nat, max: int, rc: int, asked: bool)
    ensures var e := Executed(env, t, max, rc, asked);
            e.sent <= 1 + (Capped(e.retry_count, max) - Capped(rc, max)) &&
            rc <= e.retry_count && (rc <= max ==> e.retry_count <= max + 1)
    decreases max - rc
  {
    hide Attempted;
    var a := Attempted(env(t), max, rc, asked);
    if a.Again? {
      SendsArePaid(env, t + 1, max, a.retry_count, a.ask);
    }
  }

  class Context {
    const max_redirect_count: int
    var retry_count: int
    ghost var sent: nat

    constructor (max: int)
      ensures max_redirect_count == max && retry_count == 0 && sent == 0
    {
      max_redirect_count := max;
      retry_count, sent := 0, 0;
    }

    /** The part between `retry` and `ask_retry`. */
    method Choose(now: Turn) returns (ok: bool)
      modifies this`retry_count
      ensures (ok, retry_count) == Connect(now, max_redirect_count, old(retry_count))
    {
      if !now.routed {
        return false;
      }
      if now.link.NoContext? {
        return false;
      }
      if now.link.Broken? {
        if now.spare.None? {
          return false;
        }
        retry_count := retry_count + 1;
        if retry_count > max_redirect_count {
          return false;
        }
        if !now.spare.value.Usable? {
          return false;
        }
      }
      return true;
    }

    /** From `retry` or `ask_retry` to the next jump or return. */
    method Try(now: Turn, asked: bool) returns (a: Attempt)
      modifies this
      ensures a == Attempted(now, max_redirect_count, old(retry_count), asked) && retry_count == a.retry_count
      ensures sent == old(sent) + if a.Over? then a.sent else 1
    {
      if !asked {
        var ok := Choose(now);
        if !ok {
          return Over(None, retry_count, 0);
        }
      }
      if !now.written {
        return Over(None, retry_count, 0);
      }
      sent := sent + 1;
      if now.reply.None? {
        return Over(None, retry_count, 1);
      }
      var error_type := TypeOfReply(now.reply.value);
      if error_type == NotError || error_type == OtherError {
        return Over(now.reply, retry_count, 1);
      }
      retry_count := retry_count + 1;
      if retry_count > max_redirect_count {
        return Over(None, retry_count, 1);
      }
      match error_type
      case Moved =>
        if !now.updated {
          return Over(None, retry_count, 1);
        }
        return Again(retry_count, false);
      case Ask =>
        if !now.known {
          return Over(None, retry_count, 1);
        }
        if !now.askLink.Usable? {
          return Over(None, retry_count, 1);
        }
        if !now.asking {
          return Over(None, retry_count, 1);
        }
        return Again(retry_count, true);
      case _ =>
        return Again(retry_count, false);
    }

    /**
     redis_cluster_command_execute against any cluster. It terminates because every turn after
     the first has raised the retry counter.
     */
    method Execute(env: nat -> Turn, start: nat) returns (reply: Option<Reply>, t: nat)
      modifies this
      ensures var e := Executed(env, start, max_redirect_count, old(retry_count), false);
              reply == e.reply && retry_count == e.retry_count && sent == old(sent) + e.sent && t == start + e.used
    {
      hide Attempted;
      t := start;
      var asked := false;
      ghost var whole := Executed(env, start, max_redirect_count, retry_count, false);
      while true
        invariant t >= start && sent >= old(sent)
        invariant var rest := Executed(env, t, max_redirect_count, retry_count, asked);
                  whole == rest.(sent := sent - old(sent) + rest.sent, used := t - start + rest.used)
        decreases max_redirect_count - retry_count
      {
        var a := Try(env(t), asked);
        t := t + 1;
        if a.Over? {
          return a.reply, t;
        }
        asked := a.ask;
      }
    }

    /**
     The loop over the fragments of a command, or the one execution of an unsplit command
     (m is 1). It stops at the first fragment that fails or is answered with an error.
     */
    method ExecuteAll(env: nat -> Turn, m: nat) returns (replies: seq<Reply>, failed: bool)
      modifies this
      ensures var (e, rs) := ExecutedAll(env, 0, max_redirect_count, old(retry_count), m);
              sent == old(sent) + e.sent && replies == rs && (failed <==> e.reply.None?)
      ensures sent - old(sent) <= m + if max_redirect_count > old(retry_count) then max_redirect_count - old(retry_count) else 0
      ensures retry_count == 0
    {
      hide Executed;
      ghost var max, rc0, sent0 := max_redirect_count, retry_count, sent;
      SendsBounded(env, 0, max, rc0, m);
      ghost var whole := ExecutedAll(env, 0, max, rc0, m);
      replies := [];
      var k, t := 0, 0;
      while k < m
        invariant 0 <= k <= m && t >= 0 && sent >= sent0
        invariant var (rest, rs) := ExecutedAll(env, t, max, retry_count, m - k);
                  whole.0.sent == sent - sent0 + rest.sent && whole.0.reply.None? == rest.reply.None? && whole.1 == replies + rs
      {
        var reply;
        reply, t := Execute(env, t);
        if reply.None? {
          retry_count := 0;
          return replies, true;
        }
        replies := replies + [reply.value];
        if reply.value.Error? {
          retry_count := 0;
          return replies, false;
        }
        k := k + 1;
      }
      retry_count := 0;
      return replies, false;
    }
  }

  /** The fragments from turn `t` on; the reply is the last one, or None when an execution failed. */
  function ExecutedAll(env: nat -> Turn, t: nat, max: int, rc: int, m: nat): (Ended, seq<Reply>)
    decreases m
  {
    if m == 0 then (Ended(Some(Nil), rc, 0, 0), [])
    else
      var e := Executed(env, t, max, rc, false);
      if e.reply.None? then (e, [])
      else if e.reply.value.Error? then (e, [e.reply.value])
      else
        var (rest, rs) := ExecutedAll(env, t + e.used, max, e.retry_count, m - 1);
        (rest.(sent := e.sent + rest.sent, used := e.used + rest.used), [e.reply.value] + rs)
  }

  function Slack(max: int, rc: int): nat {
    if max > rc then max - rc else 0
  }

  /** Bounded redirection: m fragments are sent at most m times plus what is left of the limit. */
  lemma {:induction false} SendsBounded(env: nat -> Turn, t: nat, max: int, rc: int, m: nat)
    ensures var e := ExecutedAll(env, t, max, rc, m).0;
            e.sent <= m + (Capped(e.retry_count, max) - Capped(rc, max)) && e.sent <= m + Slack(max, rc)
    decreases m
  {
    hide Executed;
    if m > 0 {
      var e := Executed(env, t, max, rc, false);
      SendsArePaid(env, t, max, rc, false);
      if e.reply.Some? && !e.reply.value.Error? {
        SendsBounded(env, t + e.used, max, e.retry_count, m - 1);
      }
    }
  }

  // ------------------------------------------------------------ what each reply leads to

  /** The error text goes on after the word. */
  predicate Begins(s: seq<byte>, word: string) {
    |word| < |s| && forall i :: 0 <= i < |word| ==> s[i] as int == word[i] as int
  }

  predicate Says(r: Reply, word: string) {
    r.Error? && Begins(r.s, word)
  }

  lemma IsMoved(s: seq<byte>)
    ensures Begins(s, "MOVED") <==> Announces(s, MOVED)
  {
    var w, name := MOVED, "MOVED";
    assert |w| == |name| == 5;
    if Begins(s, name) {
      assert s[..5] == w;
    }
  }

  lemma IsAsk(s: seq<byte>)
    ensures Begins(s, "ASK") <==> Announces(s, ASK)
  {
    var w, name := ASK, "ASK";
    assert |w| == |name| == 3;
    if Begins(s, name) {
      assert s[..3] == w;
    }
  }

  lemma IsTryagain(s: seq<byte>)
    ensures Begins(s, "TRYAGAIN") <==> Announces(s, TRYAGAIN)
  {
    var w, name := TRYAGAIN, "TRYAGAIN";
    assert |w| == |name| == 8;
    if Begins(s, name) {
      assert s[..8] == w;
    }
  }

  lemma IsCrossslot(s: seq<byte>)
    ensures Begins(s, "CROSSSLOT") <==> Announces(s, CROSSSLOT)
  {
    var w, name := CROSSSLOT, "CROSSSLOT";
    assert |w| == |name| == 9;
    if Begins(s, name) {
      assert s[..9] == w;
    }
  }

  lemma IsClusterdown(s: seq<byte>)
    ensures Begins(s, "CLUSTERDOWN") <==> Announces(s, CLUSTERDOWN)
  {
    var w, name := CLUSTERDOWN, "CLUSTERDOWN";
    assert |w| == |name| == 11;
    if Begins(s, name) {
      assert s[..11] == w;
    }
  }

  predicate SaysOne(r: Reply) {
    Says(r, "MOVED") || Says(r, "ASK") || Says(r, "TRYAGAIN") || Says(r, "CROSSSLOT") || Says(r, "CLUSTERDOWN")
  }

  lemma TypeIs(r: Reply)
    ensures TypeOfReply(r) == Moved <==> Says(r, "MOVED")
    ensures TypeOfReply(r) == Ask <==> Says(r, "ASK")
    ensures TypeOfReply(r) == TryAgain <==> Says(r, "TRYAGAIN")
    ensures TypeOfReply(r) == CrossSlot <==> Says(r, "CROSSSLOT")
    ensures TypeOfReply(r) == ClusterDown <==> Says(r, "CLUSTERDOWN")
  {
    if r.Error? {
      IsMoved(r.s);
      IsAsk(r.s);
      IsTryagain(r.s);
      IsCrossslot(r.s);
      IsClusterdown(r.s);
      hide Begins;
      OneWord(r.s);
    }
  }

  /** The five words exclude each other. */
  lemma OneWord(s: seq<byte>)
    ensures Announces(s, MOVED) ==> s[0] == 77
    ensures Announces(s, ASK) ==> s[0] == 65
    ensures Announces(s, TRYAGAIN) ==> s[0] == 84
    ensures Announces(s, CROSSSLOT) ==> s[0] == 67 && s[1] == 82
    ensures Announces(s, CLUSTERDOWN) ==> s[0] == 67 && s[1] == 76
  {}

  /** The command has been sent, over a connection that leaves the retry counter at `rc1`. */
  predicate SentOver(turn: Turn, max: int, rc: int, asked: bool, rc1: int) {
    turn.written &&
    if asked then rc1 == rc
    else turn.routed && ((turn.link.Usable? && rc1 == rc) ||
                         (turn.link.Broken? && turn.spare == Some(Usable) && rc1 == rc + 1 <= max))
  }

  /** The rest of an execution, after one more sending. */
  function OneMore(e: Ended): Ended {
    e.(sent := e.sent + 1, used := e.used + 1)
  }

  /**
   The replies decide: MOVED leads to another sending, to the owner in the table, exactly when the
   route could be updated; ASK, to the node it names, exactly when that node is known, can be
   reached and takes ASKING; TRYAGAIN, CROSSSLOT and CLUSTERDOWN always, to the owner in the table;
   each of them only below the limit. Any other reply is the result.
   */
  lemma ReplyDecides(env: nat -> Turn, t: nat, max: int, rc: int, asked: bool, rc1: int, r: Reply)
    requires SentOver(env(t), max, rc, asked, rc1) && env(t).reply == Some(r)
    ensures var e := Executed(env, t, max, rc, asked);
            var again, over := Executed(env, t + 1, max, rc1 + 1, false), Ended(None, rc1 + 1, 1, 1);
            (Says(r, "MOVED") && rc1 < max ==> e == if env(t).updated then OneMore(again) else over) &&
            (Says(r, "ASK") && rc1 < max ==>
               e == if env(t).known && env(t).askLink.Usable? && env(t).asking
                    then OneMore(Executed(env, t + 1, max, rc1 + 1, true)) else over) &&
            ((Says(r, "TRYAGAIN") || Says(r, "CROSSSLOT") || Says(r, "CLUSTERDOWN")) && rc1 < max ==> e == OneMore(again)) &&
            (SaysOne(r) && rc1 >= max ==> e == over) &&
            (!SaysOne(r) ==> e == Ended(Some(r), rc1, 1, 1))
  {
    TypeIs(r);
    hide TypeOfReply;
    hide Says;
    TypeOfNoError(r);
  }

  lemma TypeOfNoError(r: Reply)
    ensures TypeOfReply(r) == NotError <==> !r.Error?
  {}

  /** Without a connection, or when the command cannot be written or is not answered, it ends with NULL. */
  lemma NoReplyEnds(env: nat -> Turn, t: nat, max: int, rc: int, asked: bool)
    ensures var turn, e := env(t), Executed(env, t, max, rc, asked);
            (!asked && (!turn.routed || turn.link.NoContext? || (turn.link.Broken? && turn.spare.None?)) ==>
               e == Ended(None, rc, 0, 1)) &&
            (!asked && turn.routed && turn.link.Broken? && turn.spare.Some? && (rc >= max || !turn.spare.value.Usable?) ==>
               e == Ended(None, rc + 1, 0, 1)) &&
            (forall rc1 :: SentOver(turn, max, rc, asked, rc1) && turn.reply.None? ==> e == Ended(None, rc1, 1, 1)) &&
            (forall rc1 :: SentOver(turn.(written := true), max, rc, asked, rc1) && !turn.written ==> e == Ended(None, rc1, 0, 1))
  {}

  // ------------------------------------------------------------ the bound is reached

  const TRY_LATER: Reply := Error(TRYAGAIN + [32])

  /** A turn in which everything works and the node answers `r`. */
  function Answering(r: Reply): Turn {
    Turn(true, Usable, None, true, Some(r), true, true, Usable, true)
  }

  /** The adversary that answers m - 1 fragments and then keeps asking to try again. */
  function Stubborn(m: nat): nat -> Turn {
    (t: nat) => if t + 1 < m then Answering(Nil) else Answering(TRY_LATER)
  }

  lemma TryLaterRedirects()
    ensures Redirects(TRY_LATER) && TypeOfReply(TRY_LATER) == TryAgain
  {
    var s := TRY_LATER.s;
    assert s[0] == 84;
    assert s[..8] == TRYAGAIN;
  }

  lemma {:induction false} KeepsTrying(m: nat, t: nat, max: int, rc: int)
    requires t + 1 >= m
    ensures var e := Executed(Stubborn(m), t, max, rc, false);
            e.sent == 1 + Slack(max, rc) && e.reply == None
    decreases max - rc
  {
    TryLaterRedirects();
    assert Stubborn(m)(t) == Answering(TRY_LATER);
    if rc + 1 <= max {
      KeepsTrying(m, t + 1, max, rc + 1);
    }
  }

  lemma AnsweredAtOnce(env: nat -> Turn, t: nat, max: int, rc: int)
    requires env(t) == Answering(Nil)
    ensures Executed(env, t, max, rc, false) == Ended(Some(Nil), rc, 1, 1)
  {}

  /** For every number of fragments and every limit some cluster reaches the bound. */
  lemma {:induction false} BoundIsReached(m: nat, t: nat, k: nat, max: int, rc: int)
    requires 1 <= k <= m && t + k == m
    ensures ExecutedAll(Stubborn(m), t, max, rc, k).0.sent == k + Slack(max, rc)
    decreases k
  {
    if k == 1 {
      KeepsTrying(m, t, max, rc);
    } else {
      assert Stubborn(m)(t) == Answering(Nil);
      AnsweredAtOnce(Stubborn(m), t, max, rc);
      hide Executed;
      BoundIsReached(m, t + 1, k - 1, max, rc);
    }
  }
}
