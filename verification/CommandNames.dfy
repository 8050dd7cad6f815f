/**
 The commands by name: a table of its own says how each is spelled, how many arguments it may
 have and which of them are its keys, and the parser's verdict on formatted argument lists is
 given in terms of that table.
 */
module CommandNames {
  import opened Bytes
  import opened CommandTable
  import opened Resp
  import opened Format
  import opened Command
  import opened CommandRoundTrip

  // ------------------------------------------------------------ the table

  predicate TakesNothing(name: string) {
    name == "ping" || name == "quit"
  }

  predicate TakesKey1(name: string) {
    name == "get" || name == "ttl" || name == "auth" || name == "decr" || name == "dump" ||
    name == "hlen" || name == "incr" || name == "llen" || name == "lpop"
  }

  predicate TakesKey2(name: string) {
    name == "pttl" || name == "rpop" || name == "sort" || name == "spop" || name == "type" ||
    name == "hkeys" || name == "hvals" || name == "scard"
  }

  predicate TakesKey3(name: string) {
    name == "zcard" || name == "exists" || name == "strlen" || name == "hgetall" || name == "persist"
  }

  predicate TakesKey4(name: string) {
    name == "pfcount" || name == "smembers"
  }

  predicate TakesKey(name: string) {
    TakesKey1(name) || TakesKey2(name) || TakesKey3(name) || TakesKey4(name)
  }

  predicate TakesKeyAndOne1(name: string) {
    name == "hget" || name == "setnx" || name == "zrank" || name == "append" || name == "decrby" ||
    name == "expire"
  }

  predicate TakesKeyAndOne2(name: string) {
    name == "getbit" || name == "getset" || name == "incrby" || name == "lindex" || name == "lpushx" ||
    name == "rpushx"
  }

  predicate TakesKeyAndOne3(name: string) {
    name == "zscore" || name == "hexists" || name == "pexpire" || name == "expireat" || name == "zrevrank"
  }

  predicate TakesKeyAndOne4(name: string) {
    name == "pexpireat" || name == "rpoplpush" || name == "sismember"
  }

  predicate TakesKeyAndOne5(name: string) {
    name == "incrbyfloat"
  }

  predicate TakesKeyAndOne(name: string) {
    TakesKeyAndOne1(name) || TakesKeyAndOne2(name) || TakesKeyAndOne3(name) || TakesKeyAndOne4(name) ||
    TakesKeyAndOne5(name)
  }

  predicate TakesKeyAndTwo1(name: string) {
    name == "hset" || name == "lrem" || name == "lset" || name == "ltrim" || name == "setex" ||
    name == "smove" || name == "hsetnx"
  }

  predicate TakesKeyAndTwo2(name: string) {
    name == "lrange" || name == "psetex" || name == "setbit" || name == "zcount" || name == "hincrby"
  }

  predicate TakesKeyAndTwo3(name: string) {
    name == "restore" || name == "zincrby" || name == "getrange" || name == "setrange"
  }

  predicate TakesKeyAndTwo4(name: string) {
    name == "zlexcount" || name == "hincrbyfloat" || name == "zremrangebylex"
  }

  predicate TakesKeyAndTwo5(name: string) {
    name == "zremrangebyrank" || name == "zremrangebyscore"
  }

  predicate TakesKeyAndTwo(name: string) {
    TakesKeyAndTwo1(name) || TakesKeyAndTwo2(name) || TakesKeyAndTwo3(name) || TakesKeyAndTwo4(name) ||
    TakesKeyAndTwo5(name)
  }

  predicate TakesKeyAndThree(name: string) {
    name == "linsert"
  }

  predicate TakesKeyAndMore1(name: string) {
    name == "set" || name == "hdel" || name == "sadd" || name == "srem" || name == "zadd" ||
    name == "zrem" || name == "hmget" || name == "hmset"
  }

  predicate TakesKeyAndMore2(name: string) {
    name == "hscan" || name == "lpush" || name == "pfadd" || name == "rpush" || name == "sdiff" ||
    name == "sscan" || name == "zscan"
  }

  predicate TakesKeyAndMore3(name: string) {
    name == "sinter" || name == "sunion" || name == "zrange" || name == "pfmerge" || name == "bitcount"
  }

  predicate TakesKeyAndMore4(name: string) {
    name == "zrevrange" || name == "sdiffstore" || name == "sinterstore"
  }

  predicate TakesKeyAndMore5(name: string) {
    name == "srandmember" || name == "sunionstore" || name == "zinterstore"
  }

  predicate TakesKeyAndMore6(name: string) {
    name == "zrangebylex" || name == "zunionstore" || name == "zrangebyscore"
  }

  predicate TakesKeyAndMore7(name: string) {
    name == "zrevrangebyscore"
  }

  predicate TakesKeyAndMore(name: string) {
    TakesKeyAndMore1(name) || TakesKeyAndMore2(name) || TakesKeyAndMore3(name) || TakesKeyAndMore4(name) ||
    TakesKeyAndMore5(name) || TakesKeyAndMore6(name) || TakesKeyAndMore7(name)
  }

  predicate TakesKeys(name: string) {
    name == "del" || name == "mget"
  }

  predicate TakesPairs(name: string) {
    name == "mset"
  }

  predicate TakesScript(name: string) {
    name == "eval" || name == "evalsha"
  }

  /** Where the keys are, the name being argument 0. */
  datatype KeyRule = NoKeys | First | EveryOne | EveryOther | Third

  /** The commands with this name, the fewest and the most arguments they take, and their keys. */
  predicate Listed(name: string, fewest: nat, most: Option<nat>, keys: KeyRule) {
    (TakesNothing(name) && fewest == 0 && most == Some(0) && keys == NoKeys) ||
    (TakesKey(name) && fewest == 1 && most == Some(1) && keys == First) ||
    (TakesKeyAndOne(name) && fewest == 2 && most == Some(2) && keys == First) ||
    (TakesKeyAndTwo(name) && fewest == 3 && most == Some(3) && keys == First) ||
    (TakesKeyAndThree(name) && fewest == 4 && most == Some(4) && keys == First) ||
    (TakesKeyAndMore(name) && fewest == 1 && most == None && keys == First) ||
    (TakesKeys(name) && fewest == 1 && most == None && keys == EveryOne) ||
    (TakesPairs(name) && fewest == 1 && most == None && keys == EveryOther) ||
    (TakesScript(name) && fewest == 3 && most == None && keys == Third)
  }

  /** The small letters of the name, each of them as it is or as a capital. */
  predicate Spelled(m: seq<byte>, name: string) {
    |m| == |name| &&
    forall i :: 0 <= i < |m| ==>
      'a' <= name[i] <= 'z' && (m[i] as int == name[i] as int || m[i] as int == name[i] as int - 32)
  }

  // ------------------------------------------------------------ what the names are recognised as

  lemma SmallIs(b: byte, c: char)
    requires 'a' <= c <= 'z' && (b as int == c as int || b as int == c as int - 32)
    ensures Small(b) == c
  {}

  /** Made small, the letters are those of the name. */
  predicate Made(m: seq<byte>, name: string) {
    |m| == |name| && forall i :: 0 <= i < |m| ==> Small(m[i]) == name[i]
  }

  lemma SpelledIsMade(m: seq<byte>, name: string)
    requires Spelled(m, name)
    ensures Made(m, name)
  {
    hide Small;
    forall i | 0 <= i < |m|
      ensures Small(m[i]) == name[i]
    {
      SmallIs(m[i], name[i]);
    }
  }

  lemma ReadsTakesNothing(m: seq<byte>, name: string)
    requires TakesNothing(name) && Spelled(m, name)
    ensures ClassOf(TypeOf(m)) == NoKey
  {
    hide Small;
    hide Spelled;
    SpelledIsMade(m, name);
  }

  lemma ReadsTakesKey1(m: seq<byte>, name: string)
    requires TakesKey1(name) && Spelled(m, name)
    ensures ClassOf(TypeOf(m)) == KeyOnly
  {
    hide Small;
    hide Spelled;
    SpelledIsMade(m, name);
  }

  lemma ReadsTakesKey2(m: seq<byte>, name: string)
    requires TakesKey2(name) && Spelled(m, name)
    ensures ClassOf(TypeOf(m)) == KeyOnly
  {
    hide Small;
    hide Spelled;
    SpelledIsMade(m, name);
  }

  lemma ReadsTakesKey3(m: seq<byte>, name: string)
    requires TakesKey3(name) && Spelled(m, name)
    ensures ClassOf(TypeOf(m)) == KeyOnly
  {
    hide Small;
    hide Spelled;
    SpelledIsMade(m, name);
  }

  lemma ReadsTakesKey4(m: seq<byte>, name: string)
    requires TakesKey4(name) && Spelled(m, name)
    ensures ClassOf(TypeOf(m)) == KeyOnly
  {
    hide Small;
    hide Spelled;
    SpelledIsMade(m, name);
  }

  lemma ReadsTakesKeyAndOne1(m: seq<byte>, name: string)
    requires TakesKeyAndOne1(name) && Spelled(m, name)
    ensures ClassOf(TypeOf(m)) == KeyAnd1
  {
    hide Small;
    hide Spelled;
    SpelledIsMade(m, name);
  }

  lemma ReadsTakesKeyAndOne2(m: seq<byte>, name: string)
    requires TakesKeyAndOne2(name) && Spelled(m, name)
    ensures ClassOf(TypeOf(m)) == KeyAnd1
  {
    hide Small;
    hide Spelled;
    SpelledIsMade(m, name);
  }

  lemma ReadsTakesKeyAndOne3(m: seq<byte>, name: string)
    requires TakesKeyAndOne3(name) && Spelled(m, name)
    ensures ClassOf(TypeOf(m)) == KeyAnd1
  {
    hide Small;
    hide Spelled;
    SpelledIsMade(m, name);
  }

  lemma ReadsTakesKeyAndOne4(m: seq<byte>, name: string)
    requires TakesKeyAndOne4(name) && Spelled(m, name)
    ensures ClassOf(TypeOf(m)) == KeyAnd1
  {
    hide Small;
    hide Spelled;
    SpelledIsMade(m, name);
  }

  lemma ReadsTakesKeyAndOne5(m: seq<byte>, name: string)
    requires TakesKeyAndOne5(name) && Spelled(m, name)
    ensures ClassOf(TypeOf(m)) == KeyAnd1
  {
    hide Small;
    hide Spelled;
    SpelledIsMade(m, name);
  }

  lemma ReadsTakesKeyAndTwo1(m: seq<byte>, name: string)
    requires TakesKeyAndTwo1(name) && Spelled(m, name)
    ensures ClassOf(TypeOf(m)) == KeyAnd2
  {
    hide Small;
    hide Spelled;
    SpelledIsMade(m, name);
  }

  lemma ReadsTakesKeyAndTwo2(m: seq<byte>, name: string)
    requires TakesKeyAndTwo2(name) && Spelled(m, name)
    ensures ClassOf(TypeOf(m)) == KeyAnd2
  {
    hide Small;
    hide Spelled;
    SpelledIsMade(m, name);
  }

  lemma ReadsTakesKeyAndTwo3(m: seq<byte>, name: string)
    requires TakesKeyAndTwo3(name) && Spelled(m, name)
    ensures ClassOf(TypeOf(m)) == KeyAnd2
  {
    hide Small;
    hide Spelled;
    SpelledIsMade(m, name);
  }

  lemma ReadsTakesKeyAndTwo4(m: seq<byte>, name: string)
    requires TakesKeyAndTwo4(name) && Spelled(m, name)
    ensures ClassOf(TypeOf(m)) == KeyAnd2
  {
    hide Small;
    hide Spelled;
    SpelledIsMade(m, name);
  }

  lemma ReadsTakesKeyAndTwo5(m: seq<byte>, name: string)
    requires TakesKeyAndTwo5(name) && Spelled(m, name)
    ensures ClassOf(TypeOf(m)) == KeyAnd2
  {
    hide Small;
    hide Spelled;
    SpelledIsMade(m, name);
  }

  lemma ReadsTakesKeyAndThree(m: seq<byte>, name: string)
    requires TakesKeyAndThree(name) && Spelled(m, name)
    ensures ClassOf(TypeOf(m)) == KeyAnd3
  {
    hide Small;
    hide Spelled;
    SpelledIsMade(m, name);
  }

  lemma ReadsTakesKeyAndMore1(m: seq<byte>, name: string)
    requires TakesKeyAndMore1(name) && Spelled(m, name)
    ensures ClassOf(TypeOf(m)) == KeyAndAny
  {
    hide Small;
    hide Spelled;
    SpelledIsMade(m, name);
  }

  lemma ReadsTakesKeyAndMore2(m: seq<byte>, name: string)
    requires TakesKeyAndMore2(name) && Spelled(m, name)
    ensures ClassOf(TypeOf(m)) == KeyAndAny
  {
    hide Small;
    hide Spelled;
    SpelledIsMade(m, name);
  }

  lemma ReadsTakesKeyAndMore3(m: seq<byte>, name: string)
    requires TakesKeyAndMore3(name) && Spelled(m, name)
    ensures ClassOf(TypeOf(m)) == KeyAndAny
  {
    hide Small;
    hide Spelled;
    SpelledIsMade(m, name);
  }

  lemma ReadsTakesKeyAndMore4(m: seq<byte>, name: string)
    requires TakesKeyAndMore4(name) && Spelled(m, name)
    ensures ClassOf(TypeOf(m)) == KeyAndAny
  {
    hide Small;
    hide Spelled;
    SpelledIsMade(m, name);
  }

  lemma ReadsTakesKeyAndMore5(m: seq<byte>, name: string)
    requires TakesKeyAndMore5(name) && Spelled(m, name)
    ensures ClassOf(TypeOf(m)) == KeyAndAny
  {
    hide Small;
    hide Spelled;
    SpelledIsMade(m, name);
  }

  lemma ReadsTakesKeyAndMore6(m: seq<byte>, name: string)
    requires TakesKeyAndMore6(name) && Spelled(m, name)
    ensures ClassOf(TypeOf(m)) == KeyAndAny
  {
    hide Small;
    hide Spelled;
    SpelledIsMade(m, name);
  }

  lemma ReadsTakesKeyAndMore7(m: seq<byte>, name: string)
    requires TakesKeyAndMore7(name) && Spelled(m, name)
    ensures ClassOf(TypeOf(m)) == KeyAndAny
  {
    hide Small;
    hide Spelled;
    SpelledIsMade(m, name);
  }

  lemma ReadsTakesKeys(m: seq<byte>, name: string)
    requires TakesKeys(name) && Spelled(m, name)
    ensures ClassOf(TypeOf(m)) == Keys
  {
    hide Small;
    hide Spelled;
    SpelledIsMade(m, name);
  }

  lemma ReadsTakesPairs(m: seq<byte>, name: string)
    requires TakesPairs(name) && Spelled(m, name)
    ensures ClassOf(TypeOf(m)) == Pairs
  {
    hide Small;
    hide Spelled;
    SpelledIsMade(m, name);
  }

  lemma ReadsTakesScript(m: seq<byte>, name: string)
    requires TakesScript(name) && Spelled(m, name)
    ensures ClassOf(TypeOf(m)) == Script
  {
    hide Small;
    hide Spelled;
    SpelledIsMade(m, name);
  }

  lemma ReadsTakesKey(m: seq<byte>, name: string)
    requires TakesKey(name) && Spelled(m, name)
    ensures ClassOf(TypeOf(m)) == KeyOnly
  {
    hide Spelled;
    hide TypeOf;
    hide ClassOf;
    hide TakesKey1;
    hide TakesKey2;
    hide TakesKey3;
    hide TakesKey4;
    if TakesKey1(name) {
      ReadsTakesKey1(m, name);
    } else if TakesKey2(name) {
      ReadsTakesKey2(m, name);
    } else if TakesKey3(name) {
      ReadsTakesKey3(m, name);
    } else {
      ReadsTakesKey4(m, name);
    }
  }

  lemma ReadsTakesKeyAndOne(m: seq<byte>, name: string)
    requires TakesKeyAndOne(name) && Spelled(m, name)
    ensures ClassOf(TypeOf(m)) == KeyAnd1
  {
    hide Spelled;
    hide TypeOf;
    hide ClassOf;
    hide TakesKeyAndOne1;
    hide TakesKeyAndOne2;
    hide TakesKeyAndOne3;
    hide TakesKeyAndOne4;
    hide TakesKeyAndOne5;
    if TakesKeyAndOne1(name) {
      ReadsTakesKeyAndOne1(m, name);
    } else if TakesKeyAndOne2(name) {
      ReadsTakesKeyAndOne2(m, name);
    } else if TakesKeyAndOne3(name) {
      ReadsTakesKeyAndOne3(m, name);
    } else if TakesKeyAndOne4(name) {
      ReadsTakesKeyAndOne4(m, name);
    } else {
      ReadsTakesKeyAndOne5(m, name);
    }
  }

  lemma ReadsTakesKeyAndTwo(m: seq<byte>, name: string)
    requires TakesKeyAndTwo(name) && Spelled(m, name)
    ensures ClassOf(TypeOf(m)) == KeyAnd2
  {
    hide Spelled;
    hide TypeOf;
    hide ClassOf;
    hide TakesKeyAndTwo1;
    hide TakesKeyAndTwo2;
    hide TakesKeyAndTwo3;
    hide TakesKeyAndTwo4;
    hide TakesKeyAndTwo5;
    if TakesKeyAndTwo1(name) {
      ReadsTakesKeyAndTwo1(m, name);
    } else if TakesKeyAndTwo2(name) {
      ReadsTakesKeyAndTwo2(m, name);
    } else if TakesKeyAndTwo3(name) {
      ReadsTakesKeyAndTwo3(m, name);
    } else if TakesKeyAndTwo4(name) {
      ReadsTakesKeyAndTwo4(m, name);
    } else {
      ReadsTakesKeyAndTwo5(m, name);
    }
  }

  lemma ReadsTakesKeyAndMore(m: seq<byte>, name: string)
    requires TakesKeyAndMore(name) && Spelled(m, name)
    ensures ClassOf(TypeOf(m)) == KeyAndAny
  {
    hide Spelled;
    hide TypeOf;
    hide ClassOf;
    hide TakesKeyAndMore1;
    hide TakesKeyAndMore2;
    hide TakesKeyAndMore3;
    hide TakesKeyAndMore4;
    hide TakesKeyAndMore5;
    hide TakesKeyAndMore6;
    hide TakesKeyAndMore7;
    if TakesKeyAndMore1(name) {
      ReadsTakesKeyAndMore1(m, name);
    } else if TakesKeyAndMore2(name) {
      ReadsTakesKeyAndMore2(m, name);
    } else if TakesKeyAndMore3(name) {
      ReadsTakesKeyAndMore3(m, name);
    } else if TakesKeyAndMore4(name) {
      ReadsTakesKeyAndMore4(m, name);
    } else if TakesKeyAndMore5(name) {
      ReadsTakesKeyAndMore5(m, name);
    } else if TakesKeyAndMore6(name) {
      ReadsTakesKeyAndMore6(m, name);
    } else {
      ReadsTakesKeyAndMore7(m, name);
    }
  }

  /** The class of a command agrees with what the table says. */
  predicate Suits(c: Class, fewest: nat, most: Option<nat>, keys: KeyRule) {
    match c
    case NoKey => fewest == 0 && most == Some(0) && keys == NoKeys
    case KeyOnly => fewest == 1 && most == Some(1) && keys == First
    case KeyAnd1 => fewest == 2 && most == Some(2) && keys == First
    case KeyAnd2 => fewest == 3 && most == Some(3) && keys == First
    case KeyAnd3 => fewest == 4 && most == Some(4) && keys == First
    case KeyAndAny => fewest == 1 && most == None && keys == First
    case Keys => fewest == 1 && most == None && keys == EveryOne
    case Pairs => fewest == 1 && most == None && keys == EveryOther
    case Script => fewest == 3 && most == None && keys == Third
    case Unclassed => false
  }

  lemma ListedSuits(m: seq<byte>, name: string, fewest: nat, most: Option<nat>, keys: KeyRule)
    requires Listed(name, fewest, most, keys) && Spelled(m, name)
    ensures Suits(ClassOf(TypeOf(m)), fewest, most, keys)
  {
    hide Spelled;
    hide TypeOf;
    hide ClassOf;
    hide TakesNothing;
    hide TakesKey;
    hide TakesKeyAndOne;
    hide TakesKeyAndTwo;
    hide TakesKeyAndThree;
    hide TakesKeyAndMore;
    hide TakesKeys;
    hide TakesPairs;
    hide TakesScript;
    if TakesNothing(name) {
      ReadsTakesNothing(m, name);
    }
    if TakesKey(name) {
      ReadsTakesKey(m, name);
    }
    if TakesKeyAndOne(name) {
      ReadsTakesKeyAndOne(m, name);
    }
    if TakesKeyAndTwo(name) {
      ReadsTakesKeyAndTwo(m, name);
    }
    if TakesKeyAndThree(name) {
      ReadsTakesKeyAndThree(m, name);
    }
    if TakesKeyAndMore(name) {
      ReadsTakesKeyAndMore(m, name);
    }
    if TakesKeys(name) {
      ReadsTakesKeys(m, name);
    }
    if TakesPairs(name) {
      ReadsTakesPairs(m, name);
    }
    if TakesScript(name) {
      ReadsTakesScript(m, name);
    }
  }

  // ------------------------------------------------------------ the verdict by name

  /** The key count of a script: a number, and not zero in 32 bits. */
  predicate KeyCountGiven(arg: seq<byte>) {
    arg != [] && (forall i :: 0 <= i < |arg| ==> 48 <= arg[i] <= 57) && DecVal(arg) % 4294967296 != 0
  }

  /** The argument list, name included, has as many arguments as the table allows. */
  predicate Allowed(fewest: nat, most: Option<nat>, keys: KeyRule, argv: seq<seq<byte>>) {
    |argv| >= 1 &&
    var n := |argv| - 1;
    fewest <= n && (most.Some? ==> n <= most.value) &&
    (keys == EveryOther ==> n == 1 || n % 2 == 0) && (keys == Third ==> n >= 3 && KeyCountGiven(argv[2]))
  }

  /** The positions of the keys in a list of `n` arguments, the name being argument 0. */
  function KeyPositions(rule: KeyRule, n: nat): seq<nat>
    requires n >= 1
  {
    match rule
    case NoKeys => []
    case First => [1]
    case EveryOne => seq(n - 1, j requires 0 <= j => j + 1)
    case EveryOther => seq(n / 2, j requires 0 <= j => 2 * j + 1)
    case Third => [3]
  }

  lemma AllowedIsAdmissible(c: Class, fewest: nat, most: Option<nat>, keys: KeyRule, argv: seq<seq<byte>>)
    requires argv != [] && Suits(c, fewest, most, keys)
    ensures Allowed(fewest, most, keys, argv) <==> Admissible(c, argv) && (c == NoKey ==> |argv| == 1)
    ensures KeyPositions(keys, |argv|) == KeyIndexes(c, |argv|)
  {
    if |argv| >= 4 {
      assert KeyCountGiven(argv[2]) <==> ScriptCountOk(argv[2]);
    }
  }

  lemma PositionsFit(fewest: nat, most: Option<nat>, keys: KeyRule, argv: seq<seq<byte>>)
    requires Allowed(fewest, most, keys, argv) && exists c :: Suits(c, fewest, most, keys)
    ensures forall j :: 0 <= j < |KeyPositions(keys, |argv|)| ==> KeyPositions(keys, |argv|)[j] < |argv|
  {}

  /**
   The parser by name: a formatted command whose name is in the table, in either case of letters,
   is accepted on its last byte exactly when the table allows its number of arguments, and then
   has the keys that the table says.
   */
  lemma AcceptedByName(name: string, fewest: nat, most: Option<nat>, keys: KeyRule, argv: seq<seq<byte>>)
    requires Listed(name, fewest, most, keys) && Fits(argv) && argv != [] && Spelled(argv[0], name)
    ensures var r := Execute(Wire(argv), INITIAL);
            (r.Accepted? && r.s.p == |Wire(argv)| - 1 <==> Allowed(fewest, most, keys, argv)) &&
            (Allowed(fewest, most, keys, argv) ==>
               var at := KeyPositions(keys, |argv|);
               r.s.narg == |argv| && (forall j :: 0 <= j < |at| ==> at[j] < |argv|) && r.s.keys == KeysAt(argv, at))
  {
    hide Execute;
    hide Wire;
    hide Spelled;
    hide Listed;
    hide TypeOf;
    hide ClassOf;
    hide Suits;
    hide Allowed;
    hide Admissible;
    hide KeyPositions;
    hide KeyIndexes;
    var c := ClassOf(TypeOf(argv[0]));
    ListedSuits(argv[0], name, fewest, most, keys);
    AllowedIsAdmissible(c, fewest, most, keys, argv);
    EveryCommandHasAClass(TypeOf(argv[0]));
    SuitsSome(c, fewest, most, keys);
    ParserInvertsFormatter(argv);
    if Allowed(fewest, most, keys, argv) {
      PositionsFit(fewest, most, keys, argv);
    }
  }

  lemma SuitsSome(c: Class, fewest: nat, most: Option<nat>, keys: KeyRule)
    requires Suits(c, fewest, most, keys)
    ensures c != Unclassed
  {}
}
