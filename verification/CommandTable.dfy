/**
 The command names known to command.cpp and the arity classes its classifiers
 redis_argz to redis_argeval sort them into.
 */
module CommandTable {
  import opened Bytes

  /** The commands the parser recognises. */
  datatype CmdType =
    | UNKNOWN
    | APPEND | AUTH | BITCOUNT | DECR | DECRBY | DEL | DUMP | EVAL | EVALSHA | EXISTS | EXPIRE | EXPIREAT
    | GET | GETBIT | GETRANGE | GETSET | HDEL | HEXISTS | HGET | HGETALL | HINCRBY | HINCRBYFLOAT | HKEYS
    | HLEN | HMGET | HMSET | HSCAN | HSET | HSETNX | HVALS | INCR | INCRBY | INCRBYFLOAT | LINDEX | LINSERT
    | LLEN | LPOP | LPUSH | LPUSHX | LRANGE | LREM | LSET | LTRIM | MGET | MSET | PERSIST | PEXPIRE
    | PEXPIREAT | PFADD | PFCOUNT | PFMERGE | PING | PSETEX | PTTL | QUIT | RESTORE | RPOP | RPOPLPUSH
    | RPUSH | RPUSHX | SADD | SCARD | SDIFF | SDIFFSTORE | SET | SETBIT | SETEX | SETNX | SETRANGE | SINTER
    | SINTERSTORE | SISMEMBER | SMEMBERS | SMOVE | SORT | SPOP | SRANDMEMBER | SREM | SSCAN | STRLEN
    | SUNION | SUNIONSTORE | TTL | TYPE | ZADD | ZCARD | ZCOUNT | ZINCRBY | ZINTERSTORE | ZLEXCOUNT
    | ZRANGE | ZRANGEBYLEX | ZRANGEBYSCORE | ZRANK | ZREM | ZREMRANGEBYLEX | ZREMRANGEBYRANK
    | ZREMRANGEBYSCORE | ZREVRANGE | ZREVRANGEBYSCORE | ZREVRANK | ZSCAN | ZSCORE | ZUNIONSTORE

  /** Takes no key. */
  predicate ArgZ(t: CmdType) {
    t.PING? || t.QUIT?
  }

  /** Takes a key and no more arguments. */
  predicate Arg0(t: CmdType) {
    t.EXISTS? || t.PERSIST? || t.PTTL? || t.SORT? || t.TTL? || t.TYPE? || t.DUMP? || t.DECR? || t.GET? ||
    t.INCR? || t.STRLEN? || t.HGETALL? || t.HKEYS? || t.HLEN? || t.HVALS? || t.LLEN? || t.LPOP? || t.RPOP? ||
    t.SCARD? || t.SMEMBERS? || t.SPOP? || t.ZCARD? || t.PFCOUNT? || t.AUTH?
  }

  /** Takes a key and exactly one more argument. */
  predicate Arg1(t: CmdType) {
    t.EXPIRE? || t.EXPIREAT? || t.PEXPIRE? || t.PEXPIREAT? || t.APPEND? || t.DECRBY? || t.GETBIT? || t.GETSET?
    || t.INCRBY? || t.INCRBYFLOAT? || t.SETNX? || t.HEXISTS? || t.HGET? || t.LINDEX? || t.LPUSHX? ||
    t.RPOPLPUSH? || t.RPUSHX? || t.SISMEMBER? || t.ZRANK? || t.ZREVRANK? || t.ZSCORE?
  }

  /** Takes a key and exactly two more arguments. */
  predicate Arg2(t: CmdType) {
    t.GETRANGE? || t.PSETEX? || t.SETBIT? || t.SETEX? || t.SETRANGE? || t.HINCRBY? || t.HINCRBYFLOAT? ||
    t.HSET? || t.HSETNX? || t.LRANGE? || t.LREM? || t.LSET? || t.LTRIM? || t.SMOVE? || t.ZCOUNT? ||
    t.ZLEXCOUNT? || t.ZINCRBY? || t.ZREMRANGEBYLEX? || t.ZREMRANGEBYRANK? || t.ZREMRANGEBYSCORE? || t.RESTORE?
  }

  /** Takes a key and exactly three more arguments. */
  predicate Arg3(t: CmdType) {
    t.LINSERT?
  }

  /** Takes a key and any number of further arguments. */
  predicate ArgN(t: CmdType) {
    t.BITCOUNT? || t.SET? || t.HDEL? || t.HMGET? || t.HMSET? || t.HSCAN? || t.LPUSH? || t.RPUSH? || t.SADD? ||
    t.SDIFF? || t.SDIFFSTORE? || t.SINTER? || t.SINTERSTORE? || t.SREM? || t.SUNION? || t.SUNIONSTORE? ||
    t.SRANDMEMBER? || t.SSCAN? || t.PFADD? || t.PFMERGE? || t.ZADD? || t.ZINTERSTORE? || t.ZRANGE? ||
    t.ZRANGEBYSCORE? || t.ZREM? || t.ZREVRANGE? || t.ZRANGEBYLEX? || t.ZREVRANGEBYSCORE? || t.ZUNIONSTORE? ||
    t.ZSCAN?
  }

  /** Takes one or more keys. */
  predicate ArgX(t: CmdType) {
    t.MGET? || t.DEL?
  }

  /** Takes one or more key-value pairs. */
  predicate ArgKvx(t: CmdType) {
    t.MSET?
  }

  /** Takes a script, a key count, a key, and any number of further arguments. */
  predicate ArgEval(t: CmdType) {
    t.EVAL? || t.EVALSHA?
  }

  /** A capital letter as the small one, any other byte as it is. */
  function Small(b: byte): char {
    if 65 <= b <= 90 then (b + 32) as char else b as char
  }

  // The macros str3icmp to str16icmp, on letters that have been made small.

  function TypeOfLength3(c0: char, c1: char, c2: char): CmdType {
    if c0 == 'g' && c1 == 'e' && c2 == 't' then GET
    else if c0 == 's' && c1 == 'e' && c2 == 't' then SET
    else if c0 == 't' && c1 == 't' && c2 == 'l' then TTL
    else if c0 == 'd' && c1 == 'e' && c2 == 'l' then DEL
    else UNKNOWN
  }

  function TypeOfLength4(c0: char, c1: char, c2: char, c3: char): CmdType {
    if c0 == 'p' && c1 == 't' && c2 == 't' && c3 == 'l' then PTTL
    else if c0 == 'd' && c1 == 'e' && c2 == 'c' && c3 == 'r' then DECR
    else if c0 == 'd' && c1 == 'u' && c2 == 'm' && c3 == 'p' then DUMP
    else if c0 == 'h' && c1 == 'd' && c2 == 'e' && c3 == 'l' then HDEL
    else if c0 == 'h' && c1 == 'g' && c2 == 'e' && c3 == 't' then HGET
    else if c0 == 'h' && c1 == 'l' && c2 == 'e' && c3 == 'n' then HLEN
    else if c0 == 'h' && c1 == 's' && c2 == 'e' && c3 == 't' then HSET
    else if c0 == 'i' && c1 == 'n' && c2 == 'c' && c3 == 'r' then INCR
    else if c0 == 'l' && c1 == 'l' && c2 == 'e' && c3 == 'n' then LLEN
    else if c0 == 'l' && c1 == 'p' && c2 == 'o' && c3 == 'p' then LPOP
    else if c0 == 'l' && c1 == 'r' && c2 == 'e' && c3 == 'm' then LREM
    else if c0 == 'l' && c1 == 's' && c2 == 'e' && c3 == 't' then LSET
    else if c0 == 'r' && c1 == 'p' && c2 == 'o' && c3 == 'p' then RPOP
    else if c0 == 's' && c1 == 'a' && c2 == 'd' && c3 == 'd' then SADD
    else if c0 == 's' && c1 == 'p' && c2 == 'o' && c3 == 'p' then SPOP
    else if c0 == 's' && c1 == 'r' && c2 == 'e' && c3 == 'm' then SREM
    else if c0 == 't' && c1 == 'y' && c2 == 'p' && c3 == 'e' then TYPE
    else if c0 == 'm' && c1 == 'g' && c2 == 'e' && c3 == 't' then MGET
    else if c0 == 'm' && c1 == 's' && c2 == 'e' && c3 == 't' then MSET
    else if c0 == 'z' && c1 == 'a' && c2 == 'd' && c3 == 'd' then ZADD
    else if c0 == 'z' && c1 == 'r' && c2 == 'e' && c3 == 'm' then ZREM
    else if c0 == 'e' && c1 == 'v' && c2 == 'a' && c3 == 'l' then EVAL
    else if c0 == 's' && c1 == 'o' && c2 == 'r' && c3 == 't' then SORT
    else if c0 == 'p' && c1 == 'i' && c2 == 'n' && c3 == 'g' then PING
    else if c0 == 'q' && c1 == 'u' && c2 == 'i' && c3 == 't' then QUIT
    else if c0 == 'a' && c1 == 'u' && c2 == 't' && c3 == 'h' then AUTH
    else UNKNOWN
  }

  function TypeOfLength5(c0: char, c1: char, c2: char, c3: char, c4: char): CmdType {
    if c0 == 'h' && c1 == 'k' && c2 == 'e' && c3 == 'y' && c4 == 's' then HKEYS
    else if c0 == 'h' && c1 == 'm' && c2 == 'g' && c3 == 'e' && c4 == 't' then HMGET
    else if c0 == 'h' && c1 == 'm' && c2 == 's' && c3 == 'e' && c4 == 't' then HMSET
    else if c0 == 'h' && c1 == 'v' && c2 == 'a' && c3 == 'l' && c4 == 's' then HVALS
    else if c0 == 'h' && c1 == 's' && c2 == 'c' && c3 == 'a' && c4 == 'n' then HSCAN
    else if c0 == 'l' && c1 == 'p' && c2 == 'u' && c3 == 's' && c4 == 'h' then LPUSH
    else if c0 == 'l' && c1 == 't' && c2 == 'r' && c3 == 'i' && c4 == 'm' then LTRIM
    else if c0 == 'r' && c1 == 'p' && c2 == 'u' && c3 == 's' && c4 == 'h' then RPUSH
    else if c0 == 's' && c1 == 'c' && c2 == 'a' && c3 == 'r' && c4 == 'd' then SCARD
    else if c0 == 's' && c1 == 'd' && c2 == 'i' && c3 == 'f' && c4 == 'f' then SDIFF
    else if c0 == 's' && c1 == 'e' && c2 == 't' && c3 == 'e' && c4 == 'x' then SETEX
    else if c0 == 's' && c1 == 'e' && c2 == 't' && c3 == 'n' && c4 == 'x' then SETNX
    else if c0 == 's' && c1 == 'm' && c2 == 'o' && c3 == 'v' && c4 == 'e' then SMOVE
    else if c0 == 's' && c1 == 's' && c2 == 'c' && c3 == 'a' && c4 == 'n' then SSCAN
    else if c0 == 'z' && c1 == 'c' && c2 == 'a' && c3 == 'r' && c4 == 'd' then ZCARD
    else if c0 == 'z' && c1 == 'r' && c2 == 'a' && c3 == 'n' && c4 == 'k' then ZRANK
    else if c0 == 'z' && c1 == 's' && c2 == 'c' && c3 == 'a' && c4 == 'n' then ZSCAN
    else if c0 == 'p' && c1 == 'f' && c2 == 'a' && c3 == 'd' && c4 == 'd' then PFADD
    else UNKNOWN
  }

  function TypeOfLength6(c0: char, c1: char, c2: char, c3: char, c4: char, c5: char): CmdType {
    if c0 == 'a' && c1 == 'p' && c2 == 'p' && c3 == 'e' && c4 == 'n' && c5 == 'd' then APPEND
    else if c0 == 'd' && c1 == 'e' && c2 == 'c' && c3 == 'r' && c4 == 'b' && c5 == 'y' then DECRBY
    else if c0 == 'e' && c1 == 'x' && c2 == 'i' && c3 == 's' && c4 == 't' && c5 == 's' then EXISTS
    else if c0 == 'e' && c1 == 'x' && c2 == 'p' && c3 == 'i' && c4 == 'r' && c5 == 'e' then EXPIRE
    else if c0 == 'g' && c1 == 'e' && c2 == 't' && c3 == 'b' && c4 == 'i' && c5 == 't' then GETBIT
    else if c0 == 'g' && c1 == 'e' && c2 == 't' && c3 == 's' && c4 == 'e' && c5 == 't' then GETSET
    else if c0 == 'p' && c1 == 's' && c2 == 'e' && c3 == 't' && c4 == 'e' && c5 == 'x' then PSETEX
    else if c0 == 'h' && c1 == 's' && c2 == 'e' && c3 == 't' && c4 == 'n' && c5 == 'x' then HSETNX
    else if c0 == 'i' && c1 == 'n' && c2 == 'c' && c3 == 'r' && c4 == 'b' && c5 == 'y' then INCRBY
    else if c0 == 'l' && c1 == 'i' && c2 == 'n' && c3 == 'd' && c4 == 'e' && c5 == 'x' then LINDEX
    else if c0 == 'l' && c1 == 'p' && c2 == 'u' && c3 == 's' && c4 == 'h' && c5 == 'x' then LPUSHX
    else if c0 == 'l' && c1 == 'r' && c2 == 'a' && c3 == 'n' && c4 == 'g' && c5 == 'e' then LRANGE
    else if c0 == 'r' && c1 == 'p' && c2 == 'u' && c3 == 's' && c4 == 'h' && c5 == 'x' then RPUSHX
    else if c0 == 's' && c1 == 'e' && c2 == 't' && c3 == 'b' && c4 == 'i' && c5 == 't' then SETBIT
    else if c0 == 's' && c1 == 'i' && c2 == 'n' && c3 == 't' && c4 == 'e' && c5 == 'r' then SINTER
    else if c0 == 's' && c1 == 't' && c2 == 'r' && c3 == 'l' && c4 == 'e' && c5 == 'n' then STRLEN
    else if c0 == 's' && c1 == 'u' && c2 == 'n' && c3 == 'i' && c4 == 'o' && c5 == 'n' then SUNION
    else if c0 == 'z' && c1 == 'c' && c2 == 'o' && c3 == 'u' && c4 == 'n' && c5 == 't' then ZCOUNT
    else if c0 == 'z' && c1 == 'r' && c2 == 'a' && c3 == 'n' && c4 == 'g' && c5 == 'e' then ZRANGE
    else if c0 == 'z' && c1 == 's' && c2 == 'c' && c3 == 'o' && c4 == 'r' && c5 == 'e' then ZSCORE
    else UNKNOWN
  }

  function TypeOfLength7(c0: char, c1: char, c2: char, c3: char, c4: char, c5: char, c6: char): CmdType {
    if c0 == 'p' && c1 == 'e' && c2 == 'r' && c3 == 's' && c4 == 'i' && c5 == 's' && c6 == 't' then PERSIST
    else if c0 == 'p' && c1 == 'e' && c2 == 'x' && c3 == 'p' && c4 == 'i' && c5 == 'r' && c6 == 'e' then PEXPIRE
    else if c0 == 'h' && c1 == 'e' && c2 == 'x' && c3 == 'i' && c4 == 's' && c5 == 't' && c6 == 's' then HEXISTS
    else if c0 == 'h' && c1 == 'g' && c2 == 'e' && c3 == 't' && c4 == 'a' && c5 == 'l' && c6 == 'l' then HGETALL
    else if c0 == 'h' && c1 == 'i' && c2 == 'n' && c3 == 'c' && c4 == 'r' && c5 == 'b' && c6 == 'y' then HINCRBY
    else if c0 == 'l' && c1 == 'i' && c2 == 'n' && c3 == 's' && c4 == 'e' && c5 == 'r' && c6 == 't' then LINSERT
    else if c0 == 'z' && c1 == 'i' && c2 == 'n' && c3 == 'c' && c4 == 'r' && c5 == 'b' && c6 == 'y' then ZINCRBY
    else if c0 == 'e' && c1 == 'v' && c2 == 'a' && c3 == 'l' && c4 == 's' && c5 == 'h' && c6 == 'a' then EVALSHA
    else if c0 == 'r' && c1 == 'e' && c2 == 's' && c3 == 't' && c4 == 'o' && c5 == 'r' && c6 == 'e' then RESTORE
    else if c0 == 'p' && c1 == 'f' && c2 == 'c' && c3 == 'o' && c4 == 'u' && c5 == 'n' && c6 == 't' then PFCOUNT
    else if c0 == 'p' && c1 == 'f' && c2 == 'm' && c3 == 'e' && c4 == 'r' && c5 == 'g' && c6 == 'e' then PFMERGE
    else UNKNOWN
  }

  function TypeOfLength8(c0: char, c1: char, c2: char, c3: char, c4: char, c5: char, c6: char, c7: char): CmdType {
    if c0 == 'e' && c1 == 'x' && c2 == 'p' && c3 == 'i' && c4 == 'r' && c5 == 'e' && c6 == 'a' && c7 == 't' then EXPIREAT
    else if c0 == 'b' && c1 == 'i' && c2 == 't' && c3 == 'c' && c4 == 'o' && c5 == 'u' && c6 == 'n' &&
       c7 == 't' then BITCOUNT
    else if c0 == 'g' && c1 == 'e' && c2 == 't' && c3 == 'r' && c4 == 'a' && c5 == 'n' && c6 == 'g' &&
       c7 == 'e' then GETRANGE
    else if c0 == 's' && c1 == 'e' && c2 == 't' && c3 == 'r' && c4 == 'a' && c5 == 'n' && c6 == 'g' &&
       c7 == 'e' then SETRANGE
    else if c0 == 's' && c1 == 'm' && c2 == 'e' && c3 == 'm' && c4 == 'b' && c5 == 'e' && c6 == 'r' &&
       c7 == 's' then SMEMBERS
    else if c0 == 'z' && c1 == 'r' && c2 == 'e' && c3 == 'v' && c4 == 'r' && c5 == 'a' && c6 == 'n' &&
       c7 == 'k' then ZREVRANK
    else UNKNOWN
  }

  function TypeOfLength9(c0: char, c1: char, c2: char, c3: char, c4: char, c5: char, c6: char, c7: char,
                        c8: char): CmdType {
    if c0 == 'p' && c1 == 'e' && c2 == 'x' && c3 == 'p' && c4 == 'i' && c5 == 'r' && c6 == 'e' &&
       c7 == 'a' && c8 == 't' then PEXPIREAT
    else if c0 == 'r' && c1 == 'p' && c2 == 'o' && c3 == 'p' && c4 == 'l' && c5 == 'p' && c6 == 'u' &&
       c7 == 's' && c8 == 'h' then RPOPLPUSH
    else if c0 == 's' && c1 == 'i' && c2 == 's' && c3 == 'm' && c4 == 'e' && c5 == 'm' && c6 == 'b' &&
       c7 == 'e' && c8 == 'r' then SISMEMBER
    else if c0 == 'z' && c1 == 'r' && c2 == 'e' && c3 == 'v' && c4 == 'r' && c5 == 'a' && c6 == 'n' &&
       c7 == 'g' && c8 == 'e' then ZREVRANGE
    else if c0 == 'z' && c1 == 'l' && c2 == 'e' && c3 == 'x' && c4 == 'c' && c5 == 'o' && c6 == 'u' &&
       c7 == 'n' && c8 == 't' then ZLEXCOUNT
    else UNKNOWN
  }

  function TypeOfLength10(c0: char, c1: char, c2: char, c3: char, c4: char, c5: char, c6: char, c7: char,
                        c8: char, c9: char): CmdType {
    if c0 == 's' && c1 == 'd' && c2 == 'i' && c3 == 'f' && c4 == 'f' && c5 == 's' && c6 == 't' &&
       c7 == 'o' && c8 == 'r' && c9 == 'e' then SDIFFSTORE
    else UNKNOWN
  }

  function TypeOfLength11(c0: char, c1: char, c2: char, c3: char, c4: char, c5: char, c6: char, c7: char,
                        c8: char, c9: char, c10: char): CmdType {
    if c0 == 'i' && c1 == 'n' && c2 == 'c' && c3 == 'r' && c4 == 'b' && c5 == 'y' && c6 == 'f' &&
       c7 == 'l' && c8 == 'o' && c9 == 'a' && c10 == 't' then INCRBYFLOAT
    else if c0 == 's' && c1 == 'i' && c2 == 'n' && c3 == 't' && c4 == 'e' && c5 == 'r' && c6 == 's' &&
       c7 == 't' && c8 == 'o' && c9 == 'r' && c10 == 'e' then SINTERSTORE
    else if c0 == 's' && c1 == 'r' && c2 == 'a' && c3 == 'n' && c4 == 'd' && c5 == 'm' && c6 == 'e' &&
       c7 == 'm' && c8 == 'b' && c9 == 'e' && c10 == 'r' then SRANDMEMBER
    else if c0 == 's' && c1 == 'u' && c2 == 'n' && c3 == 'i' && c4 == 'o' && c5 == 'n' && c6 == 's' &&
       c7 == 't' && c8 == 'o' && c9 == 'r' && c10 == 'e' then SUNIONSTORE
    else if c0 == 'z' && c1 == 'i' && c2 == 'n' && c3 == 't' && c4 == 'e' && c5 == 'r' && c6 == 's' &&
       c7 == 't' && c8 == 'o' && c9 == 'r' && c10 == 'e' then ZINTERSTORE
    else if c0 == 'z' && c1 == 'u' && c2 == 'n' && c3 == 'i' && c4 == 'o' && c5 == 'n' && c6 == 's' &&
       c7 == 't' && c8 == 'o' && c9 == 'r' && c10 == 'e' then ZUNIONSTORE
    else if c0 == 'z' && c1 == 'r' && c2 == 'a' && c3 == 'n' && c4 == 'g' && c5 == 'e' && c6 == 'b' &&
       c7 == 'y' && c8 == 'l' && c9 == 'e' && c10 == 'x' then ZRANGEBYLEX
    else UNKNOWN
  }

  function TypeOfLength12(c0: char, c1: char, c2: char, c3: char, c4: char, c5: char, c6: char, c7: char,
                        c8: char, c9: char, c10: char, c11: char): CmdType {
    if c0 == 'h' && c1 == 'i' && c2 == 'n' && c3 == 'c' && c4 == 'r' && c5 == 'b' && c6 == 'y' &&
       c7 == 'f' && c8 == 'l' && c9 == 'o' && c10 == 'a' && c11 == 't' then HINCRBYFLOAT
    else UNKNOWN
  }

  function TypeOfLength13(c0: char, c1: char, c2: char, c3: char, c4: char, c5: char, c6: char, c7: char,
                        c8: char, c9: char, c10: char, c11: char, c12: char): CmdType {
    if c0 == 'z' && c1 == 'r' && c2 == 'a' && c3 == 'n' && c4 == 'g' && c5 == 'e' && c6 == 'b' &&
       c7 == 'y' && c8 == 's' && c9 == 'c' && c10 == 'o' && c11 == 'r' && c12 == 'e' then ZRANGEBYSCORE
    else UNKNOWN
  }

  function TypeOfLength14(c0: char, c1: char, c2: char, c3: char, c4: char, c5: char, c6: char, c7: char,
                        c8: char, c9: char, c10: char, c11: char, c12: char, c13: char): CmdType {
    if c0 == 'z' && c1 == 'r' && c2 == 'e' && c3 == 'm' && c4 == 'r' && c5 == 'a' && c6 == 'n' &&
       c7 == 'g' && c8 == 'e' && c9 == 'b' && c10 == 'y' && c11 == 'l' && c12 == 'e' && c13 == 'x' then ZREMRANGEBYLEX
    else UNKNOWN
  }

  function TypeOfLength15(c0: char, c1: char, c2: char, c3: char, c4: char, c5: char, c6: char, c7: char,
                        c8: char, c9: char, c10: char, c11: char, c12: char, c13: char, c14: char): CmdType {
    if c0 == 'z' && c1 == 'r' && c2 == 'e' && c3 == 'm' && c4 == 'r' && c5 == 'a' && c6 == 'n' &&
       c7 == 'g' && c8 == 'e' && c9 == 'b' && c10 == 'y' && c11 == 'r' && c12 == 'a' && c13 == 'n' &&
       c14 == 'k' then ZREMRANGEBYRANK
    else UNKNOWN
  }

  function TypeOfLength16(c0: char, c1: char, c2: char, c3: char, c4: char, c5: char, c6: char, c7: char,
                        c8: char, c9: char, c10: char, c11: char, c12: char, c13: char, c14: char, c15: char): CmdType {
    if c0 == 'z' && c1 == 'r' && c2 == 'e' && c3 == 'm' && c4 == 'r' && c5 == 'a' && c6 == 'n' &&
       c7 == 'g' && c8 == 'e' && c9 == 'b' && c10 == 'y' && c11 == 's' && c12 == 'c' && c13 == 'o' &&
       c14 == 'r' && c15 == 'e' then ZREMRANGEBYSCORE
    else if c0 == 'z' && c1 == 'r' && c2 == 'e' && c3 == 'v' && c4 == 'r' && c5 == 'a' && c6 == 'n' &&
       c7 == 'g' && c8 == 'e' && c9 == 'b' && c10 == 'y' && c11 == 's' && c12 == 'c' && c13 == 'o' &&
       c14 == 'r' && c15 == 'e' then ZREVRANGEBYSCORE
    else UNKNOWN
  }

  /** The type a command name stands for, upper or lower case. */
  function TypeOf(m: seq<byte>): CmdType {
    match |m|
    case 3 => TypeOfLength3(Small(m[0]), Small(m[1]), Small(m[2]))
    case 4 => TypeOfLength4(Small(m[0]), Small(m[1]), Small(m[2]), Small(m[3]))
    case 5 => TypeOfLength5(Small(m[0]), Small(m[1]), Small(m[2]), Small(m[3]), Small(m[4]))
    case 6 => TypeOfLength6(Small(m[0]), Small(m[1]), Small(m[2]), Small(m[3]), Small(m[4]), Small(m[5]))
    case 7 => TypeOfLength7(Small(m[0]), Small(m[1]), Small(m[2]), Small(m[3]), Small(m[4]), Small(m[5]),
                Small(m[6]))
    case 8 => TypeOfLength8(Small(m[0]), Small(m[1]), Small(m[2]), Small(m[3]), Small(m[4]), Small(m[5]),
                Small(m[6]), Small(m[7]))
    case 9 => TypeOfLength9(Small(m[0]), Small(m[1]), Small(m[2]), Small(m[3]), Small(m[4]), Small(m[5]),
                Small(m[6]), Small(m[7]), Small(m[8]))
    case 10 => TypeOfLength10(Small(m[0]), Small(m[1]), Small(m[2]), Small(m[3]), Small(m[4]), Small(m[5]),
                Small(m[6]), Small(m[7]), Small(m[8]), Small(m[9]))
    case 11 => TypeOfLength11(Small(m[0]), Small(m[1]), Small(m[2]), Small(m[3]), Small(m[4]), Small(m[5]),
                Small(m[6]), Small(m[7]), Small(m[8]), Small(m[9]), Small(m[10]))
    case 12 => TypeOfLength12(Small(m[0]), Small(m[1]), Small(m[2]), Small(m[3]), Small(m[4]), Small(m[5]),
                Small(m[6]), Small(m[7]), Small(m[8]), Small(m[9]), Small(m[10]), Small(m[11]))
    case 13 => TypeOfLength13(Small(m[0]), Small(m[1]), Small(m[2]), Small(m[3]), Small(m[4]), Small(m[5]),
                Small(m[6]), Small(m[7]), Small(m[8]), Small(m[9]), Small(m[10]), Small(m[11]), Small(m[12]))
    case 14 => TypeOfLength14(Small(m[0]), Small(m[1]), Small(m[2]), Small(m[3]), Small(m[4]), Small(m[5]),
                Small(m[6]), Small(m[7]), Small(m[8]), Small(m[9]), Small(m[10]), Small(m[11]),
                Small(m[12]), Small(m[13]))
    case 15 => TypeOfLength15(Small(m[0]), Small(m[1]), Small(m[2]), Small(m[3]), Small(m[4]), Small(m[5]),
                Small(m[6]), Small(m[7]), Small(m[8]), Small(m[9]), Small(m[10]), Small(m[11]),
                Small(m[12]), Small(m[13]), Small(m[14]))
    case 16 => TypeOfLength16(Small(m[0]), Small(m[1]), Small(m[2]), Small(m[3]), Small(m[4]), Small(m[5]),
                Small(m[6]), Small(m[7]), Small(m[8]), Small(m[9]), Small(m[10]), Small(m[11]),
                Small(m[12]), Small(m[13]), Small(m[14]), Small(m[15]))
    case _ => UNKNOWN
  }

  datatype Class = NoKey | KeyOnly | KeyAnd1 | KeyAnd2 | KeyAnd3 | KeyAndAny | Keys | Pairs | Script | Unclassed

  /** The class of a command, tested in the order in which the parser tests it. */
  function ClassOf(t: CmdType): Class {
    if ArgZ(t) then NoKey
    else if Arg0(t) then KeyOnly
    else if Arg1(t) then KeyAnd1
    else if Arg2(t) then KeyAnd2
    else if Arg3(t) then KeyAnd3
    else if ArgN(t) then KeyAndAny
    else if ArgX(t) then Keys
    else if ArgKvx(t) then Pairs
    else if ArgEval(t) then Script
    else Unclassed
  }

  /** Every command with a name has a class, so the parser's fall-through errors are for no command. */
  lemma EveryCommandHasAClass(t: CmdType)
    ensures ClassOf(t) == Unclassed <==> t == UNKNOWN
  {}

  /** The classes whose commands can carry several keys are exactly those of MGET, DEL and MSET. */
  lemma MultiKeyClasses(t: CmdType)
    ensures ClassOf(t) == Keys <==> t == MGET || t == DEL
    ensures ClassOf(t) == Pairs <==> t == MSET
  {}

  const MGET_NAME: seq<byte> := [109, 103, 101, 116]
  const MSET_NAME: seq<byte> := [109, 115, 101, 116]
  const DEL_NAME: seq<byte> := [100, 101, 108]

  lemma ReadsMget(m: seq<byte>)
    requires |m| == 4 && m[0] == 109 && m[1] == 103 && m[2] == 101 && m[3] == 116
    ensures TypeOf(m) == MGET
  {}

  lemma ReadsMset(m: seq<byte>)
    requires |m| == 4 && m[0] == 109 && m[1] == 115 && m[2] == 101 && m[3] == 116
    ensures TypeOf(m) == MSET
  {}

  lemma ReadsDel(m: seq<byte>)
    requires |m| == 3 && m[0] == 100 && m[1] == 101 && m[2] == 108
    ensures TypeOf(m) == DEL
  {}

  /** The names the fragmenter writes are read back as the types it fragments. */
  lemma FragmentNames()
    ensures TypeOf(MGET_NAME) == MGET && TypeOf(MSET_NAME) == MSET && TypeOf(DEL_NAME) == DEL
  {
    hide TypeOf;
    ReadsMget(MGET_NAME);
    ReadsMset(MSET_NAME);
    ReadsDel(DEL_NAME);
  }
}
