/**
 The chained hash table of dict.cpp, which doubles when it is full. Keys are byte strings
 and the hash function is arbitrary. The entries are cells on the heap, linked through
 `next`; expanding relinks every one of them into a new bucket array.
 */
module Dict {
  import opened Bytes

  type Key = seq<byte>
  type Value = nat

  const INITIAL_SIZE: nat := 4

  /** A size the table can have: a power of two, at least the initial size. */
  ghost predicate TableSize(n: nat) {
    exists k: nat :: k >= 2 && n == Pow2(k)
  }

  /** The & operator on natural numbers. */
  function And(a: nat, b: nat): (c: nat)
    ensures c <= b
  {
    if a == 0 || b == 0 then 0
    else 2 * And(a / 2, b / 2) + if a % 2 == 1 && b % 2 == 1 then 1 else 0
  }

  /** Masking with size - 1 takes the remainder, because the size is a power of two. */
  lemma {:induction false} MaskIsRemainder(h: nat, k: nat)
    ensures And(h, Pow2(k) - 1) == h % Pow2(k)
  {
    hide And;
    if k == 0 {
      AndZero(h);
    } else {
      MaskIsRemainder(h / 2, k - 1);
      var p := Pow2(k - 1);
      assert Pow2(k) == 2 * p;
      hide Pow2;
      var m := 2 * p - 1;
      assert m / 2 == p - 1 && m % 2 == 1;
      HalfRemainder(h, p);
      AndHalves(h, m);
    }
  }

  lemma AndZero(h: nat)
    ensures And(h, 0) == 0
  {}

  lemma AndHalves(h: nat, m: nat)
    requires m % 2 == 1
    ensures And(h, m) == 2 * And(h / 2, m / 2) + h % 2
  {}

  lemma HalfRemainder(h: nat, p: nat)
    requires p > 0
    ensures h % (2 * p) == 2 * (h / 2 % p) + h % 2
  {
    var q, r := h / 2 / p, h / 2 % p;
    assert h / 2 == p * q + r;
    var n := 2 * p;
    assert n * q == 2 * (p * q);
    Quotient(h, n, q, 2 * r + h % 2);
  }

  lemma Quotient(h: nat, n: nat, q: nat, r: nat)
    requires n > 0 && h == n * q + r && r < n
    ensures h % n == r
  {
    var d := h / n;
    assert h == n * d + h % n;
    if d > q {
      Gap(n, q, d);
    } else if d < q {
      Gap(n, d, q);
    }
  }

  lemma Gap(n: nat, a: nat, b: nat)
    requires a < b
    ensures n * a + n <= n * b
  {
    assert n * b == n * a + n * (b - a);
    AtLeast(n, b - a);
  }

  lemma AtLeast(n: nat, k: nat)
    requires k >= 1
    ensures n * k >= n
  {}

  class Entry {
    const key: Key
    var val: Value
    var next: Entry?

    constructor (key: Key, val: Value, next: Entry?)
      ensures this.key == key && this.val == val && this.next == next
    {
      this.key, this.val, this.next := key, val, next;
    }
  }

  /** The cells reached from `head` are those of `c`, in that order. */
  ghost predicate Chain(head: Entry?, c: seq<Entry>)
    reads Members(c)`next
  {
    if c == [] then head == null
    else
      head == c[0] && c[|c| - 1].next == null && forall i :: 0 <= i < |c| - 1 ==> c[i].next == c[i + 1]
  }

  function First(c: seq<Entry>): Entry? {
    if c == [] then null else c[0]
  }

  predicate KeysDistinct(c: seq<Entry>) {
    forall a, b :: 0 <= a < b < |c| ==> c[a].key != c[b].key
  }

  ghost function Members(c: seq<Entry>): set<Entry> {
    set e | e in c
  }

  lemma DistinctRest(c: seq<Entry>, p: nat)
    requires KeysDistinct(c) && p <= |c|
    ensures KeysDistinct(c[p..])
  {
    forall a, b | 0 <= a < b < |c| - p
      ensures c[p..][a].key != c[p..][b].key
    {
      assert c[p + a].key != c[p + b].key;
    }
  }

  // ------------------------------------------------------------ all chains at once

  /** The cells of the buckets from `i` on. */
  ghost function Rest(cs: seq<seq<Entry>>, i: nat): set<Entry>
    requires i <= |cs|
    decreases |cs| - i
  {
    if i == |cs| then {} else Members(cs[i]) + Rest(cs, i + 1)
  }

  predicate KeysUnique(cells: set<Entry>) {
    forall e, f :: e in cells && f in cells && e.key == f.key ==> e == f
  }

  /** The chains share out the cells, and no key comes twice. */
  ghost predicate SharesOut(cs: seq<seq<Entry>>, cells: set<Entry>) {
    KeysUnique(cells) && Rest(cs, 0) == cells &&
    (forall i :: 0 <= i < |cs| ==> KeysDistinct(cs[i])) &&
    forall i :: 0 <= i < |cs| ==> Members(cs[i]) !! Rest(cs, i + 1)
  }

  /** Every cell is on one side or the other, none on both. */
  ghost predicate Divided(moved: set<Entry>, left: set<Entry>, all: set<Entry>) {
    moved + left == all && moved !! left
  }

  lemma MoreMoved(moved: set<Entry>, c: set<Entry>, left: set<Entry>, all: set<Entry>)
    requires Divided(moved, c + left, all) && c !! left
    ensures Divided(moved + c, left, all) && moved <= all && c <= all && left <= all && moved !! c
  {}

  lemma RestSplits(cs: seq<seq<Entry>>, i: nat)
    requires i < |cs| && Members(cs[i]) !! Rest(cs, i + 1)
    ensures Rest(cs, i) == Members(cs[i]) + Rest(cs, i + 1)
    ensures |Rest(cs, i)| == |Members(cs[i])| + |Rest(cs, i + 1)|
  {}

  lemma {:induction false} RestHas(cs: seq<seq<Entry>>, i: nat, j: nat)
    requires i <= j < |cs|
    ensures Members(cs[j]) <= Rest(cs, i)
    decreases j - i
  {
    if i < j {
      RestHas(cs, i + 1, j);
    }
  }

  lemma {:induction false} RestOnly(cs: seq<seq<Entry>>, i: nat, e: Entry)
    requires i <= |cs| && e in Rest(cs, i)
    ensures exists j :: i <= j < |cs| && e in cs[j]
    decreases |cs| - i
  {
    if e !in cs[i] {
      RestOnly(cs, i + 1, e);
    }
  }

  lemma MembersGrow(c: seq<Entry>, p: nat)
    requires p < |c|
    ensures Members(c[..p + 1]) == Members(c[..p]) + {c[p]}
    ensures c[p..] != [] && c[p..][0] == c[p] && c[p..][1..] == c[p + 1..]
  {}

  lemma {:induction false} CountMembers(c: seq<Entry>)
    requires KeysDistinct(c)
    ensures |Members(c)| == |c|
  {
    if c != [] {
      var n := |c| - 1;
      CountMembers(c[..n]);
      assert Members(c) == Members(c[..n]) + {c[n]};
      assert c[n] !in c[..n] by {
        assert forall a :: 0 <= a < n ==> c[a].key != c[n].key;
      }
    }
  }

  /** _dictNextPower: the smallest power of two that is neither below `size` nor below the initial size. */
  method NextPower(size: nat) returns (i: nat)
    ensures TableSize(i) && i >= size && i >= 4 && (i == 4 || i / 2 < size)
  {
    i := INITIAL_SIZE;
    ghost var k: nat := 2;
    assert Pow2(2) == 4 * Pow2(0);
    while i < size
      invariant k >= 2 && i == Pow2(k) && i > 0 && (i == INITIAL_SIZE || i / 2 < size)
      decreases size - i
    {
      i := i * 2;
      k := k + 1;
    }
  }

  class Dict {
    var table: array<Entry?>
    var size: nat
    var sizemask: nat
    var used: nat
    const hash: Key -> nat
    ghost var chains: seq<seq<Entry>>
    ghost var cells: set<Entry>

    /** The bucket of a key. */
    function Bucket(key: Key): (h: nat)
      reads `sizemask
      ensures h <= sizemask
    {
      And(hash(key), sizemask)
    }

    /** The bucket array and the cells in it; every cell in the bucket of its key, no key twice. */
    ghost predicate Shape()
      reads `table, `size, `sizemask, `chains, `cells, table, cells`next
    {
      table.Length == size == |chains| && sizemask == (if size == 0 then 0 else size - 1) &&
      (forall i :: 0 <= i < size ==> (forall e :: e in chains[i] ==> e in cells) && Chain(table[i], chains[i])) &&
      (forall i, a :: 0 <= i < size && 0 <= a < |chains[i]| ==> Bucket(chains[i][a].key) == i) &&
      (forall i :: 0 <= i < size ==> KeysDistinct(chains[i])) &&
      (size == 0 ==> cells == {}) &&
      forall e :: e in cells ==> e in chains[Bucket(e.key)]
    }

    ghost predicate Valid()
      reads this, table, cells`next
    {
      Shape() && (size == 0 || TableSize(size)) && used == |cells| && used <= size
    }

    /** The finite map that the cells represent. */
    ghost predicate Represents(m: map<Key, Value>)
      reads `cells, cells`val
    {
      Show(cells, m)
    }

    /** dictCreate. */
    constructor (hash: Key -> nat)
      ensures Valid() && fresh(table) && size == 0 && cells == {} && this.hash == hash && Represents(map[])
    {
      this.hash := hash;
      table := new Entry?[0];
      size, sizemask, used := 0, 0, 0;
      chains, cells := [], {};
    }

    /** The cell of a key, and whether there is one. */
    ghost predicate Has(key: Key)
      reads `cells
    {
      exists e :: e in cells && e.key == key
    }

    /** Puts a cell at the head of bucket `h`. */
    method LinkCell(he: Entry, h: nat, ghost cs: seq<seq<Entry>>)
      requires h < table.Length == |cs|
      requires forall i :: 0 <= i < |cs| ==> Chain(table[i], cs[i]) && he !in Members(cs[i])
      modifies table, he`next
      ensures Chain(table[h], [he] + cs[h])
      ensures forall i :: 0 <= i < |cs| && i != h ==> Chain(table[i], cs[i])
    {
      he.next := table[h];
      table[h] := he;
      Linked(he, cs[h]);
      forall i | 0 <= i < |cs| && i != h
        ensures Chain(table[i], cs[i])
      {
        assert old(Chain(table[i], cs[i]));
      }
    }

    /** Puts a cell at the head of the bucket of its key. */
    method Link(he: Entry)
      requires Shape() && size > 0 && he !in cells && !Has(he.key)
      modifies this`chains, this`cells, table, he`next
      ensures Shape() && table == old(table) && cells == old(cells) + {he}
    {
      hide And;
      hide KeysDistinct;
      var h := Bucket(he.key);
      ghost var cs := chains;
      StillDistinct(he, cs[h]);
      chains := cs[h := [he] + cs[h]];
      cells := cells + {he};
      LinkCell(he, h, cs);
    }

    lemma StillDistinct(he: Entry, c: seq<Entry>)
      requires KeysDistinct(c) && forall e :: e in c ==> e.key != he.key
      ensures KeysDistinct([he] + c)
    {}

    lemma Linked(he: Entry, c: seq<Entry>)
      requires Chain(he.next, c)
      ensures Chain(he, [he] + c)
    {}

    /** A new table with `size` empty buckets, like the local `n` of dictExpand. */
    constructor Empty(hash: Key -> nat, size: nat)
      requires size > 0
      ensures Shape() && this.hash == hash && this.size == size && cells == {} && fresh(table)
    {
      this.hash := hash;
      this.size, sizemask, used := size, size - 1, 0;
      chains, cells := seq(size, i => []), {};
      table := new Entry?[size](_ => null);
    }

    /** The inner loop of dictExpand: the cells of one old bucket move to the new table. */
    method MoveChain(n: Dict, head: Entry?, ghost c: seq<Entry>)
      requires n != this && n.Shape() && n.size > 0 && Chain(head, c) && head == First(c) && KeysDistinct(c) && |c| <= used
      requires forall e :: e in c ==> e !in n.cells && !n.Has(e.key)
      modifies n`chains, n`cells, n.table, this`used, Members(c)`next
      ensures n.Shape() && n.table == old(n.table) && n.cells == old(n.cells) + Members(c)
      ensures used == old(used) - |c|
    {
      hide Chain;
      hide Shape;
      hide KeysDistinct;
      var he := head;
      ghost var p := 0;
      assert c[0..] == c;
      NoMembers();
      while he != null
        invariant 0 <= p <= |c| && Chain(he, c[p..]) && he == First(c[p..])
        invariant n.Shape() && n.table == old(n.table) && n.cells == old(n.cells) + Members(c[..p])
        invariant used == old(used) - p
        decreases |c| - p
      {
        NotYetLinked(n, c, p, old(n.cells));
        MembersGrow(c, p);
        DistinctRest(c, p);
        he := MoveCell(n, he, c[p..]);
        p := p + 1;
      }
      assert c[..p] == c;
    }

    /** One cell moves to its new bucket; the next one of the old bucket is handed out. */
    method MoveCell(n: Dict, he: Entry, ghost c: seq<Entry>) returns (nextHe: Entry?)
      requires n != this && used > 0 && n.Shape() && n.size > 0 && Chain(he, c) && c != [] && KeysDistinct(c) && he !in n.cells && !n.Has(he.key)
      modifies n`chains, n`cells, n.table, this`used, he`next
      ensures n.Shape() && n.table == old(n.table) && n.cells == old(n.cells) + {c[0]} && Chain(nextHe, c[1..])
      ensures nextHe == First(c[1..]) && used == old(used) - 1
    {
      nextHe := he.next;
      ghost var rest := c[1..];
      assert Chain(nextHe, rest);
      assert he !in rest by {
        assert forall b :: 0 < b < |c| ==> c[b].key != he.key;
      }
      n.Link(he);
      used := used - 1;
    }

    lemma NoMembers()
      ensures Members([]) == {}
    {}

    lemma NotYetLinked(n: Dict, c: seq<Entry>, p: nat, before: set<Entry>)
      requires KeysDistinct(c) && p < |c| && n.cells == before + Members(c[..p])
      requires c[p] !in before && forall e :: e in before ==> e.key != c[p].key
      ensures c[p] !in n.cells && !n.Has(c[p].key)
    {
      forall e | e in n.cells
        ensures e.key != c[p].key
      {
        if e !in before {
          var a :| 0 <= a < p && c[..p][a] == e;
          assert c[a].key != c[p].key;
        }
      }
    }

    lemma ShapeKeysUnique()
      requires Shape()
      ensures KeysUnique(cells)
    {
      forall e, f | e in cells && f in cells && e.key == f.key
        ensures e == f
      {
        SameCell(e, f);
      }
    }

    lemma SameCell(e: Entry, f: Entry)
      requires Shape() && e in cells && f in cells && e.key == f.key
      ensures e == f
    {
      hide And;
      var h := Bucket(e.key);
      var a :| 0 <= a < |chains[h]| && chains[h][a] == e;
      var b :| 0 <= b < |chains[h]| && chains[h][b] == f;
      assert KeysDistinct(chains[h]);
    }

    lemma ShapeCovers()
      requires Shape()
      ensures Rest(chains, 0) == cells
    {
      hide And;
      forall e | e in Rest(chains, 0)
        ensures e in cells
      {
        RestOnly(chains, 0, e);
      }
      forall e | e in cells
        ensures e in Rest(chains, 0)
      {
        RestHas(chains, 0, Bucket(e.key));
      }
    }

    lemma ShapeApart(i: nat, e: Entry)
      requires Shape() && i < |chains| && e in Rest(chains, i + 1)
      ensures e !in chains[i]
    {
      ShapePlaced();
      hide And;
      hide Shape;
      hide Chain;
      hide KeysDistinct;
      RestOnly(chains, i + 1, e);
      hide Rest;
      var j :| i + 1 <= j < |chains| && e in chains[j];
      var a :| 0 <= a < |chains[j]| && chains[j][a] == e;
      assert Bucket(e.key) == j;
      assert forall b :: 0 <= b < |chains[i]| ==> Bucket(chains[i][b].key) == i;
    }

    lemma ShapeSharesOut()
      requires Shape()
      ensures SharesOut(chains, cells)
    {
      ShapeKeysUnique();
      ShapeCovers();
      forall i, e | 0 <= i < |chains| && e in Rest(chains, i + 1)
        ensures e !in chains[i]
      {
        ShapeApart(i, e);
      }
    }

    /** The buckets from `i` on are still chained as they were. */
    ghost predicate Unmoved(cs: seq<seq<Entry>>, i: nat)
      reads `table, table, Rest(cs, if i <= |cs| then i else |cs|)`next
    {
      i <= |cs| == table.Length &&
      forall j :: i <= j < |cs| ==> Members(cs[j]) <= Rest(cs, i) && Chain(table[j], cs[j])
    }

    lemma MovesOn(n: Dict, cs: seq<seq<Entry>>, all: set<Entry>, i: nat)
      requires SharesOut(cs, all) && i < |cs|
      requires Divided(n.cells, Rest(cs, i), all)
      ensures forall e :: e in cs[i] ==> e !in n.cells && !n.Has(e.key)
      ensures |Rest(cs, i)| == |cs[i]| + |Rest(cs, i + 1)| && Members(cs[i]) <= all && KeysDistinct(cs[i])
      ensures Divided(n.cells + Members(cs[i]), Rest(cs, i + 1), all) && Rest(cs, i + 1) <= all
    {
      CountMembers(cs[i]);
      RestSplits(cs, i);
      hide Rest;
      hide KeysDistinct;
      MoreMoved(n.cells, Members(cs[i]), Rest(cs, i + 1), all);
      InMembers(cs[i]);
      hide Members;
      forall e | e in cs[i]
        ensures e !in n.cells && !n.Has(e.key)
      {
        assert e in all && e !in n.cells && n.cells <= all;
      }
    }

    lemma LaterApart(cs: seq<seq<Entry>>, all: set<Entry>, i: nat)
      requires SharesOut(cs, all) && i < |cs| && Unmoved(cs, i)
      ensures forall j :: i < j < |cs| ==> Members(cs[j]) !! Members(cs[i])
      ensures forall j :: i < j < |cs| ==> Members(cs[j]) <= Rest(cs, i + 1)
      ensures |cs| == table.Length && Chain(table[i], cs[i]) && table[i] == First(cs[i])
      ensures forall j :: i < j < |cs| ==> Chain(table[j], cs[j])
    {
      forall j | i < j < |cs|
        ensures Members(cs[j]) !! Members(cs[i]) && Members(cs[j]) <= Rest(cs, i + 1)
      {
        RestHas(cs, i + 1, j);
      }
    }

    /** The cells of the buckets below `i` are in `n`, the others are still where they were. */
    ghost predicate Halfway(n: Dict, cs: seq<seq<Entry>>, all: set<Entry>, i: nat)
      reads this, table, all`next, n, n.table, n.cells`next
    {
      n.Shape() && i <= |cs| && Divided(n.cells, Rest(cs, i), all) && used == |Rest(cs, i)| && Unmoved(cs, i)
    }

    /** One turn of the outer loop of dictExpand. */
    method MoveBucket(n: Dict, i: nat, ghost cs: seq<seq<Entry>>, ghost all: set<Entry>)
      requires n != this && n.size > 0 && table != n.table && SharesOut(cs, all) && i < |cs| && Halfway(n, cs, all, i)
      modifies n`chains, n`cells, n.table, this`used, all`next
      ensures n.table == old(n.table) && Halfway(n, cs, all, i + 1)
    {
      hide Shape;
      hide Rest;
      hide Chain;
      hide Members;
      hide KeysDistinct;
      hide SharesOut;
      hide Has;
      hide Unmoved;
      hide Divided;
      MovesOn(n, cs, all, i);
      LaterApart(cs, all, i);
      ghost var c := cs[i];
      NoMembers();
      InMembers(c);
      if table[i] == null {
        assert n.cells + Members(c) == n.cells;
        StillUnmoved(cs, i + 1);
        return;
      }
      MoveChain(n, table[i], c);
      forall j | i < j < |cs|
        ensures Chain(table[j], cs[j])
      {
        assert old(Chain(table[j], cs[j])) && Members(cs[j]) <= all && Members(cs[j]) !! Members(c);
      }
      StillUnmoved(cs, i + 1);
    }

    lemma StillUnmoved(cs: seq<seq<Entry>>, i: nat)
      requires i <= |cs| == table.Length && forall j :: i <= j < |cs| ==> Members(cs[j]) <= Rest(cs, i)
      requires forall j :: i <= j < |cs| ==> Chain(table[j], cs[j])
      ensures Unmoved(cs, i)
    {}

    lemma InMembers(c: seq<Entry>)
      ensures forall e :: e in c <==> e in Members(c)
      ensures First(c) == null ==> c == []
    {}

    /** The outer loop of dictExpand: all cells of this table move to `n`. */
    method MoveAll(n: Dict)
      requires n != this && Shape() && used == |cells| && n.Shape() && n.size > 0 && n.cells == {} && table != n.table
      modifies n`chains, n`cells, n.table, this`used, cells`next
      ensures n.Shape() && n.table == old(n.table) && n.cells == cells && used == 0
    {
      hide SharesOut;
      hide Halfway;
      hide Shape;
      hide Members;
      ghost var cs, all := chains, cells;
      ShapeSharesOut();
      StartsHalfway(n);
      var i := 0;
      while i < size && used > 0
        invariant 0 <= i <= size == |cs| && n.table == old(n.table) && Halfway(n, cs, all, i)
      {
        MoveBucket(n, i, cs, all);
        i := i + 1;
      }
      AllMoved(n, cs, all, i);
    }

    lemma StartsHalfway(n: Dict)
      requires Shape() && used == |cells| && n.Shape() && n.cells == {}
      ensures Halfway(n, chains, cells, 0) && size == |chains|
    {
      ShapeCovers();
      StartsUnmoved();
    }

    lemma AllMoved(n: Dict, cs: seq<seq<Entry>>, all: set<Entry>, i: nat)
      requires Halfway(n, cs, all, i) && (i == |cs| || used == 0)
      ensures n.Shape() && n.cells == all && used == 0
    {
      RestEnds(cs);
      assert Rest(cs, i) == {};
    }

    lemma RestEnds(cs: seq<seq<Entry>>)
      ensures Rest(cs, |cs|) == {}
    {}

    lemma StartsUnmoved()
      requires Shape()
      ensures Unmoved(chains, 0) && size == |chains|
    {
      forall j | 0 <= j < |chains|
        ensures Members(chains[j]) <= Rest(chains, 0)
      {
        RestHas(chains, 0, j);
      }
    }

    /** dictExpand: every cell is linked into a table of at least `newsize` buckets, none is lost or copied. */
    method Expand(newsize: nat) returns (ok: bool)
      requires Valid()
      modifies this, cells`next
      ensures Valid() && ok == (old(used) <= newsize)
      ensures cells == old(cells) && used == old(used)
      ensures ok ==> newsize <= size && TableSize(size) && (size == INITIAL_SIZE || size / 2 < newsize) && fresh(table)
      ensures !ok ==> size == old(size) && table == old(table)
    {
      var realsize := NextPower(newsize);
      if used > newsize {
        return false;
      }
      hide Shape;
      var n := new Dict.Empty(hash, realsize);
      n.used := used;
      MoveAll(n);
      Adopt(n);
      return true;
    }

    /** *ht = n. */
    method Adopt(n: Dict)
      requires n != this && n.Shape() && n.hash == hash && n.cells == cells && n.used == |cells|
      modifies this
      ensures Shape() && size == n.size && used == n.used && table == n.table && cells == n.cells
    {
      hide And;
      hide KeysDistinct;
      hide Chain;
      table, size, sizemask, used := n.table, n.size, n.sizemask, n.used;
      chains := n.chains;
    }

    /** _dictExpandIfNeeded. */
    method ExpandIfNeeded() returns (ok: bool)
      requires Valid()
      modifies this, cells`next
      ensures Valid() && ok && size > 0 && used < size && (table == old(table) || fresh(table))
      ensures cells == old(cells) && used == old(used)
    {
      ok := true;
      if size == 0 {
        ok := Expand(INITIAL_SIZE);
      } else if used == size {
        ok := Expand(size * 2);
      }
    }

    /** The search along one chain, common to _dictKeyIndex, dictFind and dictDelete. */
    method Search(head: Entry?, key: Key, ghost c: seq<Entry>) returns (he: Entry?, ghost p: nat)
      requires Chain(head, c) && head == First(c)
      ensures he == null ==> forall e :: e in c ==> e.key != key
      ensures he != null ==> p < |c| && he == c[p] && he.key == key
    {
      he := head;
      p := 0;
      while he != null
        invariant p <= |c| && he == (if p < |c| then c[p] else null)
        invariant forall a :: 0 <= a < p ==> c[a].key != key
        decreases |c| - p
      {
        if key == he.key {
          return;
        }
        he := he.next;
        p := p + 1;
      }
    }

    lemma ChainOf(h: nat)
      requires Shape() && h < size
      ensures Chain(table[h], chains[h]) && table[h] == First(chains[h]) && KeysDistinct(chains[h])
      ensures forall e :: e in chains[h] ==> e in cells
    {}

    /** The cells of a bucket are cells of the table that belong there. */
    lemma InBucket(h: nat)
      requires Shape() && h < |chains|
      ensures h < size && KeysDistinct(chains[h]) && Members(chains[h]) <= cells
      ensures forall e :: e in chains[h] ==> e in cells && Bucket(e.key) == h
    {
      hide And;
      hide Chain;
      hide KeysDistinct;
    }

    /** A key is in the table exactly when its own bucket has a cell with it. */
    lemma InOwnBucket(key: Key)
      requires Shape() && size > 0
      ensures Has(key) <==> exists e :: e in chains[Bucket(key)] && e.key == key
    {
      hide And;
      hide Chain;
      hide KeysDistinct;
      if e :| e in cells && e.key == key {
        assert e in chains[Bucket(e.key)];
      }
    }

    /** dictFind. */
    method Find(key: Key) returns (he: Entry?)
      requires Valid()
      ensures he != null <==> Has(key)
      ensures he != null ==> he in cells && he.key == key
    {
      hide Chain;
      hide KeysDistinct;
      hide And;
      if size == 0 {
        return null;
      }
      var h := Bucket(key);
      ChainOf(h);
      InOwnBucket(key);
      ghost var p;
      he, p := Search(table[h], key, chains[h]);
    }

    /** _dictKeyIndex: -1 when the key is there already, otherwise the bucket to put it into. */
    method KeyIndex(key: Key) returns (h: int)
      requires Valid()
      modifies this, cells`next
      ensures Valid() && size > 0 && used < size && (table == old(table) || fresh(table))
      ensures cells == old(cells) && used == old(used)
      ensures h == if Has(key) then -1 else Bucket(key)
    {
      hide Chain;
      hide KeysDistinct;
      hide And;
      var ok := ExpandIfNeeded();
      if !ok {
        return -1;
      }
      h := Bucket(key);
      ChainOf(h);
      InOwnBucket(key);
      var he;
      ghost var p;
      he, p := Search(table[h], key, chains[h]);
      if he != null {
        return -1;
      }
    }

    /** dictAdd: fails exactly when the key is there. */
    method Add(key: Key, val: Value, ghost m: map<Key, Value>) returns (ok: bool)
      requires Valid() && Represents(m)
      modifies this, table, cells
      ensures Valid() && (ok <==> key !in m) && Represents(if ok then m[key := val] else m)
      ensures (table == old(table) || fresh(table)) && (forall e :: e in cells ==> e in old(cells) || fresh(e))
    {
      hide Shape;
      hide TableSize;
      var index := KeyIndex(key);
      if index == -1 {
        return false;
      }
      Insert(key, val, m);
      return true;
    }

    /** The new cell is linked at the head of its bucket. */
    method Insert(key: Key, val: Value, ghost m: map<Key, Value>)
      requires Valid() && size > 0 && used < size && Represents(m) && !Has(key)
      modifies this, table
      ensures Valid() && Represents(m[key := val]) && table == old(table)
      ensures forall e :: e in cells ==> e in old(cells) || fresh(e)
    {
      hide Shape;
      hide TableSize;
      hide Show;
      hide Has;
      NewKey(key, m);
      var entry := new Entry(key, val, null);
      ghost var before := cells;
      Link(entry);
      used := used + 1;
      Extended(before, entry, m);
      assert Shape();
    }

    lemma HasKeyOf(e: Entry, m: map<Key, Value>)
      requires Represents(m) && e in cells
      ensures e.key in m
    {}

    lemma NewKey(key: Key, m: map<Key, Value>)
      requires Represents(m)
      ensures Has(key) <==> key in m
    {}

    /** Said of a set of cells: it represents the map. */
    ghost predicate Show(cs: set<Entry>, m: map<Key, Value>)
      reads cs`val
    {
      (forall e :: e in cs ==> e.key in m && m[e.key] == e.val) &&
      forall k :: k in m ==> exists e :: e in cs && e.key == k
    }

    lemma Extended(before: set<Entry>, entry: Entry, m: map<Key, Value>)
      requires cells == before + {entry} && entry !in before && entry.key !in m && Show(before, m)
      ensures Represents(m[entry.key := entry.val]) && |cells| == |before| + 1
    {
      var m' := m[entry.key := entry.val];
      forall k | k in m'
        ensures exists e :: e in cells && e.key == k
      {
        if k == entry.key {
          assert entry in cells;
        } else {
          var e :| e in before && e.key == k;
          assert e in cells;
        }
      }
    }

    /** dictReplace: 1 when the key is new, 0 when its value has been overwritten. */
    method Replace(key: Key, val: Value, ghost m: map<Key, Value>) returns (r: nat)
      requires Valid() && Represents(m)
      modifies this, table, cells
      ensures Valid() && r == (if key in m then 0 else 1) && Represents(m[key := val])
      ensures (table == old(table) || fresh(table)) && (forall e :: e in cells ==> e in old(cells) || fresh(e))
    {
      hide Shape;
      hide TableSize;
      var ok := Add(key, val, m);
      if ok {
        return 1;
      }
      var entry := Find(key);
      SetValue(entry, val, m);
      return 0;
    }

    /** dictSetHashVal on a cell of the table. */
    method SetValue(entry: Entry, val: Value, ghost m: map<Key, Value>)
      requires Valid() && Represents(m) && entry in cells
      modifies entry`val
      ensures Valid() && Represents(m[entry.key := val])
    {
      hide TableSize;
      hide Shape;
      ShapeKeysUnique();
      entry.val := val;
      assert Shape();
    }

    /** The search of dictDelete, which also remembers the cell before. */
    method SearchWithPrev(head: Entry?, key: Key, ghost c: seq<Entry>) returns (de: Entry?, prevde: Entry?, ghost p: nat)
      requires Chain(head, c) && head == First(c)
      ensures de == null ==> forall e :: e in c ==> e.key != key
      ensures de != null ==> p < |c| && de == c[p] && de.key == key && prevde == (if p == 0 then null else c[p - 1])
    {
      de, prevde := head, null;
      p := 0;
      while de != null
        invariant p <= |c| && de == (if p < |c| then c[p] else null)
        invariant prevde == (if p == 0 then null else c[p - 1])
        invariant forall a :: 0 <= a < p ==> c[a].key != key
        decreases |c| - p
      {
        if key == de.key {
          return;
        }
        prevde := de;
        de := de.next;
        p := p + 1;
      }
    }

    /** Takes the cell at place `p` out of the chain of bucket `h`. */
    method UnlinkCell(h: nat, prevde: Entry?, de: Entry, ghost cs: seq<seq<Entry>>, ghost p: nat)
      requires h < table.Length == |cs| && p < |cs[h]| && de == cs[h][p] && KeysDistinct(cs[h])
      requires prevde == (if p == 0 then null else cs[h][p - 1])
      requires forall i :: 0 <= i < |cs| ==> Chain(table[i], cs[i])
      requires forall i :: 0 <= i < |cs| && i != h ==> Members(cs[i]) !! Members(cs[h])
      modifies table, Members(cs[h])`next
      ensures Chain(table[h], cs[h][..p] + cs[h][p + 1..])
      ensures forall i :: 0 <= i < |cs| && i != h ==> Chain(table[i], cs[i])
    {
      ghost var c := cs[h];
      CellsApart(c);
      if prevde != null {
        prevde.next := de.next;
      } else {
        table[h] := de.next;
      }
      Unlinked(table[h], c, p);
      forall i | 0 <= i < |cs| && i != h
        ensures Chain(table[i], cs[i])
      {
        assert old(Chain(table[i], cs[i]));
      }
    }

    lemma ChainsApart(h: nat)
      requires Shape() && h < size
      ensures forall i :: 0 <= i < size && i != h ==> Members(chains[i]) !! Members(chains[h])
    {
      hide And;
      hide Chain;
      hide KeysDistinct;
      forall i | 0 <= i < size && i != h
        ensures Members(chains[i]) !! Members(chains[h])
      {
        forall e | e in chains[i]
          ensures e !in chains[h]
        {
          assert Bucket(e.key) == i;
        }
      }
    }

    /** Takes the cell at place `p` of bucket `h` out of the table. */
    method Unlink(h: nat, prevde: Entry?, de: Entry, ghost p: nat)
      requires Shape() && h < size && p < |chains[h]| && de == chains[h][p]
      requires prevde == (if p == 0 then null else chains[h][p - 1])
      modifies `chains, `cells, table, cells`next
      ensures Shape() && cells == old(cells) - {de} && chains == old(chains)[h := Without(old(chains)[h], de)]
    {
      hide Shape;
      hide Placed;
      hide Chain;
      ShapePlaced();
      ghost var cs, all := chains, cells;
      ghost var c := cs[h];
      ChainsApart(h);
      ChainOf(h);
      WithoutAt(c, p);
      UnlinkCell(h, prevde, de, cs, p);
      chains := cs[h := Without(c, de)];
      cells := cells - {de};
      Reshaped(cs, all, h, p);
    }

    /** Everything about the shape that is not a link. */
    ghost predicate Placed(cs: seq<seq<Entry>>, all: set<Entry>)
      reads `size, `sizemask
    {
      size == |cs| && sizemask == (if size == 0 then 0 else size - 1) &&
      (forall i :: 0 <= i < size ==> forall e :: e in cs[i] ==> e in all) &&
      (forall i, a :: 0 <= i < size && 0 <= a < |cs[i]| ==> Bucket(cs[i][a].key) == i) &&
      (forall i :: 0 <= i < size ==> KeysDistinct(cs[i])) &&
      (size == 0 ==> all == {}) &&
      forall e :: e in all ==> e in cs[Bucket(e.key)]
    }

    lemma ShapePlaced()
      requires Shape()
      ensures Placed(chains, cells) && table.Length == size == |chains|
      ensures forall i :: 0 <= i < size ==> Chain(table[i], chains[i])
    {
      hide And;
      hide Chain;
      hide KeysDistinct;
    }

    lemma Reshaped(cs: seq<seq<Entry>>, all: set<Entry>, h: nat, p: nat)
      requires Placed(cs, all) && h < size && p < |cs[h]|
      requires table.Length == size && chains == cs[h := cs[h][..p] + cs[h][p + 1..]] && cells == all - {cs[h][p]}
      requires Chain(table[h], cs[h][..p] + cs[h][p + 1..])
      requires forall i :: 0 <= i < size && i != h ==> Chain(table[i], cs[i])
      ensures Shape()
    {
      hide And;
      hide Chain;
      hide KeysDistinct;
      var c, d := cs[h], chains[h];
      WithoutKeepsOthers(c, p);
      forall a | 0 <= a < |d|
        ensures Bucket(d[a].key) == h
      {
        assert d[a] in c;
      }
      forall i, e | 0 <= i < size && e in chains[i]
        ensures e in cells
      {
        if i != h {
          assert Bucket(c[p].key) == h && Bucket(e.key) == i;
        }
      }
      forall e | e in cells
        ensures e in chains[Bucket(e.key)]
      {
        assert e in cs[Bucket(e.key)];
      }
    }

    lemma CellsApart(c: seq<Entry>)
      requires KeysDistinct(c)
      ensures forall a, b :: 0 <= a < b < |c| ==> c[a] != c[b]
    {}

    lemma Unlinked(head: Entry?, c: seq<Entry>, p: nat)
      requires p < |c| && (forall a :: 0 <= a < |c| - 1 && a != p - 1 ==> c[a].next == c[a + 1])
      requires if p == 0 then head == First(c[1..]) else head == c[0] && c[p - 1].next == First(c[p + 1..])
      requires p < |c| - 1 ==> c[|c| - 1].next == null
      ensures Chain(head, c[..p] + c[p + 1..])
    {
      var d := c[..p] + c[p + 1..];
      assert forall a :: 0 <= a < p ==> d[a] == c[a];
      assert forall a :: p <= a < |d| ==> d[a] == c[a + 1];
    }

    /** dictDelete: fails exactly when the key is not there; otherwise its cell, and no other, is taken out. */
    method Delete(key: Key, ghost m: map<Key, Value>) returns (ok: bool, ghost gone: Entry?)
      requires Valid() && Represents(m)
      modifies this, table, cells`next
      ensures Valid() && (ok <==> key in m) && Represents(if ok then m - {key} else m)
      ensures table == old(table) && size == old(size)
      ensures !ok ==> chains == old(chains) && cells == old(cells)
      ensures ok ==> gone != null && gone in old(cells) && gone.key == key && cells == old(cells) - {gone}
      ensures ok ==> var h := old(Bucket(key)); h < size && chains == old(chains)[h := Without(old(chains)[h], gone)]
    {
      hide Chain;
      hide KeysDistinct;
      hide And;
      hide TableSize;
      hide Show;
      NewKey(key, m);
      if size == 0 {
        return false, null;
      }
      var h := Bucket(key);
      ChainOf(h);
      InOwnBucket(key);
      var de, prevde;
      ghost var p;
      de, prevde, p := SearchWithPrev(table[h], key, chains[h]);
      if de == null {
        return false, null;
      }
      TakeOut(h, prevde, de, p, m);
      return true, de;
    }

    method TakeOut(h: nat, prevde: Entry?, de: Entry, ghost p: nat, ghost m: map<Key, Value>)
      requires Valid() && Represents(m) && h < size && p < |chains[h]| && de == chains[h][p]
      requires prevde == (if p == 0 then null else chains[h][p - 1])
      modifies `chains, `cells, `used, table, cells`next
      ensures Valid() && Represents(m - {de.key})
      ensures cells == old(cells) - {de} && chains == old(chains)[h := Without(old(chains)[h], de)]
    {
      hide Shape;
      hide TableSize;
      ghost var before := cells;
      ChainOf(h);
      ShapeKeysUnique();
      Unlink(h, prevde, de, p);
      Reduced(before, de, m);
      used := used - 1;
      assert Shape();
    }

    lemma Reduced(before: set<Entry>, de: Entry, m: map<Key, Value>)
      requires Show(before, m) && KeysUnique(before) && de in before && cells == before - {de}
      ensures Represents(m - {de.key}) && |cells| == |before| - 1
    {
      forall k | k in m - {de.key}
        ensures exists e :: e in cells && e.key == k
      {
        var e :| e in before && e.key == k;
        assert e in cells;
      }
    }
  }

  /** The chain without one of its cells. */
  function Without(c: seq<Entry>, e: Entry): seq<Entry> {
    if c == [] then [] else if c[0] == e then c[1..] else [c[0]] + Without(c[1..], e)
  }

  lemma WithoutKeepsOthers(c: seq<Entry>, p: nat)
    requires KeysDistinct(c) && p < |c|
    ensures KeysDistinct(c[..p] + c[p + 1..])
    ensures forall e :: e in c[..p] + c[p + 1..] <==> e in c && e != c[p]
  {
    var d := c[..p] + c[p + 1..];
    forall a | 0 <= a < |d|
      ensures d[a] == c[if a < p then a else a + 1]
    {
    }
    forall e | e in c && e != c[p]
      ensures e in d
    {
      var a :| 0 <= a < |c| && c[a] == e;
      assert d[if a < p then a else a - 1] == e;
    }
  }

  lemma {:induction false} WithoutAt(c: seq<Entry>, p: nat)
    requires KeysDistinct(c) && p < |c|
    ensures Without(c, c[p]) == c[..p] + c[p + 1..]
  {
    if p > 0 {
      DistinctRest(c, 1);
      WithoutAt(c[1..], p - 1);
      assert c[0].key != c[p].key;
      assert c[..p] + c[p + 1..] == [c[0]] + (c[1..][..p - 1] + c[1..][p..]);
    }
  }

  // ------------------------------------------------------------ iteration

  /** The cells in the order of the buckets. */
  function Flatten(cs: seq<seq<Entry>>): seq<Entry> {
    if cs == [] then [] else cs[0] + Flatten(cs[1..])
  }

  lemma FlattenStep(cs: seq<seq<Entry>>, i: nat)
    requires i < |cs|
    ensures Flatten(cs[i..]) == cs[i] + Flatten(cs[i + 1..])
  {
    assert cs[i..][1..] == cs[i + 1..];
  }

  predicate SuffixOf(rest: seq<Entry>, c: seq<Entry>) {
    |rest| <= |c| && c[|c| - |rest|..] == rest
  }

  lemma WholeIsSuffix(c: seq<Entry>)
    ensures SuffixOf(c, c)
  {
    assert c[|c| - |c|..] == c;
  }

  /** Taking the first cell of a suffix leaves a suffix, in which it does not come again. */
  lemma SuffixTaken(b: seq<Entry>, c: seq<Entry>, e: Entry)
    requires KeysDistinct(b) && SuffixOf(c, b) && c != [] && Chain(e, c)
    ensures e == c[0] && e in b && e !in c[1..] && SuffixOf(c[1..], b) && Members(c[1..]) <= Members(b)
    ensures Chain(e.next, c[1..]) && e.next == First(c[1..])
  {
    var k := |b| - |c|;
    assert b[k..][1..] == b[k + 1..];
    forall i | 0 <= i < |c|
      ensures c[i] == b[k + i]
    {
    }
    forall i | 0 < i < |c|
      ensures c[i] != c[0]
    {
      assert b[k].key != b[k + i].key;
    }
  }

  class Iterator {
    const ht: Dict
    var index: int
    var entry: Entry?
    var nextEntry: Entry?
    ghost var rest: seq<Entry>   // what follows `entry` in its bucket

    /** The cells of the later buckets. */
    ghost function Later(): seq<Entry>
      reads `index, ht`chains
    {
      Flatten(if 0 <= index + 1 <= |ht.chains| then ht.chains[index + 1..] else [])
    }

    /** The cells still to come: the rest of the current bucket and all later buckets. */
    ghost function Todo(): seq<Entry>
      reads this, ht`chains
    {
      (if entry == null then [] else rest) + Later()
    }

    ghost predicate Valid()
      reads this, ht, ht.table, ht.cells`next
    {
      ht.Shape() && -1 <= index &&
      (entry != null ==>
        0 <= index < |ht.chains| && SuffixOf(rest, ht.chains[index]) && Members(rest) <= ht.cells &&
        Chain(nextEntry, rest) && nextEntry == First(rest))
    }

    /** dictGetIterator. */
    constructor (ht: Dict)
      requires ht.Shape()
      ensures Valid() && this.ht == ht && Todo() == Flatten(ht.chains)
    {
      hide Dict.Shape;
      this.ht := ht;
      index, entry, nextEntry, rest := -1, null, null, [];
      new;
      assert ht.chains[0..] == ht.chains;
    }

    /** The next bucket becomes the current one; nothing has been taken from it. */
    method Advance() returns (more: bool)
      requires Valid() && entry == null
      modifies this`index
      ensures Valid() && index == old(index) + 1 && (more <==> index < |ht.chains|)
      ensures old(Todo()) == if more then ht.chains[index] + Todo() else []
      ensures !more ==> Todo() == []
      ensures ht.size == |ht.chains| == ht.table.Length
    {
      hide Dict.Shape;
      hide Dict.Placed;
      hide Chain;
      hide Members;
      ht.ShapePlaced();
      index := index + 1;
      if index >= ht.size {
        return false;
      }
      FlattenStep(ht.chains, index);
      return true;
    }

    /** The next cell is the first of the cells `c` at the end of the current bucket, if there are any. */
    method Take(head: Entry?, ghost c: seq<Entry>)
      requires ht.Shape() && 0 <= index < |ht.chains| && SuffixOf(c, ht.chains[index]) && Chain(head, c) && head == First(c)
      modifies `entry, `nextEntry, `rest
      ensures Valid() && entry == head && (entry != null <==> c != [])
      ensures entry != null ==> entry == c[0] && rest == c[1..] && JustTaken(entry)
    {
      hide Dict.Shape;
      hide Chain;
      hide SuffixOf;
      hide Members;
      hide KeysDistinct;
      entry := head;
      if entry != null {
        ht.InBucket(index);
        SuffixTaken(ht.chains[index], c, entry);
        nextEntry := entry.next;
        rest := c[1..];
      }
    }

    /** `e` is a cell of the current bucket and does not come again. */
    ghost predicate JustTaken(e: Entry)
      reads this, ht
    {
      0 <= index < |ht.chains| && e in ht.chains[index] && e !in rest && ht.Bucket(e.key) == index && e in ht.cells
    }

    /** dictNext: hands out the first of the cells still to come, NULL when there are none. */
    method Next() returns (e: Entry?)
      requires Valid()
      modifies this
      ensures Valid() && e == entry
      ensures old(Todo()) == [] ==> e == null && Todo() == []
      ensures old(Todo()) != [] ==> e == old(Todo())[0] && Todo() == old(Todo())[1..] && JustTaken(e)
    {
      hide Dict.Shape;
      hide Chain;
      hide Members;
      hide Flatten;
      hide And;
      hide JustTaken;
      hide SuffixOf;
      hide Later;
      ghost var todo := Todo();
      while true
        invariant Valid() && Todo() == todo
        decreases |ht.chains| - index, entry != null
      {
        var head := nextEntry;
        ghost var c := rest;
        if entry == null {
          var more := Advance();
          if !more {
            return null;
          }
          ht.ChainOf(index);
          head, c := ht.table[index], ht.chains[index];
          WholeIsSuffix(c);
        }
        Take(head, c);
        if entry != null {
          return entry;
        }
      }
    }
  }

  lemma SuffixChain(head: Entry?, c: seq<Entry>, rest: seq<Entry>)
    requires Chain(head, c) && SuffixOf(rest, c)
    ensures Chain(First(rest), rest)
  {
    if rest != [] {
      var k := |c| - |rest|;
      assert forall i :: 0 <= i < |rest| ==> rest[i] == c[k + i];
    }
  }

  lemma {:induction false} SuffixSurvives(c: seq<Entry>, rest: seq<Entry>, e: Entry)
    requires SuffixOf(rest, c) && e in c && e !in rest
    ensures SuffixOf(rest, Without(c, e))
  {
    hide KeysDistinct;
    var k := |c| - |rest|;
    assert k > 0 by {
      assert c[0..] == c;
    }
    assert c[1..][k - 1..] == c[k..];
    if c[0] != e {
      SuffixSurvives(c[1..], rest, e);
      var w := Without(c[1..], e);
      assert ([c[0]] + w)[|w| + 1 - |rest|..] == w[|w| - |rest|..];
    }
  }

  /** Every cell of the table comes exactly once in the iteration order. */
  lemma {:induction false} FlattenMembers(cs: seq<seq<Entry>>, e: Entry)
    ensures e in Flatten(cs) <==> exists i :: 0 <= i < |cs| && e in cs[i]
  {
    if cs != [] {
      FlattenMembers(cs[1..], e);
      if e in Flatten(cs[1..]) {
        var i :| 0 <= i < |cs[1..]| && e in cs[1..][i];
        assert e in cs[i + 1];
      }
      if i :| 0 <= i < |cs| && e in cs[i] {
        if i > 0 {
          assert e in cs[1..][i - 1];
        }
      }
    }
  }

  lemma {:induction false} FlattenDistinct(d: Dict, i: nat)
    requires d.Shape() && i <= |d.chains|
    ensures KeysDistinct(Flatten(d.chains[i..]))
    decreases |d.chains| - i
  {
    hide And;
    hide Chain;
    if i < |d.chains| {
      FlattenStep(d.chains, i);
      FlattenDistinct(d, i + 1);
      var a, b := d.chains[i], Flatten(d.chains[i + 1..]);
      forall x, y | 0 <= x < |a| && 0 <= y < |b|
        ensures a[x].key != b[y].key
      {
        FlattenMembers(d.chains[i + 1..], b[y]);
        var j :| 0 <= j < |d.chains[i + 1..]| && b[y] in d.chains[i + 1..][j];
        assert b[y] in d.chains[i + 1 + j];
        assert d.Bucket(b[y].key) == i + 1 + j && d.Bucket(a[x].key) == i;
      }
    }
  }

  /** Iterating hands out every cell of the table, and none twice. */
  lemma IterationCovers(d: Dict)
    requires d.Shape()
    ensures Members(Flatten(d.chains)) == d.cells && KeysDistinct(Flatten(d.chains))
  {
    hide And;
    hide Chain;
    assert d.chains[0..] == d.chains;
    FlattenDistinct(d, 0);
    forall e | e in d.cells
      ensures e in Flatten(d.chains)
    {
      FlattenMembers(d.chains, e);
    }
    forall e | e in Flatten(d.chains)
      ensures e in d.cells
    {
      FlattenMembers(d.chains, e);
    }
  }

  /** What follows a cell in its bucket survives its deletion. */
  lemma StillToCome(it: Iterator, cs: seq<seq<Entry>>, e: Entry)
    requires it.ht.Shape() && 0 <= it.index < |cs| && it.entry != null
    requires e in cs[it.index] && e !in it.rest && SuffixOf(it.rest, cs[it.index])
    requires it.ht.chains == cs[it.index := Without(cs[it.index], e)] && it.nextEntry == First(it.rest)
    requires Members(it.rest) <= it.ht.cells
    ensures it.Valid() && it.Todo() == it.rest + Flatten(cs[it.index + 1..])
  {
    hide And;
    hide KeysDistinct;
    hide Dict.Shape;
    hide Dict.Placed;
    hide Members;
    hide TableSize;
    var d := it.ht;
    SuffixSurvives(cs[it.index], it.rest, e);
    d.ShapePlaced();
    hide Without;
    SuffixChain(d.table[it.index], d.chains[it.index], it.rest);
    assert d.chains[it.index + 1..] == cs[it.index + 1..];
  }

  /** The cell just received is deleted; what is still to come does not change. */
  method Discard(it: Iterator, e: Entry, ghost m: map<Key, Value>)
    requires it.Valid() && it.entry == e && it.JustTaken(e) && it.ht.Valid() && it.ht.Represents(m)
    modifies it.ht, it.ht.table, it.ht.cells`next
    ensures it.Valid() && it.ht.Valid() && it.ht.Represents(m - {e.key}) && it.Todo() == old(it.Todo())
    ensures it.ht.table == old(it.ht.table) && it.ht.cells <= old(it.ht.cells)
  {
    hide Dict.Shape;
    hide TableSize;
    hide Chain;
    hide Members;
    hide SuffixOf;
    ghost var cs := it.ht.chains;
    it.ht.ShapeKeysUnique();
    it.ht.HasKeyOf(e, m);
    ghost var all := it.ht.cells;
    var ok;
    ghost var gone;
    ok, gone := it.ht.Delete(e.key, m);
    assert gone == e;
    OthersStay(it.rest, all, e);
    StillToCome(it, cs, e);
  }

  lemma OthersStay(rest: seq<Entry>, all: set<Entry>, e: Entry)
    requires Members(rest) <= all && e !in rest
    ensures Members(rest) <= all - {e}
  {}

  predicate Seen(got: seq<Entry>, k: Key) {
    exists i :: 0 <= i < |got| && got[i].key == k
  }

  lemma SeenStep(got: seq<Entry>, e: Entry, k: Key)
    ensures Seen(got + [e], k) <==> Seen(got, k) || k == e.key
  {
    assert (got + [e])[|got|] == e;
    if Seen(got, k) {
      var i :| 0 <= i < |got| && got[i].key == k;
      assert (got + [e])[i] == got[i];
    }
  }

  /** What the map holds when the unwanted ones of the cells received so far have been deleted. */
  function Kept(m: map<Key, Value>, unwanted: Key -> bool, got: seq<Entry>): map<Key, Value> {
    map k | k in m && !(unwanted(k) && Seen(got, k)) :: m[k]
  }

  lemma KeptStep(m: map<Key, Value>, unwanted: Key -> bool, got: seq<Entry>, e: Entry)
    ensures Kept(m, unwanted, got + [e]) ==
            if unwanted(e.key) then Kept(m, unwanted, got) - {e.key} else Kept(m, unwanted, got)
  {
    forall k | k in m
      ensures Seen(got + [e], k) <==> Seen(got, k) || k == e.key
    {
      SeenStep(got, e, k);
    }
  }

  ghost predicate KeysFrom(m: map<Key, Value>, all: set<Entry>) {
    forall k :: k in m ==> exists e :: e in all && e.key == k
  }

  lemma StartsSweep(d: Dict, m: map<Key, Value>, unwanted: Key -> bool)
    requires d.Represents(m)
    ensures KeysFrom(m, d.cells) && Kept(m, unwanted, []) == m
  {}

  lemma AllSeen(m: map<Key, Value>, unwanted: Key -> bool, got: seq<Entry>, all: set<Entry>)
    requires KeysFrom(m, all) && Members(got) == all
    ensures Kept(m, unwanted, got) == map k | k in m && !unwanted(k) :: m[k]
  {
    forall k | k in m
      ensures Seen(got, k)
    {
      var e :| e in all && e.key == k;
      assert e in Members(got);
    }
  }

  /** One turn of the sweep. */
  method SweepOne(it: Iterator, unwanted: Key -> bool, ghost m: map<Key, Value>, ghost got: seq<Entry>) returns (e: Entry?)
    requires it.Valid() && it.ht.Valid() && it.ht.Represents(Kept(m, unwanted, got))
    modifies it, it.ht, it.ht.table, it.ht.cells`next
    ensures it.Valid() && it.ht.Valid() && it.ht.table == old(it.ht.table) && it.ht.cells <= old(it.ht.cells)
    ensures e == null <==> old(it.Todo()) == []
    ensures e == null ==> it.Todo() == [] && it.ht.Represents(Kept(m, unwanted, got))
    ensures e != null ==> old(it.Todo()) != [] && e == old(it.Todo())[0] && it.Todo() == old(it.Todo())[1..]
    ensures e != null ==> it.ht.Represents(Kept(m, unwanted, got + old(it.Todo())[..1]))
  {
    hide Dict.Shape;
    hide Iterator.Valid;
    hide Iterator.Todo;
    hide Kept;
    hide Dict.Show;
    hide TableSize;
    ghost var todo := it.Todo();
    e := it.Next();
    if e != null {
      assert todo[..1] == [e];
      KeptStep(m, unwanted, got, e);
      if unwanted(e.key) {
        Discard(it, e, Kept(m, unwanted, got));
      }
    }
  }

  /**
   An iteration without insertions, in which the caller deletes whichever cells it likes right
   after receiving them: every cell that was there at the start is handed out exactly once.
   */
  method Sweep(d: Dict, unwanted: Key -> bool, ghost m: map<Key, Value>) returns (got: seq<Entry>)
    requires d.Valid() && d.Represents(m)
    modifies d, d.table, d.cells`next
    ensures d.Valid() && got == Flatten(old(d.chains))
    ensures Members(got) == old(d.cells) && KeysDistinct(got)
    ensures d.Represents(map k | k in m && !unwanted(k) :: m[k])
  {
    hide Dict.Shape;
    hide Iterator.Valid;
    hide Iterator.Todo;
    hide Kept;
    hide Dict.Show;
    hide TableSize;
    hide KeysDistinct;
    hide KeysFrom;
    hide Members;
    IterationCovers(d);
    StartsSweep(d, m, unwanted);
    ghost var all, order := d.cells, Flatten(d.chains);
    var it := new Iterator(d);
    got := [];
    var e: Entry? := null;
    var more := true;
    while more
      invariant it.Valid() && it.ht == d && d.Valid() && fresh(it) && d.Represents(Kept(m, unwanted, got))
      invariant d.table == old(d.table) && d.cells <= all
      invariant got + it.Todo() == order && (!more ==> it.Todo() == [])
      decreases |it.Todo()|, more
    {
      ghost var todo := it.Todo();
      e := SweepOne(it, unwanted, m, got);
      if e == null {
        more := false;
      } else {
        assert todo[..1] == [e] && [e] + todo[1..] == todo;
        got := got + [e];
      }
    }
    assert got == order;
    AllSeen(m, unwanted, got, all);
  }

  // ------------------------------------------------------------ any sequence of operations

  datatype Operation = DoAdd(key: Key, val: Value) | DoReplace(key: Key, val: Value) | DoDelete(key: Key) | DoFind(key: Key)

  /** What an operation hands back: whether it has done something, or the value found. */
  datatype Outcome = Done(ok: bool) | Found(val: Value) | Missing

  /** The operation on a finite map. */
  function OnMap(m: map<Key, Value>, op: Operation): (map<Key, Value>, Outcome) {
    match op
    case DoAdd(key, val) => if key in m then (m, Done(false)) else (m[key := val], Done(true))
    case DoReplace(key, val) => (m[key := val], Done(key !in m))
    case DoDelete(key) => (m - {key}, Done(key in m))
    case DoFind(key) => (m, if key in m then Found(m[key]) else Missing)
  }

  function AllOnMap(m: map<Key, Value>, ops: seq<Operation>): (map<Key, Value>, seq<Outcome>) {
    if ops == [] then (m, [])
    else
      var (n, outs) := AllOnMap(m, ops[..|ops| - 1]);
      var (n', out) := OnMap(n, ops[|ops| - 1]);
      (n', outs + [out])
  }

  lemma OneMoreOperation(m: map<Key, Value>, ops: seq<Operation>, i: nat)
    requires i < |ops|
    ensures var (n, outs) := AllOnMap(m, ops[..i]);
            var (n', out) := OnMap(n, ops[i]);
            AllOnMap(m, ops[..i + 1]) == (n', outs + [out])
  {
    assert ops[..i + 1][..i] == ops[..i];
  }

  lemma ValueOf(d: Dict, e: Entry, m: map<Key, Value>)
    requires d.Represents(m) && e in d.cells
    ensures e.key in m && m[e.key] == e.val
  {}

  method Operate(d: Dict, op: Operation, ghost m: map<Key, Value>) returns (out: Outcome)
    requires d.Valid() && d.Represents(m)
    modifies d, d.table, d.cells
    ensures d.Valid() && d.Represents(OnMap(m, op).0) && out == OnMap(m, op).1
    ensures (d.table == old(d.table) || fresh(d.table)) && (forall e :: e in d.cells ==> e in old(d.cells) || fresh(e))
  {
    hide Dict.Shape;
    hide Dict.Show;
    hide Dict.Has;
    hide TableSize;
    match op
    case DoAdd(key, val) =>
      var ok := d.Add(key, val, m);
      out := Done(ok);
    case DoReplace(key, val) =>
      var r := d.Replace(key, val, m);
      out := Done(r == 1);
    case DoDelete(key) =>
      var ok;
      ghost var gone;
      ok, gone := d.Delete(key, m);
      assert key !in m ==> m - {key} == m;
      out := Done(ok);
    case DoFind(key) =>
      d.NewKey(key, m);
      var he := d.Find(key);
      if he == null {
        out := Missing;
      } else {
        ValueOf(d, he, m);
        out := Found(he.val);
      }
  }

  /**
   Any sequence of operations on a new table, with any hash function and through all its
   expansions, does and hands back what it does on a finite map.
   */
  method RunOperations(hash: Key -> nat, ops: seq<Operation>) returns (d: Dict, outs: seq<Outcome>)
    ensures d.Valid() && d.Represents(AllOnMap(map[], ops).0) && outs == AllOnMap(map[], ops).1
  {
    hide Dict.Shape;
    hide Dict.Show;
    hide TableSize;
    hide AllOnMap;
    hide OnMap;
    d := new Dict(hash);
    outs := [];
    NoOperations(map[]);
    assert ops[..0] == [];
    var i := 0;
    while i < |ops|
      invariant 0 <= i <= |ops| && fresh(d) && fresh(d.table) && (forall e :: e in d.cells ==> fresh(e))
      invariant d.Valid() && d.Represents(AllOnMap(map[], ops[..i]).0) && outs == AllOnMap(map[], ops[..i]).1
    {
      OneMoreOperation(map[], ops, i);
      var out := Operate(d, ops[i], AllOnMap(map[], ops[..i]).0);
      outs := outs + [out];
      i := i + 1;
    }
    assert ops[..i] == ops;
  }

  lemma NoOperations(m: map<Key, Value>)
    ensures AllOnMap(m, []) == (m, [])
  {}
}
