/** The chained hash table: bucket heads, links and values change in place, and the table is the
    map of its pairs. */
module HashTable {
  import opened Text
  import opened Assoc
  import opened Wrappers

  const MAX_TABLE_SIZE := 1024

  // ----- the hash of a key

  /** char is signed: a byte from 128 up counts as negative. */
  function Signed(c: Ch): int
  {
    if c < 128 then c else c - 256
  }

  function Sum(key: Text): int
  {
    if key == [] then 0 else Sum(key[..|key| - 1]) + Signed(key[|key| - 1])
  }

  /** C's remainder takes the sign of the dividend. */
  function Remainder(a: int, b: nat): int
    requires b > 0
  {
    if a >= 0 then a % b else -((-a) % b)
  }

  /** The bytes as numbers from 0 to 255, added up. */
  function ByteSum(key: Text): nat
  {
    if key == [] then 0 else key[0] + ByteSum(key[1..])
  }

  function HighBytes(key: Text): nat
  {
    if key == [] then 0 else (if key[0] >= 128 then 1 else 0) + HighBytes(key[1..])
  }

  /** Every byte from 128 up counts for 256 less. */
  lemma {:induction false} SumMeans(key: Text)
    ensures Sum(key) == ByteSum(key) - 256 * HighBytes(key)
  {
    if key != [] {
      SumFront(key);
      SumMeans(key[1..]);
    }
  }

  lemma {:induction false} SumFront(key: Text)
    requires key != []
    ensures Sum(key) == (if key[0] < 128 then key[0] as int else key[0] as int - 256) + Sum(key[1..])
  {
    if |key| == 1 {
      assert key[..0] == [];
    } else {
      var t := key[..|key| - 1];
      SumFront(t);
      assert t[1..] == key[1..][..|key| - 2];
    }
  }

  /** The remainder that C's division leaves: it is smaller than the divisor, and not of the other sign. */
  lemma RemainderMeans(a: int, b: nat)
    requires b > 0
    ensures var r := Remainder(a, b);
            0 - b < r < b && (a >= 0 ==> r >= 0) && (a <= 0 ==> r <= 0) && exists q: int :: a == q * b + r
  {
    if a >= 0 {
      assert a == a / b * b + Remainder(a, b);
    } else {
      var q := -((-a) / b);
      assert -a == (-a) / b * b + (-a) % b;
      assert q * b == -((-a) / b * b);
      assert a == q * b + Remainder(a, b);
    }
  }

  function Hash(key: Text): int
  {
    Remainder(Sum(key), MAX_TABLE_SIZE)
  }

  predicate Hashable(key: Text)
  {
    0 <= Hash(key) < MAX_TABLE_SIZE
  }

  /** The bucket index is one of the table's exactly when the bytes add up to no negative number, or
      to a multiple of the table size. */
  lemma HashableIff(key: Text)
    ensures Hashable(key) <==> Sum(key) >= 0 || (-Sum(key)) % 1024 == 0
  {
  }

  /** Text in bytes below 128 always has a bucket. */
  lemma {:induction false} AsciiHashable(key: Text)
    requires forall i :: 0 <= i < |key| ==> key[i] < 128
    ensures Sum(key) >= 0 && Hashable(key)
  {
    if key != [] {
      AsciiHashable(key[..|key| - 1]);
    }
  }

  /** A letter beyond ASCII, here the two bytes of an e with acute accent, indexes before the table. */
  lemma AccentNotHashable()
    ensures var key: Text := [0xC3, 0xA9]; Hash(key) == -148 && !Hashable(key)
  {
    var key: Text := [0xC3, 0xA9];
    assert key[..1] == [0xC3] && key[..1][..0] == [];
    assert Sum(key[..1]) == -61;
  }

  /** _hash: the loop over the bytes. */
  method ComputeHash(key: Text, size: nat) returns (idx: int)
    requires size > 0
    ensures idx == Remainder(Sum(key), size) && 0 - size < idx < size
  {
    var sum, i := 0, 0;
    while i < |key|
      invariant 0 <= i <= |key| && sum == Sum(key[..i])
    {
      assert key[..i + 1][..i] == key[..i];
      sum := sum + Signed(key[i]);
      i := i + 1;
    }
    assert key[..i] == key;
    idx := Remainder(sum, size);
  }

  // ----- buckets as values

  ghost function Flatten(bs: seq<seq<Pair>>): seq<Pair>
  {
    if bs == [] then [] else Flatten(bs[..|bs| - 1]) + bs[|bs| - 1]
  }

  /** Every key is in its own bucket, once. */
  ghost predicate Placed(bs: seq<seq<Pair>>)
  {
    && (forall i, k :: 0 <= i < |bs| && HasKey(bs[i], k) ==> Hash(k) == i)
    && forall i :: 0 <= i < |bs| ==> DistinctKeys(bs[i])
  }

  lemma {:induction false} FlattenSplit(bs: seq<seq<Pair>>, i: nat)
    requires i < |bs|
    ensures Flatten(bs) == Flatten(bs[..i]) + bs[i] + Flatten(bs[i + 1..])
  {
    var n := |bs| - 1;
    if i < n {
      FlattenSplit(bs[..n], i);
      assert bs[..n][..i] == bs[..i] && bs[..n][i + 1..] == bs[i + 1..][..n - i - 1];
      assert bs[i + 1..][n - i - 1] == bs[n];
    } else {
      assert bs[i + 1..] == [];
    }
  }

  lemma {:induction false} FlattenHas(bs: seq<seq<Pair>>, k: Text)
    ensures HasKey(Flatten(bs), k) <==> exists i :: 0 <= i < |bs| && HasKey(bs[i], k)
  {
    if bs != [] {
      var n := |bs| - 1;
      var t := bs[..n];
      FlattenHas(t, k);
      ConcatHas(Flatten(t), bs[n], k);
      if HasKey(Flatten(t), k) {
        var i :| 0 <= i < |t| && HasKey(t[i], k);
        assert HasKey(bs[i], k);
      }
      if exists i :: 0 <= i < |bs| && HasKey(bs[i], k) {
        var i :| 0 <= i < |bs| && HasKey(bs[i], k);
        assert i < n ==> HasKey(t[i], k);
      }
    }
  }

  lemma ConcatHas(a: seq<Pair>, b: seq<Pair>, k: Text)
    ensures HasKey(a + b, k) <==> HasKey(a, k) || HasKey(b, k)
  {
    if HasKey(a, k) {
      var i :| 0 <= i < |a| && a[i].0 == k;
      assert (a + b)[i].0 == k;
    }
    if HasKey(b, k) {
      var i :| 0 <= i < |b| && b[i].0 == k;
      assert (a + b)[|a| + i].0 == k;
    }
    if HasKey(a + b, k) {
      var i :| 0 <= i < |a + b| && (a + b)[i].0 == k;
      assert if i < |a| then a[i].0 == k else b[i - |a|].0 == k;
    }
  }

  /** A key is in the table exactly when it is in its own bucket. */
  lemma InOwnBucket(bs: seq<seq<Pair>>, k: Text)
    requires Placed(bs) && |bs| == MAX_TABLE_SIZE && Hashable(k)
    ensures k in ToMap(Flatten(bs)) <==> HasKey(bs[Hash(k)], k)
    ensures HasKey(Flatten(bs), k) <==> HasKey(bs[Hash(k)], k)
  {
    MapKeys(Flatten(bs), k);
    FlattenHas(bs, k);
  }

  lemma {:induction false} FlattenDistinct(bs: seq<seq<Pair>>)
    requires Placed(bs)
    ensures DistinctKeys(Flatten(bs))
  {
    if bs != [] {
      var n := |bs| - 1;
      var t := bs[..n];
      assert forall i :: 0 <= i < n ==> t[i] == bs[i];
      FlattenDistinct(t);
      var f: seq<Pair>, b: seq<Pair> := Flatten(t), bs[n];
      forall i: nat, j: nat | i < j < |f + b| ensures (f + b)[i].0 != (f + b)[j].0 {
        if j < |f| {
          assert (f + b)[i] == f[i] && (f + b)[j] == f[j] && f[i].0 != f[j].0;
        } else if |f| <= i {
          assert DistinctKeys(bs[n]) && (f + b)[i] == b[i - |f|] && (f + b)[j] == b[j - |f|];
          assert b[i - |f|].0 != b[j - |f|].0;
        } else {
          FlattenHas(t, f[i].0);
          assert HasKey(f, f[i].0);
          var m :| 0 <= m < |t| && HasKey(t[m], f[i].0);
          assert HasKey(bs[n], b[j - |f|].0) && HasKey(bs[m], f[i].0);
          assert Hash(f[i].0) == m < n == Hash(b[j - |f|].0);
          assert (f + b)[i] == f[i] && (f + b)[j] == b[j - |f|];
        }
      }
    }
  }

  /** A pair put at the front of its bucket, under a new key. */
  lemma PutFront(bs: seq<seq<Pair>>, k: Text, v: Text)
    requires Placed(bs) && |bs| == MAX_TABLE_SIZE && Hashable(k) && !HasKey(bs[Hash(k)], k)
    ensures var bs' := bs[Hash(k) := [(k, v)] + bs[Hash(k)]];
            && Placed(bs') && |Flatten(bs')| == |Flatten(bs)| + 1
            && k !in ToMap(Flatten(bs)) && ToMap(Flatten(bs')) == ToMap(Flatten(bs))[k := v]
  {
    var h := Hash(k);
    var b := [(k, v)] + bs[h];
    var bs' := bs[h := b];
    BucketWith(bs[h], k, v);
    PlacedStill(bs, h, b);
    InOwnBucket(bs, k);
    FlattenSplit(bs, h);
    FlattenSplit(bs', h);
    assert bs'[..h] == bs[..h] && bs'[h + 1..] == bs[h + 1..];
    IntoMiddle(Flatten(bs[..h]), bs[h], Flatten(bs[h + 1..]), k, v);
  }

  lemma BucketWith(b: seq<Pair>, k: Text, v: Text)
    requires DistinctKeys(b) && !HasKey(b, k)
    ensures var c := [(k, v)] + b; DistinctKeys(c) && forall q :: HasKey(c, q) ==> q == k || HasKey(b, q)
  {
    var c := [(k, v)] + b;
    forall i, j | 0 <= i < j < |c| ensures c[i].0 != c[j].0 {
      assert c[j] == b[j - 1];
    }
    forall q | HasKey(c, q) ensures q == k || HasKey(b, q) {
      var i :| 0 <= i < |c| && c[i].0 == q;
      assert i > 0 ==> b[i - 1].0 == q;
    }
  }

  lemma IntoMiddle(f: seq<Pair>, b: seq<Pair>, g: seq<Pair>, k: Text, v: Text)
    requires !HasKey(f + b + g, k)
    ensures ToMap(f + ([(k, v)] + b) + g) == ToMap(f + b + g)[k := v]
  {
    assert f + b + g == f + (b + g) && f + ([(k, v)] + b) + g == f + [(k, v)] + (b + g);
    InsertAt(f, k, v, b + g);
  }

  /** One bucket is replaced by another one with its keys or fewer. */
  lemma PlacedStill(bs: seq<seq<Pair>>, h: nat, c: seq<Pair>)
    requires Placed(bs) && h < |bs| && DistinctKeys(c) && forall q :: HasKey(c, q) ==> Hash(q) == h
    ensures Placed(bs[h := c])
  {
  }

  lemma BucketWithout(b: seq<Pair>, j: nat)
    requires DistinctKeys(b) && j < |b|
    ensures var c := b[..j] + b[j + 1..];
            DistinctKeys(c) && forall q :: HasKey(c, q) ==> HasKey(b, q)
  {
    var c := b[..j] + b[j + 1..];
    forall i | 0 <= i < |c| ensures c[i] == b[if i < j then i else i + 1] && HasKey(b, c[i].0) {
      assert b[if i < j then i else i + 1].0 == c[i].0;
    }
  }

  /** Taking the j-th pair out of its bucket. */
  lemma TakeOut(bs: seq<seq<Pair>>, k: Text, j: nat)
    requires Placed(bs) && |bs| == MAX_TABLE_SIZE && Hashable(k) && j < |bs[Hash(k)]| && bs[Hash(k)][j].0 == k
    ensures var b := bs[Hash(k)];
            var bs' := bs[Hash(k) := b[..j] + b[j + 1..]];
            && Placed(bs') && |Flatten(bs')| == |Flatten(bs)| - 1
            && k in ToMap(Flatten(bs)) && ToMap(Flatten(bs')) == ToMap(Flatten(bs)) - {k}
  {
    var h := Hash(k);
    var b, v := bs[h], bs[h][j].1;
    var c := b[..j] + b[j + 1..];
    var bs' := bs[h := c];
    BucketWithout(b, j);
    PlacedStill(bs, h, c);
    InOwnBucket(bs, k);
    FlattenDistinct(bs);
    FlattenSplit(bs, h);
    FlattenSplit(bs', h);
    assert bs'[..h] == bs[..h] && bs'[h + 1..] == bs[h + 1..];
    OutOfMiddle(Flatten(bs[..h]), b, Flatten(bs[h + 1..]), j);
    assert HasKey(b, k) by {
      HasAt(b, j);
    }
  }

  lemma HasAt(b: seq<Pair>, j: nat)
    requires j < |b|
    ensures HasKey(b, b[j].0)
  {
  }

  lemma OutOfMiddle(f: seq<Pair>, b: seq<Pair>, g: seq<Pair>, j: nat)
    requires j < |b| && DistinctKeys(f + b + g)
    ensures ToMap(f + (b[..j] + b[j + 1..]) + g) == ToMap(f + b + g) - {b[j].0}
  {
    var pre, post := f + b[..j], b[j + 1..] + g;
    assert f + b + g == pre + [(b[j].0, b[j].1)] + post;
    assert f + (b[..j] + b[j + 1..]) + g == pre + post;
    RemoveAt(pre, b[j].0, b[j].1, post);
  }

  /** Overwriting the value of the j-th pair of a bucket. */
  lemma Overwrite(bs: seq<seq<Pair>>, k: Text, j: nat, v: Text)
    requires Placed(bs) && |bs| == MAX_TABLE_SIZE && Hashable(k) && j < |bs[Hash(k)]| && bs[Hash(k)][j].0 == k
    ensures var bs' := bs[Hash(k) := bs[Hash(k)][j := (k, v)]];
            && Placed(bs') && |Flatten(bs')| == |Flatten(bs)|
            && k in ToMap(Flatten(bs)) && ToMap(Flatten(bs')) == ToMap(Flatten(bs))[k := v]
  {
    var h := Hash(k);
    var b := bs[h];
    var c := b[j := (k, v)];
    var bs' := bs[h := c];
    forall q | HasKey(c, q) ensures HasKey(b, q) {
      var i :| 0 <= i < |c| && c[i].0 == q;
      assert b[i].0 == q;
    }
    PlacedStill(bs, h, c);
    HasAt(b, j);
    InOwnBucket(bs, k);
    FlattenDistinct(bs);
    FlattenSplit(bs, h);
    FlattenSplit(bs', h);
    assert bs'[..h] == bs[..h] && bs'[h + 1..] == bs[h + 1..];
    SetInMiddle(Flatten(bs[..h]), b, Flatten(bs[h + 1..]), j, v);
  }

  lemma SetInMiddle(f: seq<Pair>, b: seq<Pair>, g: seq<Pair>, j: nat, v: Text)
    requires j < |b| && DistinctKeys(f + b + g)
    ensures ToMap(f + b[j := (b[j].0, v)] + g) == ToMap(f + b + g)[b[j].0 := v]
  {
    assert (f + b + g)[|f| + j] == b[j];
    assert (f + b + g)[|f| + j := (b[j].0, v)] == f + b[j := (b[j].0, v)] + g;
    ReplaceAt(f + b + g, |f| + j, v);
  }

  /** A lookup in the key's own bucket is a lookup in the table. */
  lemma LookupAt(bs: seq<seq<Pair>>, k: Text, j: nat)
    requires Placed(bs) && |bs| == MAX_TABLE_SIZE && Hashable(k) && j < |bs[Hash(k)]| && bs[Hash(k)][j].0 == k
    ensures k in ToMap(Flatten(bs)) && ToMap(Flatten(bs))[k] == bs[Hash(k)][j].1
  {
    var h := Hash(k);
    FlattenSplit(bs, h);
    FlattenDistinct(bs);
    MapAt(Flatten(bs), |Flatten(bs[..h])| + j);
  }

  lemma {:induction false} SizeOfMap(s: seq<Pair>)
    requires DistinctKeys(s)
    ensures |ToMap(s)| == |s|
  {
    if s != [] {
      var t, k := s[..|s| - 1], s[|s| - 1].0;
      SizeOfMap(t);
      MapKeys(t, k);
      assert ToMap(s).Keys == ToMap(t).Keys + {k};
    }
  }

  // ----- the table in memory

  class HashNode {
    const key: Text
    var value: Text
    var next: HashNode?

    constructor (key: Text, value: Text)
      ensures this.key == key && this.value == value && next == null
    {
      this.key, this.value, next := key, value, null;
    }
  }

  ghost function After(l: seq<HashNode>, i: int): HashNode?
    requires -1 <= i < |l|
  {
    if i + 1 < |l| then l[i + 1] else null
  }

  ghost predicate Linked(l: seq<HashNode>, i: nat)
    requires i < |l|
    reads l`next
  {
    l[i].next == After(l, i)
  }

  /** From head the links run through l and end. */
  ghost predicate Threads(head: HashNode?, l: seq<HashNode>)
    reads l`next
  {
    head == After(l, -1) && forall i :: 0 <= i < |l| ==> Linked(l, i)
  }

  ghost function Items(l: seq<HashNode>): (r: seq<Pair>)
    reads l`value
    ensures |r| == |l| && forall i :: 0 <= i < |l| ==> r[i] == (l[i].key, l[i].value)
  {
    if l == [] then [] else Items(l[..|l| - 1]) + [(l[|l| - 1].key, l[|l| - 1].value)]
  }

  /** The C code has no answer for a key whose bucket index is negative: it reads in front of the array,
      and what follows from that is not modelled. */
  datatype Answer<T> = Answer(value: T) | OutsideArray

  class Table {
    const nodes: array<HashNode?>
    var count: int
    ghost var chains: seq<seq<HashNode>>
    ghost var repr: set<HashNode>

    ghost predicate Threaded()
      reads this`chains, this`repr, nodes, repr`next
    {
      && nodes.Length == |chains| == MAX_TABLE_SIZE
      && forall i :: 0 <= i < |chains| ==> (forall x :: x in chains[i] ==> x in repr) && Threads(nodes[i], chains[i])
    }

    ghost function Buckets(): (bs: seq<seq<Pair>>)
      requires forall i, x :: 0 <= i < |chains| && x in chains[i] ==> x in repr
      reads this`chains, this`repr, repr`value
      ensures |bs| == |chains| && forall i :: 0 <= i < |bs| ==> bs[i] == Items(chains[i])
    {
      BucketsOf(chains)
    }

    ghost function BucketsOf(cs: seq<seq<HashNode>>): (bs: seq<seq<Pair>>)
      requires forall i, x :: 0 <= i < |cs| && x in cs[i] ==> x in repr
      reads this`repr, repr`value
      ensures |bs| == |cs| && forall i :: 0 <= i < |bs| ==> bs[i] == Items(cs[i])
    {
      if cs == [] then [] else BucketsOf(cs[..|cs| - 1]) + [Items(cs[|cs| - 1])]
    }

    ghost predicate Valid()
      reads this, nodes, repr
    {
      Threaded() && Placed(Buckets()) && count == |Flatten(Buckets())|
    }

    /** The table as a map. */
    ghost function Contents(): map<Text, Text>
      requires Threaded()
      reads this`chains, this`repr, nodes, repr
    {
      ToMap(Flatten(Buckets()))
    }

    lemma Shape()
      requires Threaded()
      ensures nodes.Length == |chains| == MAX_TABLE_SIZE
      ensures forall i, x :: 0 <= i < |chains| && x in chains[i] ==> x in repr
    {
    }

    /** kvs_hash_create, on a bucket array of nulls. */
    constructor ()
      ensures Valid() && fresh(nodes) && Contents() == map[] && repr == {} && count == 0
    {
      hide Flatten, Placed, HasKey, DistinctKeys;
      nodes := new HashNode?[MAX_TABLE_SIZE](_ => null);
      count := 0;
      chains := seq(MAX_TABLE_SIZE, _ => []);
      repr := {};
      new;
      FlattenEmpty(Buckets());
    }

    static lemma {:induction false} FlattenEmpty(bs: seq<seq<Pair>>)
      requires forall i :: 0 <= i < |bs| ==> bs[i] == []
      ensures Flatten(bs) == [] && Placed(bs)
    {
      if bs != [] {
        FlattenEmpty(bs[..|bs| - 1]);
      }
    }

    /** The walk along a chain that set, get and mod begin with. */
    method Find(idx: nat, key: Text) returns (node: HashNode?, ghost j: nat)
      requires Threaded() && idx < MAX_TABLE_SIZE
      ensures node == null ==> !HasKey(Buckets()[idx], key)
      ensures node != null ==> j < |chains[idx]| && node == chains[idx][j] && node.key == key
    {
      ghost var l := chains[idx];
      node, j := nodes[idx], 0;
      while node != null
        invariant 0 <= j <= |l| && node == After(l, j - 1)
        invariant forall i :: 0 <= i < j ==> l[i].key != key
        decreases |l| - j
      {
        assert Linked(l, j);
        if node.key == key {
          return;
        }
        node := node.next;
        j := j + 1;
      }
    }

    /** A new node goes to the front of chain idx. */
    method PutNode(idx: nat, key: Text, value: Text)
      requires Threaded() && idx < MAX_TABLE_SIZE
      modifies this`chains, this`repr, nodes
      ensures Threaded() && fresh(repr - old(repr))
      ensures Buckets() == old(Buckets())[idx := [(key, value)] + old(Buckets())[idx]]
    {
      hide Threads, Items;
      var newNode := new HashNode(key, value);
      newNode.next := nodes[idx];
      ghost var l := chains[idx];
      ThreadsCons(newNode, l);
      assert Threads(newNode, [newNode] + l);
      nodes[idx] := newNode;
      chains, repr := chains[idx := [newNode] + l], repr + {newNode};
      ItemsCons(newNode, l);
    }

    static lemma ThreadsCons(x: HashNode, l: seq<HashNode>)
      requires Threads(x.next, l)
      ensures Threads(x, [x] + l)
    {
      forall i | 0 <= i < |[x] + l| ensures Linked([x] + l, i) {
        if i > 0 {
          assert Linked(l, i - 1);
        }
      }
    }

    static lemma ItemsCons(x: HashNode, l: seq<HashNode>)
      ensures Items([x] + l) == [(x.key, x.value)] + Items(l)
    {
    }

    /** kvs_hash_set: a key that is present keeps its value. */
    method Set(key: Text, value: Text) returns (r: Answer<int>)
      requires Valid()
      modifies this, nodes
      ensures Valid() && fresh(repr - old(repr))
      ensures r == if !Hashable(key) then OutsideArray else Answer(if key in old(Contents()) then 1 else 0)
      ensures Contents() == if r == Answer(0) then old(Contents())[key := value] else old(Contents())
      ensures count == if r == Answer(0) then old(count) + 1 else old(count)
    {
      hide Threaded, Placed, Flatten, HasKey;
      Shape();
      var idx := ComputeHash(key, MAX_TABLE_SIZE);
      if idx < 0 {
        return OutsideArray;
      }
      InOwnBucket(Buckets(), key);
      var node;
      ghost var j;
      node, j := Find(idx, key);
      if node != null {
        LookupAt(Buckets(), key, j);
        return Answer(1);
      }
      PutFront(Buckets(), key, value);
      PutNode(idx, key, value);
      Shape();
      count := count + 1;
      r := Answer(0);
    }

    /** kvs_hash_get */
    method Get(key: Text) returns (r: Answer<Option<Text>>)
      requires Valid()
      ensures r == if !Hashable(key) then OutsideArray
                   else Answer(if key in Contents() then Some(Contents()[key]) else None)
    {
      hide Threaded, Placed, Flatten, HasKey;
      Shape();
      var idx := ComputeHash(key, MAX_TABLE_SIZE);
      if idx < 0 {
        return OutsideArray;
      }
      InOwnBucket(Buckets(), key);
      var node;
      ghost var j;
      node, j := Find(idx, key);
      if node == null {
        return Answer(None);
      }
      LookupAt(Buckets(), key, j);
      r := Answer(Some(node.value));
    }

    /** kvs_hash_exist: 0 for a key in the table. */
    method Exist(key: Text) returns (r: Answer<int>)
      requires Valid()
      ensures r == if !Hashable(key) then OutsideArray else Answer(if key in Contents() then 0 else 1)
    {
      hide Threaded, Placed, Flatten, Hashable;
      var found := Get(key);
      match found
      case OutsideArray => r := OutsideArray;
      case Answer(value) => r := Answer(if value == None then 1 else 0);
    }

    /** kvs_hash_count: the number of keys. */
    method Count() returns (n: int)
      requires Valid()
      ensures n == |Contents()|
    {
      FlattenDistinct(Buckets());
      SizeOfMap(Flatten(Buckets()));
      n := count;
    }

    /** The j-th node of chain h takes a new value. */
    method SetValue(node: HashNode, value: Text, ghost h: nat, ghost j: nat)
      requires Threaded() && h < MAX_TABLE_SIZE && j < |chains[h]| && node == chains[h][j]
      requires Placed(Buckets())
      modifies node`value
      ensures Threaded()
      ensures Buckets() == old(Buckets())[h := old(Buckets())[h][j := (node.key, value)]]
    {
      ghost var bs := Buckets();
      Elsewhere(h, j);
      node.value := value;
      ghost var bs' := bs[h := bs[h][j := (node.key, value)]];
      forall i | 0 <= i < MAX_TABLE_SIZE ensures Items(chains[i]) == bs'[i] {
      }
    }

    /** A node is in one place of one chain. */
    lemma Elsewhere(h: nat, j: nat)
      requires Threaded() && Placed(Buckets()) && h < MAX_TABLE_SIZE && j < |chains[h]|
      ensures forall i, k :: 0 <= i < MAX_TABLE_SIZE && 0 <= k < |chains[i]| && (i != h || k != j) ==> chains[i][k] != chains[h][j]
    {
      var bs := Buckets();
      forall i, k | 0 <= i < MAX_TABLE_SIZE && 0 <= k < |chains[i]| && (i != h || k != j) ensures chains[i][k] != chains[h][j] {
        HasAt(bs[i], k);
        HasAt(bs[h], j);
        if i == h {
          assert DistinctKeys(bs[h]) && bs[h][j].0 != bs[h][k].0;
        } else {
          assert Hash(chains[i][k].key) == i && Hash(chains[h][j].key) == h;
        }
      }
    }

    /** kvs_hash_mod: 1 for a missing key. */
    method Mod(key: Text, value: Text) returns (r: Answer<int>)
      requires Valid()
      modifies repr`value
      ensures Valid()
      ensures r == if !Hashable(key) then OutsideArray else Answer(if key in old(Contents()) then 0 else 1)
      ensures Contents() == if r == Answer(0) then old(Contents())[key := value] else old(Contents())
    {
      hide Threaded, Placed, Flatten, HasKey;
      Shape();
      var idx := ComputeHash(key, MAX_TABLE_SIZE);
      if idx < 0 {
        return OutsideArray;
      }
      InOwnBucket(Buckets(), key);
      var node;
      ghost var j;
      node, j := Find(idx, key);
      if node == null {
        return Answer(1);
      }
      Overwrite(Buckets(), key, j, value);
      SetValue(node, value, idx, j);
      r := Answer(0);
    }

    /** Chain h loses its j-th node: behind the head it is bypassed, at the head the bucket moves on. */
    method Unlink(h: nat, prev: HashNode?, node: HashNode, ghost j: nat)
      requires Threaded() && h < MAX_TABLE_SIZE && j < |chains[h]| && node == chains[h][j]
      requires prev == if j == 0 then null else chains[h][j - 1]
      requires Placed(Buckets())
      modifies this`chains, nodes, repr`next
      ensures Threaded() && repr == old(repr)
      ensures Buckets() == old(Buckets())[h := old(Buckets())[h][..j] + old(Buckets())[h][j + 1..]]
    {
      hide Threads, Items, Placed, HasKey;
      ghost var l := chains[h];
      ghost var l' := l[..j] + l[j + 1..];
      assert Threads(nodes[h], l);
      if prev == null {
        ThreadsTail(nodes[h], l);
        assert l' == l[1..];
        nodes[h] := node.next;
      } else {
        Elsewhere(h, j - 1);
        Bypass(prev, node, nodes[h], l, j);
      }
      forall i | 0 <= i < MAX_TABLE_SIZE && i != h ensures Threads(nodes[i], chains[i]) {
        assert old(Threads(nodes[i], chains[i]));
      }
      chains := chains[h := l'];
      ItemsBut(l, j);
    }

    static lemma ThreadsTail(head: HashNode?, l: seq<HashNode>)
      requires Threads(head, l) && l != []
      ensures Threads(l[0].next, l[1..])
    {
      assert Linked(l, 0);
      forall i | 0 <= i < |l[1..]| ensures Linked(l[1..], i) {
        assert Linked(l, i + 1);
      }
    }

    static method Bypass(prev: HashNode, node: HashNode, ghost head: HashNode?, ghost l: seq<HashNode>, ghost j: nat)
      requires 0 < j < |l| && prev == l[j - 1] && node == l[j] && forall k :: 0 <= k < |l| && k != j - 1 ==> l[k] != prev
      requires Threads(head, l)
      modifies prev`next
      ensures Threads(head, l[..j] + l[j + 1..])
    {
      assert Linked(l, j);
      prev.next := node.next;
      ghost var l' := l[..j] + l[j + 1..];
      forall k | 0 <= k < |l'| ensures Linked(l', k) {
        ghost var i := if k < j then k else k + 1;
        assert old(Linked(l, i)) && l'[k] == l[i];
      }
    }

    static lemma ItemsBut(l: seq<HashNode>, j: nat)
      requires j < |l|
      ensures Items(l[..j] + l[j + 1..]) == Items(l)[..j] + Items(l)[j + 1..]
    {
      hide Items;
      var a, b := Items(l[..j] + l[j + 1..]), Items(l)[..j] + Items(l)[j + 1..];
      forall i | 0 <= i < |a| ensures a[i] == b[i] {
        assert (l[..j] + l[j + 1..])[i] == l[if i < j then i else i + 1];
      }
    }

    /** kvs_hash_del: the head of the chain is replaced, a later node is bypassed. */
    method Del(key: Text) returns (r: Answer<int>)
      requires Valid()
      modifies this, nodes, repr
      ensures Valid() && repr == old(repr)
      ensures r == if !Hashable(key) then OutsideArray else Answer(if key in old(Contents()) then 0 else -1)
      ensures Contents() == if r == OutsideArray then old(Contents()) else old(Contents()) - {key}
      ensures count == if r == Answer(0) then old(count) - 1 else old(count)
    {
      hide Threaded, Placed, Flatten, HasKey, ToMap, Items, Sum, Remainder, DistinctKeys;
      Shape();
      var idx := ComputeHash(key, MAX_TABLE_SIZE);
      if idx < 0 {
        return OutsideArray;
      }
      InOwnBucket(Buckets(), key);
      var prev, node;
      ghost var j;
      prev, node, j := FindBefore(idx, key);
      if node == null {
        assert Contents() - {key} == Contents();
        return Answer(-1);
      }
      TakeOut(Buckets(), key, j);
      Unlink(idx, prev, node, j);
      count := count - 1;
      r := Answer(0);
    }

    /** The walk of del, which stays one node behind. */
    method FindBefore(idx: nat, key: Text) returns (prev: HashNode?, node: HashNode?, ghost j: nat)
      requires Threaded() && idx < MAX_TABLE_SIZE
      ensures node == null ==> !HasKey(Buckets()[idx], key)
      ensures node != null ==> j < |chains[idx]| && node == chains[idx][j] && node.key == key
                               && prev == if j == 0 then null else chains[idx][j - 1]
    {
      ghost var l := chains[idx];
      prev, node, j := null, nodes[idx], 0;
      if node == null || node.key == key {
        return;
      }
      prev, node, j := node, node.next, 1;
      assert Linked(l, 0);
      while node != null
        invariant 1 <= j <= |l| && prev == l[j - 1] && node == prev.next == After(l, j - 1)
        invariant forall i :: 0 <= i < j ==> l[i].key != key
        decreases |l| - j
      {
        assert Linked(l, j);
        if node.key == key {
          return;
        }
        prev, node, j := node, node.next, j + 1;
      }
    }
  }
}