/** kvs_rdb_save and kvs_rdb_load on a file cursor and on the three stores in memory. */
module RdbFile {
  import opened Text
  import opened Assoc
  import opened Framing
  import opened HashTable
  import opened Wrappers
  import opened KvsArray
  import opened RdbFormat
  import RedBlackTree

  // ----- a file and its cursor

  class File {
    var bytes: seq<Byte>
    var pos: nat

    ghost predicate Valid()
      reads this
    {
      pos <= |bytes|
    }

    constructor (content: seq<Byte>)
      ensures Valid() && bytes == content && pos == 0
    {
      bytes, pos := content, 0;
    }

    /** fwrite */
    method Write(s: seq<Byte>)
      requires Valid()
      modifies this
      ensures Valid() && pos == old(pos) + |s|
      ensures bytes == old(bytes)[..old(pos)] + s + if pos < old(|bytes|) then old(bytes)[pos..] else []
    {
      var rest := if pos + |s| < |bytes| then bytes[pos + |s|..] else [];
      bytes := bytes[..pos] + s + rest;
      pos := pos + |s|;
    }

    /** fread of n bytes: short at the end of the file. */
    method Read(n: nat) returns (s: seq<Byte>)
      requires Valid()
      modifies this`pos
      ensures Valid() && pos == old(pos) + |s|
      ensures old(pos) + n <= |bytes| ==> s == bytes[old(pos)..old(pos) + n]
      ensures |s| == n <==> old(pos) + n <= |bytes|
    {
      var end := if pos + n <= |bytes| then pos + n else |bytes|;
      s := bytes[pos..end];
      pos := end;
    }
  }

  // ----- saving

  function Out(kind: Byte, ps: seq<Pair>): seq<Byte>
  {
    EncodeAll(Recs(kind, ps))
  }

  lemma OutNone(kind: Byte)
    ensures Out(kind, []) == []
  {
  }

  lemma {:induction false} RecsConcat(kind: Byte, a: seq<Pair>, b: seq<Pair>)
    ensures Recs(kind, a + b) == Recs(kind, a) + Recs(kind, b)
  {
  }

  lemma OutAppend(kind: Byte, ps: seq<Pair>, p: Pair)
    ensures Out(kind, ps + [p]) == Out(kind, ps) + Encode(Record(kind, p.0, p.1))
  {
    RecsConcat(kind, ps, [p]);
    EncodeConcat(Recs(kind, ps), Recs(kind, [p]));
    var last := Recs(kind, [p]);
    assert last == [Record(kind, p.0, p.1)] && last[1..] == [];
    assert EncodeAll(last) == Encode(last[0]) + [];
  }

  /** One record at the end of the file. */
  method WriteRecord(fp: File, kind: Byte, key: Text, value: Text)
    requires fp.Valid() && fp.pos == |fp.bytes|
    modifies fp
    ensures fp.Valid() && fp.pos == |fp.bytes|
    ensures fp.bytes == old(fp.bytes) + Encode(Record(kind, key, value))
  {
    fp.Write([kind]);
    fp.Write(Two(|key|));
    fp.Write(Bytes(Cut(key)));
    fp.Write(Two(|value|));
    fp.Write(Bytes(Cut(value)));
  }

  /** The loop over the slots. */
  method SaveArray(arr: SlotArray, fp: File) returns (count: nat)
    requires arr.Valid() && fp.Valid() && fp.pos == |fp.bytes|
    modifies fp
    ensures fp.Valid() && fp.pos == |fp.bytes|
    ensures fp.bytes == old(fp.bytes) + Out(ARRAY, Pairs(arr.Used())) && count == |Pairs(arr.Used())|
  {
    hide Encode, EncodeAll, Pairs, Out;
    var i := 0;
    count := 0;
    ghost var s := arr.Used();
    SlotsNone();
    OutNone(ARRAY);
    while i < arr.total
      invariant 0 <= i <= arr.total && arr.Valid() && arr.Used() == s
      invariant fp.Valid() && fp.pos == |fp.bytes| && count == |Pairs(s[..i])|
      invariant fp.bytes == old(fp.bytes) + Out(ARRAY, Pairs(s[..i]))
    {
      SlotsStep(s, i);
      if arr.table[i].Some? {
        OutAppend(ARRAY, Pairs(s[..i]), s[i].value);
        WriteRecord(fp, ARRAY, arr.table[i].value.0, arr.table[i].value.1);
        count := count + 1;
      } else {
        assert Pairs(s[..i + 1]) == Pairs(s[..i]);
      }
      i := i + 1;
    }
    assert s[..i] == s;
  }

  lemma SlotsNone()
    ensures Pairs([]) == []
  {
  }

  lemma SlotsStep(s: seq<Slot>, i: nat)
    requires i < |s|
    ensures Pairs(s[..i + 1]) == Pairs(s[..i]) + if s[i].Some? then [s[i].value] else []
    ensures |Pairs(s[..0])| == 0
  {
    assert s[..i + 1][..i] == s[..i];
  }

  /** The walk along one chain. */
  method SaveChain(hash: Table, i: nat, fp: File)
    requires hash.Threaded() && i < MAX_TABLE_SIZE && fp.Valid() && fp.pos == |fp.bytes|
    modifies fp
    ensures fp.Valid() && fp.pos == |fp.bytes|
    ensures fp.bytes == old(fp.bytes) + Out(HASH, hash.Buckets()[i])
  {
    hide Encode, EncodeAll, Out, Items;
    ghost var l := hash.chains[i];
    ghost var ps := Items(l);
    var node, j := hash.nodes[i], 0;
    OutNone(HASH);
    while node != null
      invariant 0 <= j <= |l| && node == After(l, j - 1)
      invariant fp.Valid() && fp.pos == |fp.bytes| && hash.Threaded() && Items(l) == ps && hash.chains[i] == l
      invariant fp.bytes == old(fp.bytes) + Out(HASH, ps[..j])
      decreases |l| - j
    {
      assert Linked(l, j);
      assert ps[..j + 1] == ps[..j] + [ps[j]];
      OutAppend(HASH, ps[..j], ps[j]);
      WriteRecord(fp, HASH, node.key, node.value);
      node := node.next;
      j := j + 1;
    }
    assert ps[..j] == ps;
  }

  /** kvs_hash_traverse */
  method SaveHash(hash: Table, fp: File)
    requires hash.Threaded() && fp.Valid() && fp.pos == |fp.bytes|
    modifies fp
    ensures fp.Valid() && fp.pos == |fp.bytes|
    ensures fp.bytes == old(fp.bytes) + Out(HASH, Flatten(hash.Buckets()))
  {
    hide Encode, EncodeAll, Out, Items, Flatten;
    var i := 0;
    ghost var bs := hash.Buckets();
    BucketsNone(bs);
    OutNone(HASH);
    while i < hash.nodes.Length
      invariant 0 <= i <= hash.nodes.Length && hash.Threaded() && hash.Buckets() == bs
      invariant fp.Valid() && fp.pos == |fp.bytes|
      invariant fp.bytes == old(fp.bytes) + Out(HASH, Flatten(bs[..i]))
    {
      BucketsStep(bs, i);
      OutConcat(HASH, Flatten(bs[..i]), bs[i]);
      if hash.nodes[i] != null {
        SaveChain(hash, i, fp);
      } else {
        assert Threads(hash.nodes[i], hash.chains[i]);
        OutNone(HASH);
      }
      i := i + 1;
    }
    assert bs[..i] == bs;
  }

  lemma BucketsNone(bs: seq<seq<Pair>>)
    ensures Flatten(bs[..0]) == []
  {
  }

  lemma BucketsStep(bs: seq<seq<Pair>>, i: nat)
    requires i < |bs|
    ensures Flatten(bs[..i + 1]) == Flatten(bs[..i]) + bs[i]
  {
    assert bs[..i + 1][..i] == bs[..i];
  }

  lemma OutConcat(kind: Byte, a: seq<Pair>, b: seq<Pair>)
    ensures Out(kind, a + b) == Out(kind, a) + Out(kind, b)
  {
    RecsConcat(kind, a, b);
    EncodeConcat(Recs(kind, a), Recs(kind, b));
  }

  /** What the tree's root holds. */
  ghost function RootOf(tree: RedBlackTree.RbTree): seq<Pair>
    requires tree.Valid()
    reads tree, tree.nodes
  {
    tree.RootPair();
    if tree.root == tree.nil then [] else [(tree.root.key, tree.root.value)]
  }

  /** kvs_rbtree_traverse, which stops at the root. */
  method SaveTree(tree: RedBlackTree.RbTree, fp: File)
    requires tree.Valid() && fp.Valid() && fp.pos == |fp.bytes|
    modifies fp
    ensures fp.Valid() && fp.pos == |fp.bytes| && tree.Valid()
    ensures fp.bytes == old(fp.bytes) + Out(TREE, old(RootOf(tree))) && RootOf(tree) == old(RootOf(tree))
  {
    hide Encode, EncodeAll, Out;
    tree.RootPair();
    OutNone(TREE);
    if tree.root != tree.nil {
      OutAppend(TREE, [], (tree.root.key, tree.root.value));
      assert [] + RootOf(tree) == RootOf(tree);
      WriteRecord(fp, TREE, tree.root.key, tree.root.value);
    }
  }

  /** The three stores as they are printed. */
  ghost function AllPrinted(arr: SlotArray, tree: RedBlackTree.RbTree, hash: Table): seq<Record>
    requires arr.Valid() && tree.Valid() && hash.Valid()
    reads arr, arr.table, tree, tree.nodes, hash, hash.nodes, hash.repr
  {
    Printed(Pairs(arr.Used()), RootOf(tree), Flatten(hash.Buckets()))
  }

  ghost function Holding(arr: SlotArray, tree: RedBlackTree.RbTree, hash: Table): Stores
    requires arr.Valid() && tree.Valid() && hash.Valid()
    reads arr, arr.table, tree, tree.nodes, hash, hash.nodes, hash.repr
  {
    Stores(arr.Contents(), tree.Contents(), hash.Contents())
  }

  /** The records of all three stores, one store after the other. */
  method SaveRecords(arr: SlotArray, tree: RedBlackTree.RbTree, hash: Table, fp: File) returns (count: nat)
    requires arr.Valid() && tree.Valid() && hash.Valid() && fp.Valid() && fp.pos == |fp.bytes|
    modifies fp
    ensures fp.Valid() && fp.pos == |fp.bytes| && arr.Valid() && tree.Valid() && hash.Valid()
    ensures AllPrinted(arr, tree, hash) == old(AllPrinted(arr, tree, hash))
    ensures fp.bytes == old(fp.bytes) + EncodeAll(AllPrinted(arr, tree, hash)) && count == |Pairs(arr.Used())|
  {
    hide Encode, EncodeAll, Out, Pairs, Flatten, Printed, DistinctKeys, Recs, Table.Threaded, Placed, Items, RedBlackTree.RbTree.Valid;
    hash.Shape();
    PrintedBytes(Pairs(arr.Used()), RootOf(tree), Flatten(hash.Buckets()));
    count := SaveArray(arr, fp);
    SaveTree(tree, fp);
    SaveHash(hash, fp);
  }

  /** Back to the beginning of the file, where one header replaces another. */
  method Rewrite(fp: File, header: seq<Byte>, ghost was: seq<Byte>, ghost data: seq<Byte>)
    requires fp.Valid() && fp.bytes == was + data && |was| == |header|
    modifies fp
    ensures fp.bytes == header + data
  {
    fp.pos := 0;
    fp.Write(header);
  }

  /** kvs_rdb_save with the checksum off: the header goes out twice, the second time with the size
      and the number of array records. */
  method Save(enabled: bool, compression: bool, now: nat, arr: SlotArray, tree: RedBlackTree.RbTree, hash: Table)
    returns (code: int, file: Option<seq<Byte>>)
    requires arr.Valid() && tree.Valid() && hash.Valid()
    ensures code == 0 && (file.None? <==> !enabled)
    ensures enabled ==>
              file.value == FileOf(AllPrinted(arr, tree, hash), if compression then 1 else 0, |Pairs(arr.Used())|, now)
  {
    hide EncodeAll, FileHeader, Pairs, AllPrinted, SlotArray.Valid, Table.Valid, RedBlackTree.RbTree.Valid;
    if !enabled {
      return 0, None;
    }
    var flags := if compression then 1 else 0;
    var fp := new File([]);
    fp.Write(FileHeader(flags, 0, 0, now));
    var dataStart := fp.pos;
    var count := SaveRecords(arr, tree, hash, fp);
    var size := fp.pos - dataStart;
    Rewrite(fp, FileHeader(flags, size, count, now), FileHeader(flags, 0, 0, now), EncodeAll(AllPrinted(arr, tree, hash)));
    code, file := 0, Some(fp.bytes);
  }

  lemma PrintedBytes(arr: seq<Pair>, root: seq<Pair>, hash: seq<Pair>)
    ensures EncodeAll(Printed(arr, root, hash)) == Out(ARRAY, arr) + Out(TREE, root) + Out(HASH, hash)
  {
    EncodeConcat(Recs(ARRAY, arr) + Recs(TREE, root), Recs(HASH, hash));
    EncodeConcat(Recs(ARRAY, arr), Recs(TREE, root));
  }

  // ----- loading

  /** A length, which must lie between two bounds, and as many bytes. */
  method ReadSized(fp: File, least: nat, most: nat) returns (s: Option<seq<Byte>>)
    requires fp.Valid()
    modifies fp`pos
    ensures fp.Valid()
    ensures var r := Sized(fp.bytes, old(fp.pos), least, most);
            (s.Some? <==> r.Some?) && (r.Some? ==> s.value == r.value.0 && fp.pos == r.value.1)
  {
    ghost var at := fp.pos;
    var b := fp.Read(2);
    if |b| != 2 {
      return None;
    }
    var n := Get16(b, 0);
    assert n == Get16(fp.bytes, at);
    if n < least || n > most {
      return None;
    }
    var t := fp.Read(n);
    s := if |t| == n then Some(t) else None;
  }

  /** One turn of the load loop, fread by fread. */
  method ReadOne(fp: File) returns (r: Option<Record>)
    requires fp.Valid()
    modifies fp`pos
    ensures fp.Valid()
    ensures var o := ReadRecord(fp.bytes, old(fp.pos));
            (r.Some? <==> o.Some?) && (o.Some? ==> r.value == o.value.0 && fp.pos == o.value.1)
  {
    hide Str, Sized;
    var kind := fp.Read(1);
    if |kind| != 1 {
      return None;
    }
    var key := ReadSized(fp, 1, MAX_KEY);
    if key.None? {
      return None;
    }
    var value := ReadSized(fp, 0, 65535);
    if value.None? {
      return None;
    }
    r := Some(Record(kind[0], Str(key.value), Str(value.value)));
  }

  /** The stores share no memory. */
  ghost predicate Apart(arr: SlotArray, tree: RedBlackTree.RbTree, hash: Table)
    reads arr, tree, hash
  {
    var a: set<object> := {arr, arr.table};
    var t: set<object> := {tree} + tree.nodes;
    var h: set<object> := {hash, hash.nodes} + hash.repr;
    a !! t && a !! h && t !! h
  }

  ghost predicate Ready(arr: SlotArray, tree: RedBlackTree.RbTree, hash: Table)
    reads arr, arr.table, tree, tree.nodes, hash, hash.nodes, hash.repr
  {
    arr.Valid() && tree.Valid() && hash.Valid() && Apart(arr, tree, hash)
  }

  /** The switch at the end of a turn: a record goes to its store. */
  method PutRecord(r: Record, arr: SlotArray, tree: RedBlackTree.RbTree, hash: Table) returns (ok: bool)
    requires Ready(arr, tree, hash)
    modifies arr, arr.table, tree, tree.nodes, hash, hash.nodes
    ensures Ready(arr, tree, hash) && fresh(tree.nodes - old(tree.nodes)) && fresh(hash.repr - old(hash.repr))
    ensures arr.Wasted() == old(arr.Wasted())
    ensures Put(old(Holding(arr, tree, hash)), r, old(arr.Wasted()))
         == if ok then Done(Holding(arr, tree, hash)) else LoadResult.Fault
  {
    hide SlotArray.Valid, Table.Valid, RedBlackTree.RbTree.Valid, Hashable, SlotArray.Contents, Table.Contents, RedBlackTree.RbTree.Contents;
    ok := true;
    if r.kind == ARRAY {
      var code := arr.Set(r.key, r.value);
      assert tree.Valid() && hash.Valid();
    } else if r.kind == TREE {
      var code := tree.Set(r.key, r.value);
    } else if r.kind == HASH {
      var answer := hash.Set(r.key, r.value);
      ok := answer != OutsideArray;
    }
  }

  /** kvs_rdb_load with the checksum off, from the content of the file; snapshots may be switched off. */
  method LoadFile(enabled: bool, content: seq<Byte>, arr: SlotArray, tree: RedBlackTree.RbTree, hash: Table)
    returns (code: int, fault: bool)
    requires Ready(arr, tree, hash)
    modifies arr, arr.table, tree, tree.nodes, hash, hash.nodes
    ensures Ready(arr, tree, hash)
    ensures !enabled ==> code == 0 && !fault && Holding(arr, tree, hash) == old(Holding(arr, tree, hash))
    ensures enabled ==>
              Load(content, old(Holding(arr, tree, hash)), old(arr.Wasted()))
              == if fault then LoadResult.Fault else if code == 0 then Done(Holding(arr, tree, hash)) else Rejected
    ensures code == -1 ==> Holding(arr, tree, hash) == old(Holding(arr, tree, hash))
    ensures code == 0 || code == -1
  {
    hide Apart, SlotArray.Valid, Table.Valid, RedBlackTree.RbTree.Valid, ReadRecord, Put, PutAll, Records, Get32, Holding, SlotArray.Wasted;
    if !enabled {
      return 0, false;
    }
    if !Verified(content) {
      return -1, false;
    }
    var fp := new File(content);
    var header := fp.Read(HEADER_BYTES);
    var dataEnd := fp.pos + Get32(content, 12);
    ghost var s, w := Holding(arr, tree, hash), arr.Wasted();
    while fp.pos < dataEnd
      invariant fp.Valid() && fp.bytes == content && fresh(fp)
      invariant Ready(arr, tree, hash) && arr.Wasted() == w
      invariant fresh(tree.nodes - old(tree.nodes)) && fresh(hash.repr - old(hash.repr))
      invariant PutAll(s, Records(content, HEADER_BYTES, dataEnd), w)
             == PutAll(Holding(arr, tree, hash), Records(content, fp.pos, dataEnd), w)
      decreases |content| - fp.pos
    {
      ghost var pos, now := fp.pos, Holding(arr, tree, hash);
      var rec := ReadOne(fp);
      if rec.None? {
        RecordsEnd(content, pos, dataEnd, now, w);
        return 0, false;
      }
      RecordsStep(content, pos, dataEnd, now, w);
      var ok := PutRecord(rec.value, arr, tree, hash);
      if !ok {
        return 0, true;
      }
    }
    RecordsEnd(content, fp.pos, dataEnd, Holding(arr, tree, hash), w);
    code, fault := 0, false;
  }

  lemma RecordsEnd(f: seq<Byte>, pos: nat, end: nat, s: Stores, w: int)
    requires pos <= |f| && (pos < end ==> ReadRecord(f, pos).None?)
    ensures PutAll(s, Records(f, pos, end), w) == Done(s)
  {
  }

  lemma RecordsStep(f: seq<Byte>, pos: nat, end: nat, s: Stores, w: int)
    requires pos <= |f| && pos < end && ReadRecord(f, pos).Some?
    ensures var (r, p) := ReadRecord(f, pos).value;
            var o := Put(s, r, w);
            PutAll(s, Records(f, pos, end), w) == if o.Done? then PutAll(o.stores, Records(f, p, end), w) else o
  {
    var (r, p) := ReadRecord(f, pos).value;
    assert Records(f, pos, end)[1..] == Records(f, p, end);
  }

  // ----- the round trip of the stores in memory

  lemma StoresSavable(arr: SlotArray, tree: RedBlackTree.RbTree, hash: Table)
    requires arr.Valid() && tree.Valid() && hash.Valid()
    ensures Savable(Pairs(arr.Used()), tree.Contents(), RootOf(tree), Flatten(hash.Buckets()))
  {
    hide RedBlackTree.RbTree.Valid, Pairs, Flatten, RedBlackTree.RbTree.Contents, ToMap, Hash;
    HolesCounted(arr.Used());
    tree.RootPair();
    var bs := hash.Buckets();
    FlattenDistinct(bs);
    var ps := Flatten(bs);
    forall i | 0 <= i < |ps| ensures Hashable(ps[i].0) {
      HasAt(ps, i);
      FlattenHas(bs, ps[i].0);
    }
  }

  /** A file that Save writes gives LoadFile, on empty stores, exactly what the three stores held when
      and only when every key and value fits the format, the tree holds at most one pair, and the
      records stay below four gigabytes. */
  lemma SnapshotIff(arr: SlotArray, tree: RedBlackTree.RbTree, hash: Table, flags: nat, count: nat, time: nat)
    requires arr.Valid() && tree.Valid() && hash.Valid()
    ensures Load(FileOf(AllPrinted(arr, tree, hash), flags, count, time), NO_PAIRS, 0) == Done(Holding(arr, tree, hash))
            <==> AllStorable(arr.Contents()) && AllStorable(tree.Contents()) && AllStorable(hash.Contents())
                 && |tree.Contents()| <= 1 && |EncodeAll(AllPrinted(arr, tree, hash))| < TWO32
  {
    hide RedBlackTree.RbTree.Valid, SlotArray.Valid, Load, FileOf, EncodeAll, AllStorable, Printed;
    hash.Shape();
    StoresSavable(arr, tree, hash);
    RestoreIff(Pairs(arr.Used()), tree.Contents(), RootOf(tree), Flatten(hash.Buckets()), flags, count, time);
  }
}
