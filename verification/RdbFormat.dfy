/** The snapshot file of kv_RDB.c: how pairs are printed, how records are parsed, and exactly when a
    save followed by a load gives every store its pairs back. */
module RdbFormat {
  import opened Text
  import opened Assoc
  import opened Framing
  import opened ServerReader
  import opened HashTable
  import opened KvsArray
  import opened Wrappers

  const HEADER_BYTES := 32
  const RDB_MAGIC := 0x5244424B
  const RDB_VERSION := 1
  const MAX_KEY := 1024
  const TWO16 := 0x1_0000
  const TWO32 := 0x1_0000_0000

  const ARRAY: Byte := 0
  const TREE: Byte := 1
  const HASH: Byte := 2

  datatype Record = Record(kind: Byte, key: Text, value: Text)

  // ----- printing

  /** A uint16_t in memory order. */
  function Two(n: nat): (s: seq<Byte>)
    ensures |s| == 2
  {
    [n % 256, n / 256 % 256]
  }

  /** A uint32_t in memory order. */
  function Four(n: nat): (s: seq<Byte>)
    ensures |s| == 4
  {
    Two(n) + Two(n / TWO16)
  }

  /** The bytes that go out: strlen is kept in a uint16_t first. */
  function Cut(t: Text): (s: Text)
    ensures |s| == |t| % TWO16 && (|t| < TWO16 ==> s == t)
  {
    t[..|t| % TWO16]
  }

  function Bytes(t: Text): (s: seq<Byte>)
    ensures |s| == |t| && 0 !in s
  {
    t
  }

  function Encode(r: Record): (s: seq<Byte>)
    ensures |s| == 5 + |r.key| % TWO16 + |r.value| % TWO16
  {
    [r.kind] + Two(|r.key|) + Bytes(Cut(r.key)) + Two(|r.value|) + Bytes(Cut(r.value))
  }

  function EncodeAll(rs: seq<Record>): seq<Byte>
  {
    if rs == [] then [] else Encode(rs[0]) + EncodeAll(rs[1..])
  }

  function FileHeader(flags: nat, size: nat, count: nat, time: nat): (s: seq<Byte>)
    ensures |s| == HEADER_BYTES
  {
    Four(RDB_MAGIC) + Four(RDB_VERSION) + Four(flags) + Four(size) + Four(count)
    + Four(time) + Four(time / TWO32) + Four(0)
  }

  /** A record, byte by byte: its kind, and twice a length, low byte first, and as many bytes of text. */
  lemma RecordBytes(r: Record)
    ensures var e, k, v := Encode(r), |r.key| % 65536, |r.value| % 65536;
            && |e| == 5 + k + v && e[0] == r.kind
            && e[1] as int + 256 * e[2] as int == k && e[3..3 + k] == r.key[..k]
            && e[3 + k] as int + 256 * e[4 + k] as int == v && e[5 + k..] == r.value[..v]
  {
    hide Two;
    TwoMeans(|r.key|);
    TwoMeans(|r.value|);
    var k := |r.key| % TWO16;
    var a, b, c, d, e := [r.kind], Two(|r.key|), Bytes(Cut(r.key)), Two(|r.value|), Bytes(Cut(r.value));
    assert Encode(r) == a + b + c + d + e;
    assert Encode(r)[3..3 + k] == c && Encode(r)[5 + k..] == e;
  }

  lemma TwoMeans(n: nat)
    ensures Two(n)[0] as int + 256 * Two(n)[1] as int == n % 65536
  {
  }

  lemma FourMeans(n: nat)
    ensures var s := Four(n);
            s[0] as int + 256 * s[1] as int + 65536 * s[2] as int + 16777216 * s[3] as int == n % 0x1_0000_0000
  {
    hide Two;
    TwoMeans(n);
    TwoMeans(n / TWO16);
    Halves(n);
  }

  lemma Halves(n: nat)
    ensures n % TWO32 == n % TWO16 + TWO16 * (n / TWO16 % TWO16)
  {
  }

  /** The number in four bytes of a file, low byte first. */
  function Little(f: seq<Byte>, i: nat): nat
    requires i + 4 <= |f|
  {
    f[i] as nat + 256 * f[i + 1] as nat + 65536 * f[i + 2] as nat + 16777216 * f[i + 3] as nat
  }

  /** The 32 bytes in front of the records. */
  lemma HeaderLayout(flags: nat, size: nat, count: nat, time: nat)
    ensures var h := FileHeader(flags, size, count, time);
            && h[..8] == [0x4B, 0x42, 0x44, 0x52, 1, 0, 0, 0] && h[28..] == [0, 0, 0, 0]
            && Little(h, 8) == flags % 0x1_0000_0000 && Little(h, 12) == size % 0x1_0000_0000
            && Little(h, 16) == count % 0x1_0000_0000
            && Little(h, 20) == time % 0x1_0000_0000 && Little(h, 24) == time / 0x1_0000_0000 % 0x1_0000_0000
  {
    var h := FileHeader(flags, size, count, time);
    assert Four(RDB_MAGIC) == [0x4B, 0x42, 0x44, 0x52] && Four(RDB_VERSION) == [1, 0, 0, 0] && Four(0) == [0, 0, 0, 0];
    hide Four;
    FourMeans(flags);
    FourMeans(size);
    FourMeans(count);
    FourMeans(time);
    FourMeans(time / TWO32);
    assert h[..8] == Four(RDB_MAGIC) + Four(RDB_VERSION) && h[28..] == Four(0);
  }

  lemma {:induction false} EncodeConcat(a: seq<Record>, b: seq<Record>)
    ensures EncodeAll(a + b) == EncodeAll(a) + EncodeAll(b)
  {
    hide Encode;
    if a == [] {
      assert a + b == b;
    } else {
      EncodeConcat(a[1..], b);
      assert (a + b)[1..] == a[1..] + b;
    }
  }

  // ----- parsing

  function Get16(f: seq<Byte>, i: nat): nat
    requires i + 2 <= |f|
  {
    var lo: nat, hi: nat := f[i], f[i + 1];
    lo + 256 * hi
  }

  function Get32(f: seq<Byte>, i: nat): nat
    requires i + 4 <= |f|
  {
    Get16(f, i) + TWO16 * Get16(f, i + 2)
  }

  /** The C string in a buffer. */
  function Str(s: seq<Byte>): (t: Text)
    ensures |t| <= |s| && (0 !in s ==> t == s)
  {
    CStringWholeIf(s);
    var c := CString(s);
    assert forall i :: 0 <= i < |c| ==> c[i] in c;
    c
  }

  lemma CStringWholeIf(s: seq<Byte>)
    ensures 0 !in s ==> CString(s) == s
  {
    if 0 !in s {
      CStringWhole(s);
    }
  }

  /** A length between two bounds and as many bytes, with the place behind them. */
  function Sized(f: seq<Byte>, pos: nat, least: nat, most: nat): (r: Option<(seq<Byte>, nat)>)
    ensures r.Some? ==> pos < r.value.1 <= |f|
  {
    if pos + 2 > |f| then None
    else
      var n := Get16(f, pos);
      if n < least || n > most || pos + 2 + n > |f| then None else Some((f[pos + 2..pos + 2 + n], pos + 2 + n))
  }

  /** One turn of the load loop: a short read or an impossible key length ends it. */
  function ReadRecord(f: seq<Byte>, pos: nat): (r: Option<(Record, nat)>)
    ensures r.Some? ==> pos < r.value.1 <= |f|
  {
    if pos + 1 > |f| then None
    else match Sized(f, pos + 1, 1, MAX_KEY)
      case None => None
      case Some(key) =>
        match Sized(f, key.1, 0, TWO16 - 1)
        case None => None
        case Some(value) => Some((Record(f[pos], Str(key.0), Str(value.0)), value.1))
  }

  function Records(f: seq<Byte>, pos: nat, end: nat): seq<Record>
    requires pos <= |f|
    decreases |f| - pos
  {
    if pos >= end then []
    else match ReadRecord(f, pos)
      case None => []
      case Some(rp) => [rp.0] + Records(f, rp.1, end)
  }

  /** rdb_verify_file_integrity without the checksum. */
  predicate Verified(f: seq<Byte>)
  {
    |f| >= HEADER_BYTES && Get32(f, 0) == RDB_MAGIC && Get32(f, 4) == RDB_VERSION
  }

  // ----- the stores

  datatype Stores = Stores(arr: map<Text, Text>, tree: map<Text, Text>, hash: map<Text, Text>)
  {
    function Of(kind: Byte): map<Text, Text>
    {
      if kind == ARRAY then arr else if kind == TREE then tree else if kind == HASH then hash else map[]
    }
  }

  const NO_PAIRS := Stores(map[], map[], map[])

  /** Fault is the access outside the bucket array. */
  datatype LoadResult = Done(stores: Stores) | Rejected | Fault

  function Added(m: map<Text, Text>, key: Text, value: Text): map<Text, Text>
  {
    if key in m then m else m[key := value]
  }

  /** One record goes to its store; w slots of the array are wasted. */
  function Put(s: Stores, r: Record, w: int): LoadResult
  {
    if r.kind == ARRAY then
      Done(if |s.arr| + w == KVS_ARRAY_SIZE then s else s.(arr := Added(s.arr, r.key, r.value)))
    else if r.kind == TREE then Done(s.(tree := Added(s.tree, r.key, r.value)))
    else if r.kind == HASH then
      if Hashable(r.key) then Done(s.(hash := Added(s.hash, r.key, r.value))) else LoadResult.Fault
    else Done(s)
  }

  function PutAll(s: Stores, rs: seq<Record>, w: int): LoadResult
    decreases |rs|
  {
    if rs == [] then Done(s)
    else
      var o := Put(s, rs[0], w);
      if o.Done? then PutAll(o.stores, rs[1..], w) else o
  }

  function Load(f: seq<Byte>, s: Stores, w: int): LoadResult
  {
    if Verified(f) then PutAll(s, Records(f, HEADER_BYTES, HEADER_BYTES + Get32(f, 12)), w) else Rejected
  }

  /** A record is read exactly when kind, lengths and texts are all there and the key has 1 to 1024 bytes;
      it is what the bytes say, with each text up to its first NUL. */
  lemma ReadRecordMeans(f: seq<Byte>, pos: nat, k: nat, v: nat)
    requires pos + 3 <= |f| ==> k == f[pos + 1] as int + 256 * f[pos + 2] as int
    requires pos + 5 + k <= |f| ==> v == f[pos + 3 + k] as int + 256 * f[pos + 4 + k] as int
    ensures ReadRecord(f, pos).Some? <==> 1 <= k <= 1024 && pos + 5 + k <= |f| && pos + 5 + k + v <= |f|
    ensures ReadRecord(f, pos).Some? ==>
              var (r, next) := ReadRecord(f, pos).value;
              && next == pos + 5 + k + v && r.kind == f[pos]
              && UpToNul(r.key, f[pos + 3..pos + 3 + k]) && UpToNul(r.value, f[pos + 5 + k..next])
  {
    hide CString;
    if pos + 3 <= |f| {
      StrUpToNul(f[pos + 3..if pos + 3 + k <= |f| then pos + 3 + k else |f|]);
      if pos + 5 + k + v <= |f| {
        StrUpToNul(f[pos + 5 + k..pos + 5 + k + v]);
      }
    }
  }

  predicate UpToNul(t: Text, s: seq<Byte>)
  {
    |t| <= |s| && s[..|t|] == t && (|t| < |s| ==> s[|t|] == 0)
  }

  lemma StrUpToNul(s: seq<Byte>)
    ensures UpToNul(Str(s), s)
  {
  }

  /** A file is accepted for its length and its first eight bytes, and its records end where the number at
      12 says. */
  lemma LoadMeans(f: seq<Byte>, s: Stores, w: int)
    ensures Load(f, s, w) == Rejected <==> |f| < 32 || f[..8] != [0x4B, 0x42, 0x44, 0x52, 1, 0, 0, 0]
    ensures Load(f, s, w) != Rejected ==> Load(f, s, w) == PutAll(s, Records(f, 32, 32 + Little(f, 12)), w)
  {
    hide Verified, Little, Get32, Records, PutAll;
    VerifiedMeans(f);
    if Verified(f) {
      NotRejected(s, Records(f, 32, 32 + Little(f, 12)), w);
    }
  }

  lemma VerifiedMeans(f: seq<Byte>)
    ensures Verified(f) <==> |f| >= 32 && f[..8] == [0x4B, 0x42, 0x44, 0x52, 1, 0, 0, 0]
    ensures |f| >= 32 ==> Get32(f, 12) == Little(f, 12)
  {
    if |f| >= 32 {
      assert f[..8] == [f[0], f[1], f[2], f[3], f[4], f[5], f[6], f[7]];
    }
  }

  lemma {:induction false} NotRejected(s: Stores, rs: seq<Record>, w: int)
    ensures PutAll(s, rs, w) != Rejected
    decreases |rs|
  {
    if rs != [] && Put(s, rs[0], w).Done? {
      NotRejected(Put(s, rs[0], w).stores, rs[1..], w);
    }
  }

  /** Kind 0 is for the slot array, which may be full, 1 for the tree, and 2 for the hash table, which has
      no bucket for some keys; other kinds are passed over. A key that is there keeps its value. */
  lemma KindsMean(s: Stores, k: Text, v: Text, kind: Byte, w: int)
    ensures kind == 0 ==>
              Put(s, Record(kind, k, v), w)
              == Done(Stores(if |s.arr| + w == 1024 || k in s.arr then s.arr else s.arr[k := v], s.tree, s.hash))
    ensures kind == 1 ==>
              Put(s, Record(kind, k, v), w) == Done(Stores(s.arr, if k in s.tree then s.tree else s.tree[k := v], s.hash))
    ensures kind == 2 && Hashable(k) ==>
              Put(s, Record(kind, k, v), w) == Done(Stores(s.arr, s.tree, if k in s.hash then s.hash else s.hash[k := v]))
    ensures kind == 2 && !Hashable(k) ==> Put(s, Record(kind, k, v), w) == LoadResult.Fault
    ensures kind > 2 ==> Put(s, Record(kind, k, v), w) == Done(s)
  {
  }

  // ----- one record, printed and parsed

  predicate KeyRead(r: Record)
  {
    1 <= |r.key| % TWO16 <= MAX_KEY
  }

  function CutRecord(r: Record): Record
  {
    Record(r.kind, Cut(r.key), Cut(r.value))
  }

  lemma TwoRead(f: seq<Byte>, i: nat, n: nat)
    requires i + 2 <= |f| && f[i..i + 2] == Two(n)
    ensures Get16(f, i) == n % TWO16
  {
    assert f[i] == f[i..i + 2][0] && f[i + 1] == f[i..i + 2][1];
  }

  lemma FourRead(f: seq<Byte>, i: nat, n: nat)
    requires i + 4 <= |f| && f[i..i + 4] == Four(n)
    ensures Get32(f, i) == n % TWO32
  {
    hide Two, Get16;
    Halves(n);
    assert f[i..i + 2] == f[i..i + 4][..2] == Two(n);
    assert f[i + 2..i + 4] == f[i..i + 4][2..] == Two(n / TWO16);
    TwoRead(f, i, n);
    TwoRead(f, i + 2, n / TWO16);
  }

  /** What one printed record is read back as. */
  lemma ReadEncoded(f: seq<Byte>, pos: nat, r: Record)
    requires pos + |Encode(r)| <= |f| && f[pos..pos + |Encode(r)|] == Encode(r)
    ensures ReadRecord(f, pos) == if KeyRead(r) then Some((CutRecord(r), pos + |Encode(r)|)) else None
  {
    hide Two, Get16, Cut, Str, Bytes, Encode, Sized;
    var kl, vl := |r.key| % TWO16, |r.value| % TWO16;
    EncodedParts(f, pos, r);
    SizedRead(f, pos + 1, |r.key|, 1, MAX_KEY);
    SizedRead(f, pos + 3 + kl, |r.value|, 0, TWO16 - 1);
    StrBytes(Cut(r.key));
    StrBytes(Cut(r.value));
  }

  lemma SizedRead(f: seq<Byte>, pos: nat, n: nat, least: nat, most: nat)
    requires pos + 2 + n % TWO16 <= |f| && f[pos..pos + 2] == Two(n)
    ensures var k, r := n % TWO16, Sized(f, pos, least, most);
            && (r.Some? <==> least <= k <= most)
            && (r.Some? ==> r.value.0 == f[pos + 2..pos + 2 + k] && r.value.1 == pos + 2 + k)
  {
    hide Two, Get16;
    TwoRead(f, pos, n);
  }

  lemma StrBytes(t: Text)
    ensures Str(Bytes(t)) == t
  {
  }

  /** Where the fields of a printed record lie. */
  lemma EncodedParts(f: seq<Byte>, pos: nat, r: Record)
    requires pos + |Encode(r)| <= |f| && f[pos..pos + |Encode(r)|] == Encode(r)
    ensures var kl, vl := |r.key| % TWO16, |r.value| % TWO16;
            && f[pos] == r.kind
            && f[pos + 1..pos + 3] == Two(|r.key|) && f[pos + 3..pos + 3 + kl] == Bytes(Cut(r.key))
            && f[pos + 3 + kl..pos + 5 + kl] == Two(|r.value|)
            && f[pos + 5 + kl..pos + 5 + kl + vl] == Bytes(Cut(r.value))
  {
    hide Two, Cut, Bytes;
    var e, kl, vl := Encode(r), |r.key| % TWO16, |r.value| % TWO16;
    Parts(r.kind, Two(|r.key|), Bytes(Cut(r.key)), Two(|r.value|), Bytes(Cut(r.value)));
    SubSlice(f, pos, |e|, 0, 1);
    SubSlice(f, pos, |e|, 1, 3);
    SubSlice(f, pos, |e|, 3, 3 + kl);
    SubSlice(f, pos, |e|, 3 + kl, 5 + kl);
    SubSlice(f, pos, |e|, 5 + kl, 5 + kl + vl);
    assert f[pos] == f[pos..pos + 1][0];
  }

  lemma Parts(k: Byte, a: seq<Byte>, b: seq<Byte>, c: seq<Byte>, d: seq<Byte>)
    ensures var e, i, j := [k] + a + b + c + d, 1 + |a| + |b|, 1 + |a| + |b| + |c|;
            && e[0..1] == [k] && e[1..1 + |a|] == a && e[1 + |a|..i] == b && e[i..j] == c && e[j..j + |d|] == d
  {
  }

  lemma SubSlice(f: seq<Byte>, pos: nat, n: nat, a: nat, b: nat)
    requires pos + n <= |f| && a <= b <= n
    ensures f[pos..pos + n][a..b] == f[pos + a..pos + b]
  {
    var g := f[pos..pos + n];
    assert forall i :: 0 <= i < b - a ==> g[a..b][i] == g[a + i] == f[pos + (a + i)] == f[pos + a..pos + b][i];
  }

  // ----- the whole file

  /** The printed records that a load reads: it stops at the announced end, or at a key whose length
      does not fit. */
  function Kept(rs: seq<Record>, pos: nat, end: nat): (ks: seq<Record>)
    ensures |ks| <= |rs|
    decreases |rs|
  {
    if rs == [] || pos >= end || !KeyRead(rs[0]) then []
    else [CutRecord(rs[0])] + Kept(rs[1..], pos + |Encode(rs[0])|, end)
  }

  lemma {:induction false} RecordsAreKept(f: seq<Byte>, pos: nat, end: nat, rs: seq<Record>)
    requires pos <= |f| && f[pos..] == EncodeAll(rs)
    ensures Records(f, pos, end) == Kept(rs, pos, end)
    decreases |rs|
  {
    hide ReadRecord, Encode, EncodeAll, KeyRead, Records, Kept, CutRecord;
    EncodeStep(rs);
    KeptStep(rs, pos, end);
    RecordsTurn(f, pos, end);
    assert |f[pos..]| == |f| - pos;
    if rs == [] {
      ReadNothing(f, pos);
    } else if pos < end {
      var e := Encode(rs[0]);
      assert f[pos..pos + |e|] == f[pos..][..|e|] == e;
      ReadEncoded(f, pos, rs[0]);
      if KeyRead(rs[0]) {
        assert f[pos + |e|..] == f[pos..][|e|..] == EncodeAll(rs[1..]);
        RecordsAreKept(f, pos + |e|, end, rs[1..]);
      }
    }
  }

  lemma EncodeStep(rs: seq<Record>)
    ensures EncodeAll(rs) == if rs == [] then [] else Encode(rs[0]) + EncodeAll(rs[1..])
  {
  }

  lemma KeptStep(rs: seq<Record>, pos: nat, end: nat)
    ensures Kept(rs, pos, end) == if rs == [] || pos >= end || !KeyRead(rs[0]) then []
                                  else [CutRecord(rs[0])] + Kept(rs[1..], pos + |Encode(rs[0])|, end)
  {
  }

  lemma RecordsTurn(f: seq<Byte>, pos: nat, end: nat)
    requires pos <= |f|
    ensures Records(f, pos, end) == if pos >= end || ReadRecord(f, pos).None? then []
                                    else [ReadRecord(f, pos).value.0] + Records(f, ReadRecord(f, pos).value.1, end)
  {
  }

  lemma ReadNothing(f: seq<Byte>, pos: nat)
    requires pos >= |f|
    ensures ReadRecord(f, pos).None?
  {
  }

  /** A pair that survives: a key of 1 to 1024 bytes, a value of at most 65535. */
  predicate Storable(key: Text, value: Text)
  {
    1 <= |key| <= MAX_KEY && |value| < TWO16
  }

  lemma {:induction false} KeptAll(rs: seq<Record>, pos: nat, end: nat)
    requires forall i :: 0 <= i < |rs| ==> Storable(rs[i].key, rs[i].value)
    requires pos + |EncodeAll(rs)| <= end
    ensures Kept(rs, pos, end) == rs
    decreases |rs|
  {
    if rs != [] {
      KeptAll(rs[1..], pos + |Encode(rs[0])|, end);
      assert CutRecord(rs[0]) == rs[0];
    }
  }

  /** Whatever is read back could have been stored. */
  lemma {:induction false} KeptStorable(rs: seq<Record>, pos: nat, end: nat, i: nat)
    requires i < |Kept(rs, pos, end)|
    ensures Kept(rs, pos, end)[i] == CutRecord(rs[i])
    ensures Storable(Kept(rs, pos, end)[i].key, Kept(rs, pos, end)[i].value)
    decreases |rs|
  {
    if i > 0 {
      KeptStorable(rs[1..], pos + |Encode(rs[0])|, end, i - 1);
    }
  }

  /** An end that lies a whole record or more before the real one loses the last record. */
  lemma {:induction false} KeptShort(rs: seq<Record>, pos: nat, end: nat)
    requires rs != [] && end + 5 + 2 * TWO16 <= pos + |EncodeAll(rs)|
    ensures |Kept(rs, pos, end)| < |rs|
    decreases |rs|
  {
    if pos < end && KeyRead(rs[0]) {
      assert |Encode(rs[0])| <= 5 + 2 * TWO16;
      if |rs| > 1 {
        KeptShort(rs[1..], pos + |Encode(rs[0])|, end);
      } else {
        assert EncodeAll(rs[1..]) == [];
      }
    }
  }

  // ----- what the stores come to hold

  /** A pair that appears in a store came from a record. */
  lemma {:induction false} PutFrom(s: Stores, rs: seq<Record>, w: int, kind: Byte, key: Text)
    requires PutAll(s, rs, w).Done? && key in PutAll(s, rs, w).stores.Of(kind) && key !in s.Of(kind)
    ensures exists i :: 0 <= i < |rs| && rs[i] == Record(kind, key, PutAll(s, rs, w).stores.Of(kind)[key])
    decreases |rs|
  {
    var o := Put(s, rs[0], w);
    if key in o.stores.Of(kind) {
      PutKeeps(o.stores, rs[1..], w, kind, key);
      assert rs[0] == Record(kind, key, PutAll(s, rs, w).stores.Of(kind)[key]);
    } else {
      PutFrom(o.stores, rs[1..], w, kind, key);
      var i :| 0 <= i < |rs[1..]| && rs[1..][i] == Record(kind, key, PutAll(s, rs, w).stores.Of(kind)[key]);
      assert rs[i + 1] == rs[1..][i];
    }
  }

  /** A pair that is in a store stays as it is. */
  lemma {:induction false} PutKeeps(s: Stores, rs: seq<Record>, w: int, kind: Byte, key: Text)
    requires PutAll(s, rs, w).Done? && key in s.Of(kind)
    ensures key in PutAll(s, rs, w).stores.Of(kind) && PutAll(s, rs, w).stores.Of(kind)[key] == s.Of(kind)[key]
    decreases |rs|
  {
    if rs != [] {
      PutKeeps(Put(s, rs[0], w).stores, rs[1..], w, kind, key);
    }
  }

  function Recs(kind: Byte, ps: seq<Pair>): (rs: seq<Record>)
    ensures |rs| == |ps| && forall i :: 0 <= i < |rs| ==> rs[i] == Record(kind, ps[i].0, ps[i].1)
  {
    if ps == [] then [] else [Record(kind, ps[0].0, ps[0].1)] + Recs(kind, ps[1..])
  }

  /** The store of that kind takes all of the pairs. */
  ghost predicate Takes(s: Stores, kind: Byte, ps: seq<Pair>)
  {
    && (kind == ARRAY || kind == TREE || kind == HASH)
    && DistinctKeys(ps) && (forall i :: 0 <= i < |ps| ==> ps[i].0 !in s.Of(kind))
    && (kind == ARRAY ==> |s.arr| + |ps| <= KVS_ARRAY_SIZE)
    && (kind == HASH ==> forall i :: 0 <= i < |ps| ==> Hashable(ps[i].0))
  }

  lemma TakesStep(s: Stores, kind: Byte, ps: seq<Pair>, rest: seq<Record>)
    requires Takes(s, kind, ps) && ps != []
    ensures var s' := With(s, kind, s.Of(kind)[ps[0].0 := ps[0].1]);
            var rs := Recs(kind, ps) + rest;
            && Takes(s', kind, ps[1..]) && rs != [] && Put(s, rs[0], 0) == Done(s') && rs[1..] == Recs(kind, ps[1..]) + rest
  {
    hide Hashable, Put, With, Stores.Of, Recs, DistinctKeys;
    var m' := s.Of(kind)[ps[0].0 := ps[0].1];
    var s' := With(s, kind, m');
    PutOne(s, kind, ps[0].0, ps[0].1);
    WithArray(s, kind, ps[0].0, ps[0].1);
    WithOf(s, kind, m', m');
    RecsStep(kind, ps);
    DistinctTail(ps);
    assert (Recs(kind, ps) + rest)[1..] == Recs(kind, ps[1..]) + rest;
    assert forall i :: 0 <= i < |ps[1..]| ==> ps[1..][i] == ps[i + 1];
  }

  lemma DistinctTail(ps: seq<Pair>)
    requires DistinctKeys(ps) && ps != []
    ensures DistinctKeys(ps[1..]) && forall i :: 0 <= i < |ps[1..]| ==> ps[1..][i].0 != ps[0].0
  {
  }

  /** Records for one store, all with new keys, put every pair into it. */
  lemma {:induction false} PutRecs(s: Stores, kind: Byte, ps: seq<Pair>, rest: seq<Record>)
    requires Takes(s, kind, ps)
    ensures PutAll(s, Recs(kind, ps) + rest, 0) == PutAll(With(s, kind, s.Of(kind) + ToMap(ps)), rest, 0)
    decreases |ps|
  {
    hide PutAll, Put, ToMap, Hashable, Recs, Stores.Of, With, Takes;
    var rs, m := Recs(kind, ps) + rest, s.Of(kind);
    assert kind == ARRAY || kind == TREE || kind == HASH by {
      TakesKind(s, kind, ps);
    }
    RecsStep(kind, ps);
    if ps == [] {
      WithOf(s, kind, m, m);
      assert rs == rest && m + ToMap(ps) == m;
    } else {
      var m' := m[ps[0].0 := ps[0].1];
      TakesStep(s, kind, ps, rest);
      PutAllStep(s, rs);
      WithOf(s, kind, m', m' + ToMap(ps[1..]));
      PutRecs(With(s, kind, m'), kind, ps[1..], rest);
      MapFirst(ps);
      assert m' + ToMap(ps[1..]) == m + ToMap(ps);
    }
  }

  lemma TakesKind(s: Stores, kind: Byte, ps: seq<Pair>)
    requires Takes(s, kind, ps)
    ensures kind == ARRAY || kind == TREE || kind == HASH
  {
  }

  lemma PutOne(s: Stores, kind: Byte, k: Text, v: Text)
    requires kind == ARRAY || kind == TREE || kind == HASH
    requires k !in s.Of(kind) && (kind == ARRAY ==> |s.arr| < KVS_ARRAY_SIZE) && (kind == HASH ==> Hashable(k))
    ensures Put(s, Record(kind, k, v), 0) == Done(With(s, kind, s.Of(kind)[k := v]))
  {
    hide Hashable;
  }

  lemma WithOf(s: Stores, kind: Byte, m: map<Text, Text>, n: map<Text, Text>)
    requires kind == ARRAY || kind == TREE || kind == HASH
    ensures With(s, kind, m).Of(kind) == m && With(With(s, kind, m), kind, n) == With(s, kind, n)
    ensures With(s, kind, s.Of(kind)) == s
  {
  }

  lemma WithArray(s: Stores, kind: Byte, k: Text, v: Text)
    requires k !in s.Of(kind)
    ensures kind == ARRAY ==> |With(s, kind, s.Of(kind)[k := v]).arr| == |s.arr| + 1
  {
    assert s.arr[k := v].Keys == s.arr.Keys + {k};
  }

  lemma RecsStep(kind: Byte, ps: seq<Pair>)
    ensures Recs(kind, ps) == if ps == [] then [] else [Record(kind, ps[0].0, ps[0].1)] + Recs(kind, ps[1..])
    ensures ps == [] ==> ToMap(ps) == map[]
  {
  }

  lemma PutAllStep(s: Stores, rs: seq<Record>)
    requires rs != [] && Put(s, rs[0], 0).Done?
    ensures PutAll(s, rs, 0) == PutAll(Put(s, rs[0], 0).stores, rs[1..], 0)
  {
  }

  lemma MapFirst(ps: seq<Pair>)
    requires ps != []
    ensures ToMap(ps) == map[ps[0].0 := ps[0].1] + ToMap(ps[1..])
  {
    var first: seq<Pair> := [ps[0]];
    assert ps == first + ps[1..] && first[..0] == [];
    MapConcat(first, ps[1..]);
  }

  function With(s: Stores, kind: Byte, m: map<Text, Text>): Stores
  {
    if kind == ARRAY then s.(arr := m) else if kind == TREE then s.(tree := m) else if kind == HASH then s.(hash := m) else s
  }

  // ----- saving and loading everything

  /** What a save prints: every pair of the array and of the hash table, but of the tree only what
      its root holds. */
  function Printed(arr: seq<Pair>, root: seq<Pair>, hash: seq<Pair>): seq<Record>
  {
    Recs(ARRAY, arr) + Recs(TREE, root) + Recs(HASH, hash)
  }

  /** What is printed: the pairs of the array, of the root and of the table, one behind the other, under
      kinds 0, 1 and 2. */
  lemma PrintedMeans(arr: seq<Pair>, root: seq<Pair>, hash: seq<Pair>, i: nat)
    requires i < |arr| + |root| + |hash|
    ensures var rs := Printed(arr, root, hash);
            && |rs| == |arr| + |root| + |hash|
            && rs[i] == if i < |arr| then Record(0, arr[i].0, arr[i].1)
                        else if i < |arr| + |root| then Record(1, root[i - |arr|].0, root[i - |arr|].1)
                        else Record(2, hash[i - |arr| - |root|].0, hash[i - |arr| - |root|].1)
  {
  }

  /** Behind the header the bytes of the i-th record come after those of the records before it. */
  lemma FileLayout(rs: seq<Record>, flags: nat, count: nat, time: nat, i: nat)
    requires i < |rs|
    ensures var f, at := FileOf(rs, flags, count, time), 32 + |EncodeAll(rs[..i])|;
            && at + |Encode(rs[i])| <= |f| && f[at..at + |Encode(rs[i])|] == Encode(rs[i])
            && f[..32] == FileHeader(flags, |f| - 32, count, time)
  {
    hide Encode, FileHeader;
    assert rs == rs[..i] + rs[i..] && rs[i..][0] == rs[i];
    EncodeConcat(rs[..i], rs[i..]);
    var h, a, b, c := FileHeader(flags, |EncodeAll(rs)|, count, time), EncodeAll(rs[..i]), Encode(rs[i]), EncodeAll(rs[i..][1..]);
    assert FileOf(rs, flags, count, time) == h + a + b + c;
  }

  function FileOf(rs: seq<Record>, flags: nat, count: nat, time: nat): seq<Byte>
  {
    FileHeader(flags, |EncodeAll(rs)|, count, time) + EncodeAll(rs)
  }

  lemma HeaderRead(flags: nat, size: nat, count: nat, time: nat, data: seq<Byte>)
    ensures var f := FileHeader(flags, size, count, time) + data;
            Verified(f) && Get32(f, 12) == size % TWO32 && f[HEADER_BYTES..] == data
  {
    hide Four, Get32;
    var f := FileHeader(flags, size, count, time) + data;
    assert f[0..4] == Four(RDB_MAGIC) && f[4..8] == Four(RDB_VERSION) && f[12..16] == Four(size);
    FourRead(f, 0, RDB_MAGIC);
    FourRead(f, 4, RDB_VERSION);
    FourRead(f, 12, size);
  }

  lemma LoadKept(rs: seq<Record>, flags: nat, count: nat, time: nat, s: Stores, w: int)
    ensures Load(FileOf(rs, flags, count, time), s, w)
         == PutAll(s, Kept(rs, HEADER_BYTES, HEADER_BYTES + |EncodeAll(rs)| % TWO32), w)
  {
    hide Verified, Get32, FileHeader, PutAll, Kept, EncodeAll, Records;
    var data := EncodeAll(rs);
    HeaderRead(flags, |data|, count, time, data);
    RecordsAreKept(FileOf(rs, flags, count, time), HEADER_BYTES, HEADER_BYTES + |data| % TWO32, rs);
  }

  /** What the three stores hold before a save: `root` is the pair at the root of the tree. */
  ghost predicate Savable(arr: seq<Pair>, tree: map<Text, Text>, root: seq<Pair>, hash: seq<Pair>)
  {
    && DistinctKeys(arr) && |arr| <= KVS_ARRAY_SIZE
    && DistinctKeys(hash) && (forall i :: 0 <= i < |hash| ==> Hashable(hash[i].0))
    && if tree == map[] then root == [] else |root| == 1 && root[0].0 in tree && tree[root[0].0] == root[0].1
  }

  ghost predicate AllStorable(m: map<Text, Text>)
  {
    forall k :: k in m ==> Storable(k, m[k])
  }

  /** All records go to their stores. */
  lemma PutPrinted(arr: seq<Pair>, root: seq<Pair>, hash: seq<Pair>)
    requires DistinctKeys(arr) && |arr| <= KVS_ARRAY_SIZE && |root| <= 1
    requires DistinctKeys(hash) && (forall i :: 0 <= i < |hash| ==> Hashable(hash[i].0))
    ensures PutAll(NO_PAIRS, Printed(arr, root, hash), 0) == Done(Stores(ToMap(arr), ToMap(root), ToMap(hash)))
  {
    hide PutAll, Hashable, ToMap, Recs, Takes, DistinctKeys;
    var s1 := With(NO_PAIRS, ARRAY, ToMap(arr));
    var s2 := With(s1, TREE, ToMap(root));
    TakesPrinted(arr, root, hash);
    assert map[] + ToMap(arr) == ToMap(arr) && map[] + ToMap(root) == ToMap(root) && map[] + ToMap(hash) == ToMap(hash);
    PutRecs(NO_PAIRS, ARRAY, arr, Recs(TREE, root) + Recs(HASH, hash));
    PutRecs(s1, TREE, root, Recs(HASH, hash));
    PutRecs(s2, HASH, hash, []);
    assert Recs(HASH, hash) + [] == Recs(HASH, hash);
    assert Printed(arr, root, hash) == Recs(ARRAY, arr) + (Recs(TREE, root) + Recs(HASH, hash));
    PutNone(With(s2, HASH, ToMap(hash)));
  }

  lemma TakesPrinted(arr: seq<Pair>, root: seq<Pair>, hash: seq<Pair>)
    requires DistinctKeys(arr) && |arr| <= KVS_ARRAY_SIZE && |root| <= 1
    requires DistinctKeys(hash) && (forall i :: 0 <= i < |hash| ==> Hashable(hash[i].0))
    ensures var s1 := With(NO_PAIRS, ARRAY, ToMap(arr));
            var s2 := With(s1, TREE, ToMap(root));
            Takes(NO_PAIRS, ARRAY, arr) && Takes(s1, TREE, root) && Takes(s2, HASH, hash)
  {
    hide Hashable, ToMap;
  }

  lemma PutNone(s: Stores)
    ensures PutAll(s, [], 0) == Done(s)
  {
  }

  /** A load from scratch brings back nothing that does not fit the format. */
  lemma LoadedStorable(rs: seq<Record>, end: nat, s: Stores, kind: Byte)
    requires PutAll(NO_PAIRS, Kept(rs, HEADER_BYTES, end), 0) == Done(s)
    ensures AllStorable(s.Of(kind))
    ensures forall k :: k in s.Of(kind) ==> exists i :: 0 <= i < |Kept(rs, HEADER_BYTES, end)| && rs[i].kind == kind && Cut(rs[i].key) == k
  {
    hide Kept, PutAll;
    var ks := Kept(rs, HEADER_BYTES, end);
    forall k | k in s.Of(kind)
      ensures Storable(k, s.Of(kind)[k]) && exists i :: 0 <= i < |ks| && rs[i].kind == kind && Cut(rs[i].key) == k
    {
      PutFrom(NO_PAIRS, ks, 0, kind, k);
      var i :| 0 <= i < |ks| && ks[i] == Record(kind, k, s.Of(kind)[k]);
      KeptStorable(rs, HEADER_BYTES, end, i);
    }
  }

  /** No two printed records have the same store and the same key. */
  lemma PrintedDistinct(arr: seq<Pair>, root: seq<Pair>, hash: seq<Pair>, i: nat, j: nat)
    requires DistinctKeys(arr) && DistinctKeys(hash) && |root| <= 1 && i < j < |Printed(arr, root, hash)|
    ensures var rs := Printed(arr, root, hash); rs[i].kind != rs[j].kind || rs[i].key != rs[j].key
  {
    var rs, m, n := Printed(arr, root, hash), |arr|, |arr| + |root|;
    assert forall k :: 0 <= k < |rs| ==>
      rs[k] == if k < m then Record(ARRAY, arr[k].0, arr[k].1)
               else if k < n then Record(TREE, root[k - m].0, root[k - m].1)
               else Record(HASH, hash[k - n].0, hash[k - n].1);
  }

  /** Each printed pair is one of its store's. */
  lemma PrintedFrom(arr: seq<Pair>, root: seq<Pair>, hash: seq<Pair>, tree: map<Text, Text>, i: nat)
    requires Savable(arr, tree, root, hash) && i < |Printed(arr, root, hash)|
    ensures var r, s := Printed(arr, root, hash)[i], Stores(ToMap(arr), tree, ToMap(hash));
            r.key in s.Of(r.kind) && s.Of(r.kind)[r.key] == r.value && (r.kind == TREE ==> root != [] && r.key == root[0].0)
  {
    hide Hashable, ToMap;
    var m, n := |arr|, |arr| + |root|;
    if i < m {
      MapAt(arr, i);
    } else if i >= n {
      MapAt(hash, i - n);
    }
  }

  /** What came back unharmed was small enough in every part. */
  lemma RestoredFits(arr: seq<Pair>, tree: map<Text, Text>, root: seq<Pair>, hash: seq<Pair>, end: nat)
    requires Savable(arr, tree, root, hash)
    requires PutAll(NO_PAIRS, Kept(Printed(arr, root, hash), HEADER_BYTES, end), 0) == Done(Stores(ToMap(arr), tree, ToMap(hash)))
    ensures AllStorable(ToMap(arr)) && AllStorable(tree) && AllStorable(ToMap(hash)) && |tree| <= 1
    ensures |Kept(Printed(arr, root, hash), HEADER_BYTES, end)| == |Printed(arr, root, hash)|
  {
    hide PutAll, Kept, Printed, Savable, ToMap, AllStorable, DistinctKeys;
    var rs, s := Printed(arr, root, hash), Stores(ToMap(arr), tree, ToMap(hash));
    LoadedStorable(rs, end, s, ARRAY);
    LoadedStorable(rs, end, s, TREE);
    LoadedStorable(rs, end, s, HASH);
    TreeOne(arr, tree, root, hash, end);
    if |Kept(rs, HEADER_BYTES, end)| < |rs| {
      var n := |rs| - 1;
      PrintedFrom(arr, root, hash, tree, n);
      var i :| 0 <= i < |Kept(rs, HEADER_BYTES, end)| && rs[i].kind == rs[n].kind && Cut(rs[i].key) == rs[n].key;
      PrintedFrom(arr, root, hash, tree, i);
      assert Storable(rs[i].key, rs[i].value) by {
        StorableOf(s, rs[i]);
      }
      SavableDistinct(arr, tree, root, hash);
      PrintedDistinct(arr, root, hash, i, n);
    }
  }

  lemma SavableDistinct(arr: seq<Pair>, tree: map<Text, Text>, root: seq<Pair>, hash: seq<Pair>)
    requires Savable(arr, tree, root, hash)
    ensures DistinctKeys(arr) && DistinctKeys(hash) && |root| <= 1
  {
  }

  lemma StorableOf(s: Stores, r: Record)
    requires AllStorable(s.arr) && AllStorable(s.tree) && AllStorable(s.hash)
    requires r.key in s.Of(r.kind) && s.Of(r.kind)[r.key] == r.value
    ensures Storable(r.key, r.value)
  {
  }

  /** A tree that came back held only its root. */
  lemma TreeOne(arr: seq<Pair>, tree: map<Text, Text>, root: seq<Pair>, hash: seq<Pair>, end: nat)
    requires Savable(arr, tree, root, hash)
    requires PutAll(NO_PAIRS, Kept(Printed(arr, root, hash), HEADER_BYTES, end), 0) == Done(Stores(ToMap(arr), tree, ToMap(hash)))
    ensures |tree| <= 1
  {
    hide PutAll, Kept, Printed, ToMap, AllStorable, DistinctKeys, Hashable;
    var rs, s := Printed(arr, root, hash), Stores(ToMap(arr), tree, ToMap(hash));
    LoadedStorable(rs, end, s, TREE);
    if root == [] {
      assert tree == map[];
    } else {
      forall k | k in tree ensures k == Cut(root[0].0) {
        var i :| 0 <= i < |Kept(rs, HEADER_BYTES, end)| && rs[i].kind == TREE && Cut(rs[i].key) == k;
        PrintedFrom(arr, root, hash, tree, i);
      }
      SingleKey(tree, Cut(root[0].0));
    }
  }

  lemma SingleKey(m: map<Text, Text>, key: Text)
    requires forall k :: k in m ==> k == key
    ensures |m| <= 1
  {
    assert m.Keys <= {key};
    if m != map[] {
      var k :| k in m;
      assert m.Keys == {key};
    }
  }

  /** A save and a load into empty stores give all three stores their pairs back exactly when every
      key has 1 to 1024 bytes and every value at most 65535, the tree holds at most one pair, and the
      records together stay below four gigabytes. */
  lemma RestoreIff(arr: seq<Pair>, tree: map<Text, Text>, root: seq<Pair>, hash: seq<Pair>, flags: nat, count: nat, time: nat)
    requires Savable(arr, tree, root, hash)
    ensures var rs := Printed(arr, root, hash);
            Load(FileOf(rs, flags, count, time), NO_PAIRS, 0) == Done(Stores(ToMap(arr), tree, ToMap(hash)))
            <==> AllStorable(ToMap(arr)) && AllStorable(tree) && AllStorable(ToMap(hash)) && |tree| <= 1
                 && |EncodeAll(rs)| < TWO32
  {
    hide PutAll, Kept, Printed, Savable, ToMap, AllStorable, DistinctKeys, FileOf, Load, EncodeAll;
    var rs, s := Printed(arr, root, hash), Stores(ToMap(arr), tree, ToMap(hash));
    var size := |EncodeAll(rs)|;
    var end := HEADER_BYTES + size % TWO32;
    LoadKept(rs, flags, count, time, NO_PAIRS, 0);
    if PutAll(NO_PAIRS, Kept(rs, HEADER_BYTES, end), 0) == Done(s) {
      RestoredFits(arr, tree, root, hash, end);
      if size >= TWO32 {
        NotEmpty(rs);
        KeptShort(rs, HEADER_BYTES, end);
        assert false;
      }
    }
    if AllStorable(ToMap(arr)) && AllStorable(tree) && AllStorable(ToMap(hash)) && |tree| <= 1 && size < TWO32 {
      forall i | 0 <= i < |rs| ensures Storable(rs[i].key, rs[i].value) {
        PrintedFrom(arr, root, hash, tree, i);
        StorableOf(s, rs[i]);
      }
      KeptAll(rs, HEADER_BYTES, end);
      RootIsTree(arr, tree, root, hash);
      PutPrinted(arr, root, hash);
    }
  }

  lemma NotEmpty(rs: seq<Record>)
    requires |EncodeAll(rs)| > 0
    ensures rs != []
  {
  }

  lemma RootIsTree(arr: seq<Pair>, tree: map<Text, Text>, root: seq<Pair>, hash: seq<Pair>)
    requires Savable(arr, tree, root, hash) && |tree| <= 1
    ensures ToMap(root) == tree && DistinctKeys(arr) && |arr| <= KVS_ARRAY_SIZE && |root| <= 1
    ensures DistinctKeys(hash) && forall i :: 0 <= i < |hash| ==> Hashable(hash[i].0)
  {
    hide Hashable;
    if tree != map[] {
      var k := root[0].0;
      assert root[..0] == [];
      assert ToMap(root) == map[k := tree[k]];
      forall q | q in tree ensures q == k {
        if q != k {
          assert {q, k} <= tree.Keys;
          assert |{q, k}| == 2;
          SubsetSize({q, k}, tree.Keys);
        }
      }
    }
  }

  lemma {:induction false} SubsetSize(a: set<Text>, b: set<Text>)
    requires a <= b
    ensures |a| <= |b|
  {
    if a != {} {
      var x :| x in a;
      SubsetSize(a - {x}, b - {x});
    }
  }
}
