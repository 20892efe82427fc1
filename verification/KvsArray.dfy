/** The slot array: pairs in a fixed table with holes, scanned below a high-water mark. */
module KvsArray {
  import opened Text
  import opened Assoc
  import opened HashTable
  import opened Wrappers

  const KVS_ARRAY_SIZE := 1024

  /** A slot whose key pointer is null is None. */
  type Slot = Option<Pair>

  datatype Deletion = Code(code: int) | Fault

  function One(slot: Slot): seq<Pair>
  {
    match slot case None => [] case Some(p) => [p]
  }

  /** The pairs of the slots in use, in slot order. */
  function Pairs(slots: seq<Slot>): seq<Pair>
  {
    if slots == [] then [] else Pairs(slots[..|slots| - 1]) + One(slots[|slots| - 1])
  }

  ghost predicate Holds(slot: Slot, key: Text)
  {
    slot.Some? && slot.value.0 == key
  }

  lemma PairsStep(s: seq<Slot>)
    ensures Pairs(s) == if s == [] then [] else Pairs(s[..|s| - 1]) + One(s[|s| - 1])
  {
  }

  lemma {:induction false} PairsSplit(s: seq<Slot>, i: nat)
    requires i < |s|
    ensures Pairs(s) == Pairs(s[..i]) + One(s[i]) + Pairs(s[i + 1..])
  {
    hide Pairs, One;
    var n, r := |s| - 1, s[i + 1..];
    PairsStep(s);
    PairsStep(r);
    if i < n {
      PairsSplit(s[..n], i);
      assert s[..n][..i] == s[..i] && s[..n][i + 1..] == r[..|r| - 1] && r[|r| - 1] == s[n];
    } else {
      assert r == [];
    }
  }

  lemma {:induction false} PairsHas(s: seq<Slot>, key: Text)
    ensures HasKey(Pairs(s), key) <==> exists i :: 0 <= i < |s| && Holds(s[i], key)
  {
    if s != [] {
      var n := |s| - 1;
      var t := s[..n];
      PairsHas(t, key);
      ConcatHas(Pairs(t), One(s[n]), key);
      assert HasKey(One(s[n]), key) <==> Holds(s[n], key) by {
        if Holds(s[n], key) {
          HasAt(One(s[n]), 0);
        }
      }
      if exists i :: 0 <= i < n && Holds(t[i], key) {
        var i :| 0 <= i < n && Holds(t[i], key);
        assert Holds(s[i], key);
      }
      if exists i :: 0 <= i < |s| && Holds(s[i], key) {
        var i :| 0 <= i < |s| && Holds(s[i], key);
        assert i < n ==> Holds(t[i], key);
      }
    }
  }

  lemma PairsNone(s: seq<Slot>)
    ensures Pairs(s + [None]) == Pairs(s)
  {
    assert (s + [None])[..|s|] == s;
  }

  /** A hole takes a pair with a new key. */
  lemma FillHole(s: seq<Slot>, i: nat, key: Text, value: Text)
    requires i < |s| && s[i] == None && DistinctKeys(Pairs(s)) && !HasKey(Pairs(s), key)
    ensures var s' := s[i := Some((key, value))];
            && DistinctKeys(Pairs(s')) && ToMap(Pairs(s')) == ToMap(Pairs(s))[key := value]
            && |Pairs(s')| == |Pairs(s)| + 1
  {
    var s' := s[i := Some((key, value))];
    PairsSplit(s, i);
    PairsSplit(s', i);
    var a, b := Pairs(s[..i]), Pairs(s[i + 1..]);
    assert s'[..i] == s[..i] && s'[i + 1..] == s[i + 1..];
    assert Pairs(s) == a + b && Pairs(s') == a + [(key, value)] + b;
    InsertAt(a, key, value, b);
    DistinctInsert(a, key, value, b);
  }

  lemma DistinctInsert(a: seq<Pair>, key: Text, value: Text, b: seq<Pair>)
    requires DistinctKeys(a + b) && !HasKey(a + b, key)
    ensures DistinctKeys(a + [(key, value)] + b)
  {
    var s, t := a + [(key, value)] + b, a + b;
    forall i, j | 0 <= i < j < |s| ensures s[i].0 != s[j].0 {
      assert i < |a| ==> s[i] == t[i];
      assert j > |a| ==> s[j] == t[j - 1];
      assert i > |a| ==> s[i] == t[i - 1];
      assert j < |a| ==> s[j] == t[j];
    }
  }

  /** A slot is emptied. */
  lemma EmptySlot(s: seq<Slot>, i: nat)
    requires i < |s| && s[i].Some? && DistinctKeys(Pairs(s))
    ensures var s' := s[i := None];
            && DistinctKeys(Pairs(s')) && ToMap(Pairs(s')) == ToMap(Pairs(s)) - {s[i].value.0}
            && |Pairs(s')| == |Pairs(s)| - 1 && s[i].value.0 in ToMap(Pairs(s))
  {
    var s' := s[i := None];
    PairsSplit(s, i);
    PairsSplit(s', i);
    var a, b, p := Pairs(s[..i]), Pairs(s[i + 1..]), s[i].value;
    assert s'[..i] == s[..i] && s'[i + 1..] == s[i + 1..];
    assert Pairs(s') == a + b && Pairs(s) == a + [(p.0, p.1)] + b;
    RemoveAt(a, p.0, p.1, b);
    MapAt(Pairs(s), |a|);
  }

  /** A slot's value is overwritten. */
  lemma ChangeSlot(s: seq<Slot>, i: nat, value: Text)
    requires i < |s| && s[i].Some? && DistinctKeys(Pairs(s))
    ensures var s' := s[i := Some((s[i].value.0, value))];
            && DistinctKeys(Pairs(s')) && ToMap(Pairs(s')) == ToMap(Pairs(s))[s[i].value.0 := value]
            && |Pairs(s')| == |Pairs(s)|
  {
    var s' := s[i := Some((s[i].value.0, value))];
    PairsSplit(s, i);
    PairsSplit(s', i);
    var a, b := Pairs(s[..i]), Pairs(s[i + 1..]);
    assert s'[..i] == s[..i] && s'[i + 1..] == s[i + 1..];
    assert Pairs(s)[|a|] == s[i].value && Pairs(s') == Pairs(s)[|a| := (s[i].value.0, value)];
    ReplaceAt(Pairs(s), |a|, value);
  }

  lemma SlotIn(s: seq<Slot>, i: nat)
    requires i < |s| && s[i].Some? && DistinctKeys(Pairs(s))
    ensures s[i].value.0 in ToMap(Pairs(s)) && ToMap(Pairs(s))[s[i].value.0] == s[i].value.1
  {
    PairsSplit(s, i);
    MapAt(Pairs(s), |Pairs(s[..i])|);
  }

  lemma SlotNotIn(s: seq<Slot>, key: Text)
    requires forall i :: 0 <= i < |s| ==> !Holds(s[i], key)
    ensures key !in ToMap(Pairs(s)) && !HasKey(Pairs(s), key)
  {
    PairsHas(s, key);
    MapKeys(Pairs(s), key);
  }

  /** Whether a scan for the key meets a slot without a key before it finds the key. */
  predicate HoleFirst(s: seq<Slot>, key: Text)
  {
    exists i :: 0 <= i < |s| && s[i] == None && forall j :: 0 <= j < i ==> !(s[j].Some? && s[j].value.0 == key)
  }

  /** Where the first hole is, or the end. */
  function FirstHole(s: seq<Slot>): (i: nat)
    ensures i <= |s| && (forall j :: 0 <= j < i ==> s[j].Some?) && (i < |s| ==> s[i] == None)
  {
    if s == [] || s[0] == None then 0 else 1 + FirstHole(s[1..])
  }

  class SlotArray {
    const table: array<Slot>
    var total: nat

    ghost predicate Valid()
      reads this, table
    {
      && table.Length == KVS_ARRAY_SIZE && total <= KVS_ARRAY_SIZE
      && (forall i :: total <= i < KVS_ARRAY_SIZE ==> table[i] == None)
      && DistinctKeys(Pairs(table[..total]))
    }

    ghost function Used(): seq<Slot>
      requires Valid()
      reads this, table
    {
      table[..total]
    }

    ghost function Contents(): map<Text, Text>
      requires Valid()
      reads this, table
    {
      ToMap(Pairs(Used()))
    }

    /** Slots below the mark that hold nothing. */
    ghost function Wasted(): int
      requires Valid()
      reads this, table
    {
      total - |Contents()|
    }

    /** kvs_array_create, on a table of null slots. */
    constructor ()
      ensures Valid() && fresh(table) && total == 0 && Contents() == map[]
    {
      table := new Slot[KVS_ARRAY_SIZE](_ => None);
      total := 0;
    }

    /** The scan of set, get, mod and exist, which skips holes. */
    method Find(key: Text) returns (i: nat)
      requires Valid()
      ensures i <= total && (i < total <==> key in Contents())
      ensures i < total ==> Holds(table[i], key) && Contents()[key] == table[i].value.1
    {
      i := 0;
      while i < total
        invariant 0 <= i <= total && forall j :: 0 <= j < i ==> !Holds(table[j], key)
      {
        if table[i].Some? && table[i].value.0 == key {
          SlotIn(Used(), i);
          return;
        }
        i := i + 1;
      }
      SlotNotIn(Used(), key);
    }

    /** The second scan of set: a hole below the mark, or the mark. */
    method FindHole() returns (i: nat)
      requires Valid() && total < KVS_ARRAY_SIZE
      ensures i <= total && table[i] == None && i == FirstHole(Used())
    {
      i := 0;
      while i < total
        invariant 0 <= i <= total && forall j :: 0 <= j < i ==> Used()[j].Some?
      {
        if table[i] == None {
          return;
        }
        i := i + 1;
      }
    }

    /** A pair with a new key goes into a hole or on top, and the mark moves in both cases. */
    method Fill(i: nat, key: Text, value: Text)
      requires Valid() && i <= total < KVS_ARRAY_SIZE && table[i] == None && key !in Contents()
      modifies this, table
      ensures Valid() && Contents() == old(Contents())[key := value] && total == old(total) + 1
      ensures Used() == (old(Used()) + [None])[i := Some((key, value))]
    {
      hide Pairs, ToMap, DistinctKeys, HasKey;
      ghost var s := Used();
      ghost var t := s + [None];
      PairsNone(s);
      MapKeys(Pairs(s), key);
      FillHole(t, i, key, value);
      table[i] := Some((key, value));
      total := total + 1;
      assert table[..total] == t[i := Some((key, value))];
    }

    /** kvs_array_set: the mark moves even when a hole below it is filled. */
    method Set(key: Text, value: Text) returns (code: int)
      requires Valid()
      modifies this, table
      ensures Valid()
      ensures code == if old(total) == KVS_ARRAY_SIZE then -1 else if key in old(Contents()) then 1 else 0
      ensures Contents() == if code == 0 then old(Contents())[key := value] else old(Contents())
      ensures Used() == if code == 0 then (old(Used()) + [None])[FirstHole(old(Used())) := Some((key, value))] else old(Used())
      ensures Wasted() == old(Wasted())
    {
      hide Pairs, DistinctKeys, ToMap;
      if total == KVS_ARRAY_SIZE {
        return -1;
      }
      var found := Find(key);
      if found < total {
        return 1;
      }
      var i := FindHole();
      Fill(i, key, value);
      code := 0;
    }

    /** kvs_array_get */
    method Get(key: Text) returns (value: Option<Text>)
      requires Valid()
      ensures value == if key in Contents() then Some(Contents()[key]) else None
    {
      var i := Find(key);
      value := if i < total then Some(table[i].value.1) else None;
    }

    /** kvs_array_exist: 0 for a key in the array. */
    method Exist(key: Text) returns (code: int)
      requires Valid()
      ensures code == if key in Contents() then 0 else 1
    {
      var i := Find(key);
      code := if i < total then 0 else 1;
    }

    /** kvs_array_mod: for a missing key it returns the mark, or the size of an empty array. */
    method Mod(key: Text, value: Text) returns (code: int)
      requires Valid()
      modifies table
      ensures Valid() && Wasted() == old(Wasted())
      ensures code == if key in old(Contents()) then 0 else if total == 0 then KVS_ARRAY_SIZE else total
      ensures Contents() == if code == 0 then old(Contents())[key := value] else old(Contents())
    {
      if total == 0 {
        return KVS_ARRAY_SIZE;
      }
      var i := Find(key);
      if i == total {
        return i;
      }
      ghost var s := Used();
      ChangeSlot(s, i, value);
      table[i] := Some((key, value));
      assert Used() == s[i := Some((key, value))];
      SizeOfMap(Pairs(s));
      SizeOfMap(Pairs(Used()));
      code := 0;
    }

    /** Slot i is emptied; the mark moves down if it was the last one below it. */
    method TakeSlot(i: nat)
      requires Valid() && i < total && table[i].Some?
      modifies this, table
      ensures Valid() && total == if i == old(total) - 1 then old(total) - 1 else old(total)
      ensures old(table[i]).value.0 in old(Contents())
      ensures Contents() == old(Contents()) - {old(table[i]).value.0} && |Contents()| == |old(Contents())| - 1
    {
      hide Pairs, ToMap, DistinctKeys;
      ghost var s := Used();
      EmptySlot(s, i);
      SizeOfMap(Pairs(s));
      SizeOfMap(Pairs(s[i := None]));
      table[i] := None;
      assert table[..total] == s[i := None];
      if total - 1 == i {
        total := total - 1;
        assert s[i := None] == table[..total] + [None];
        PairsNone(table[..total]);
      }
    }

    /** kvs_array_del hands every key pointer to strcmp, a null one too. */
    method Del(key: Text) returns (r: Deletion)
      requires Valid()
      modifies this, table
      ensures Valid()
      ensures r == if HoleFirst(old(Used()), key) then Fault
                   else if key in old(Contents()) then Code(0) else Code(old(total))
      ensures Contents() == if r == Fault then old(Contents()) else old(Contents()) - {key}
      ensures Wasted() == old(Wasted())
                          + if r != Fault && key in old(Contents()) && !Holds(old(Used())[old(total) - 1], key) then 1 else 0
    {
      hide Pairs, DistinctKeys, ToMap;
      ghost var s := Used();
      var i := 0;
      while i < total
        invariant 0 <= i <= total && Used() == s && total == old(total)
        invariant forall j :: 0 <= j < i ==> s[j].Some? && !Holds(s[j], key)
      {
        if table[i] == None {
          assert s[i] == None;
          return Fault;
        }
        if table[i].value.0 == key {
          assert Holds(s[i], key);
          OneHolds(s, i, key);
          TakeSlot(i);
          return Code(0);
        }
        i := i + 1;
      }
      SlotNotIn(s, key);
      assert Contents() - {key} == Contents();
      r := Code(i);
    }
  }

  /** A key is in one slot. */
  lemma OneHolds(s: seq<Slot>, i: nat, key: Text)
    requires i < |s| && Holds(s[i], key) && DistinctKeys(Pairs(s))
    ensures forall j :: i < j < |s| ==> !Holds(s[j], key)
  {
    PairsSplit(s, i);
    var a, b := Pairs(s[..i]), Pairs(s[i + 1..]);
    forall k | 0 <= k < |b| ensures b[k].0 != key {
      assert Pairs(s)[|a|] == s[i].value && Pairs(s)[|a| + 1 + k] == b[k];
    }
    PairsHas(s[i + 1..], key);
    forall j | i < j < |s| ensures !Holds(s[j], key) {
      assert s[i + 1..][j - i - 1] == s[j];
    }
  }

  lemma {:induction false} HolesCounted(s: seq<Slot>)
    ensures |Pairs(s)| <= |s|
    ensures |Pairs(s)| < |s| <==> exists i :: 0 <= i < |s| && s[i] == None
  {
    if s != [] {
      var t := s[..|s| - 1];
      HolesCounted(t);
      if exists i :: 0 <= i < |t| && t[i] == None {
        var i :| 0 <= i < |t| && t[i] == None;
        assert s[i] == None;
      }
      if exists i :: 0 <= i < |s| && s[i] == None {
        var i :| 0 <= i < |s| && s[i] == None;
        assert i < |t| ==> t[i] == None;
      }
    }
  }

  /** Removing a key that is not there is an error that the array reports only as long as no removal
      has wasted a slot; from then on the scan passes a null key to strcmp. */
  lemma AbsentFaultsIff(arr: SlotArray, key: Text)
    requires arr.Valid() && key !in arr.Contents()
    ensures HoleFirst(arr.Used(), key) <==> arr.Wasted() > 0
  {
    var s := arr.Used();
    SizeOfMap(Pairs(s));
    HolesCounted(s);
    PairsHas(s, key);
    MapKeys(Pairs(s), key);
    if arr.Wasted() > 0 {
      var i :| 0 <= i < |s| && s[i] == None;
      forall j | 0 <= j < i ensures !(s[j].Some? && s[j].value.0 == key) {
        assert !Holds(s[j], key);
      }
    }
  }

  /** Without waste no scan meets a hole. */
  lemma NoWasteNoHole(arr: SlotArray, key: Text)
    requires arr.Valid() && arr.Wasted() == 0
    ensures !HoleFirst(arr.Used(), key)
  {
    SizeOfMap(Pairs(arr.Used()));
    HolesCounted(arr.Used());
  }

  /** The shortest run to that fault: two pairs set, the first one deleted, and then a key that is not
      there. The second key has never been harmed. */
  method HoleReached(a: Text, b: Text, c: Text) returns (r: Deletion)
    requires a != b && c != a && c != b
    ensures r == Fault
  {
    hide HoleFirst, Pairs, ToMap, DistinctKeys;
    var arr := new SlotArray();
    var r1 := arr.Set(a, a);
    assert arr.Used() == [Some((a, a))];
    var r2 := arr.Set(b, b);
    assert arr.Used() == [Some((a, a)), Some((b, b))];
    NoWasteNoHole(arr, a);
    var r3 := arr.Del(a);
    AbsentFaultsIff(arr, c);
    r := arr.Del(c);
  }
}
