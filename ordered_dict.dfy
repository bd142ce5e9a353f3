/** Python's `dict` with string keys, as far as the core uses it: a key is stored once, keys
    remember the order in which they were first inserted, assigning to an existing key keeps its
    place, `|` merges with the right operand winning, and a comprehension assigns its pairs one
    after another. */
module OrderedDict {

  /** `keys` lists every key once, in insertion order; `values` gives each key its value. */
  datatype RawDict<V> = RawDict(keys: seq<string>, values: map<string, V>)

  ghost predicate Wf<V>(d: RawDict<V>) {
    && (forall i, j :: 0 <= i < j < |d.keys| ==> d.keys[i] != d.keys[j])
    && (forall k :: k in d.values <==> k in d.keys)
  }

  type Dict<V> = d: RawDict<V> | Wf(d) witness RawDict([], map[])

  function Empty<V>(): Dict<V> {
    RawDict([], map[])
  }

  /** `d[k] = v`: an existing key keeps its place, a new key goes last. */
  function Set<V>(d: Dict<V>, k: string, v: V): (r: Dict<V>)
    ensures r.values == d.values[k := v]
    ensures r.keys == if k in d.values then d.keys else d.keys + [k]
  {
    if k in d.values then RawDict(d.keys, d.values[k := v])
    else RawDict(d.keys + [k], d.values[k := v])
  }

  /** `d.items()`, in insertion order. */
  function Items<V>(d: Dict<V>): (r: seq<(string, V)>)
    ensures |r| == |d.keys|
    ensures forall i :: 0 <= i < |r| ==> r[i] == (d.keys[i], d.values[d.keys[i]])
  {
    seq(|d.keys|, i requires 0 <= i < |d.keys| => (d.keys[i], d.values[d.keys[i]]))
  }

  /** `for k, v in items: acc[k] = v`. */
  function InsertAll<V>(acc: Dict<V>, items: seq<(string, V)>): Dict<V>
    decreases |items|
  {
    if items == [] then acc
    else
      var n := |items| - 1;
      Set(InsertAll(acc, items[..n]), items[n].0, items[n].1)
  }

  /** The map a list of pairs denotes when a later pair overrides an earlier one with the same key. */
  function LastWins<V>(items: seq<(string, V)>): map<string, V>
    decreases |items|
  {
    if items == [] then map[]
    else
      var n := |items| - 1;
      LastWins(items[..n])[items[n].0 := items[n].1]
  }

  /** `d1 | d2`: the keys of both; on a shared key the value of `d2` wins. A key of `d1` keeps
      its place, and the keys only `d2` has follow in their order in `d2`. */
  function Merge<V>(d1: Dict<V>, d2: Dict<V>): (r: Dict<V>)
    ensures r.values == d1.values + d2.values
    ensures r.keys == d1.keys + Without(d2.keys, d1.values.Keys)
  {
    InsertAllValues(d1, Items(d2));
    ItemsDenote(d2);
    MergeKeys(d1, d2);
    InsertAll(d1, Items(d2))
  }

  /** The keys of `ks`, in their order, that are not in `s`. */
  function Without(ks: seq<string>, s: set<string>): seq<string>
    decreases |ks|
  {
    if ks == [] then []
    else
      var n := |ks| - 1;
      Without(ks[..n], s) + (if ks[n] in s then [] else [ks[n]])
  }

  /** A key is kept exactly when it occurs and is not removed, and none are added. */
  lemma {:induction false} WithoutMembers(ks: seq<string>, s: set<string>)
    ensures forall k :: k in Without(ks, s) <==> k in ks && k !in s
    ensures |Without(ks, s)| <= |ks|
    decreases |ks|
  {
    if ks != [] {
      var n := |ks| - 1;
      WithoutMembers(ks[..n], s);
      assert ks == ks[..n] + [ks[n]];
    }
  }

  /** Removing keys that do not occur leaves the sequence as it is. */
  lemma {:induction false} WithoutNone(ks: seq<string>, s: set<string>)
    requires forall i :: 0 <= i < |ks| ==> ks[i] !in s
    ensures Without(ks, s) == ks
    decreases |ks|
  {
    if ks != [] {
      var n := |ks| - 1;
      WithoutNone(ks[..n], s);
      assert ks == ks[..n] + [ks[n]];
    }
  }

  function RekeyItems<V>(items: seq<(string, V)>, f: string -> string): (r: seq<(string, V)>)
    ensures |r| == |items|
    ensures forall i :: 0 <= i < |items| ==> r[i] == (f(items[i].0), items[i].1)
  {
    seq(|items|, i requires 0 <= i < |items| => (f(items[i].0), items[i].1))
  }

  /** `{f(k): v for k, v in d.items()}`: its keys are the images of the keys of `d`, and keys
      that `f` merges share one entry, so it has no more entries than `d`. */
  function Rekey<V>(d: Dict<V>, f: string -> string): (r: Dict<V>)
    ensures r.values.Keys == set k | k in d.values :: f(k)
    ensures |r.keys| <= |d.keys|
  {
    RekeyItemsKeys(d, f);
    InsertAllLength(Empty(), RekeyItems(Items(d), f));
    InsertAll(Empty(), RekeyItems(Items(d), f))
  }

  // ----- Assigning pairs one after another -----

  /** The values after a run of assignments: the old ones, overridden by the last assignment to each key. */
  lemma {:induction false} InsertAllValues<V>(acc: Dict<V>, items: seq<(string, V)>)
    ensures InsertAll(acc, items).values == acc.values + LastWins(items)
    decreases |items|
  {
    if items != [] {
      var n := |items| - 1;
      InsertAllValues(acc, items[..n]);
      UpdateUnion(acc.values, LastWins(items[..n]), items[n].0, items[n].1);
    }
  }

  /** Updating a union updates its right operand. */
  lemma UpdateUnion<V>(a: map<string, V>, b: map<string, V>, k: string, v: V)
    ensures (a + b)[k := v] == a + b[k := v]
  {
  }

  /** A run of assignments adds at most one key per pair. */
  lemma {:induction false} InsertAllLength<V>(acc: Dict<V>, items: seq<(string, V)>)
    ensures |InsertAll(acc, items).keys| <= |acc.keys| + |items|
    decreases |items|
  {
    if items != [] {
      InsertAllLength(acc, items[..|items| - 1]);
    }
  }

  /** The keys of a list of pairs, in order. */
  function KeysOf<V>(items: seq<(string, V)>): (r: seq<string>)
    ensures |r| == |items|
    ensures forall i :: 0 <= i < |items| ==> r[i] == items[i].0
  {
    seq(|items|, i requires 0 <= i < |items| => items[i].0)
  }

  /** With every key assigned once, the keys already present keep their places and the new keys
      are appended in assignment order. */
  lemma {:induction false} InsertAllKeys<V>(acc: Dict<V>, items: seq<(string, V)>)
    requires forall i, j :: 0 <= i < j < |items| ==> items[i].0 != items[j].0
    ensures InsertAll(acc, items).keys == acc.keys + Without(KeysOf(items), acc.values.Keys)
    decreases |items|
  {
    if items != [] {
      InsertAllKeys(acc, items[..|items| - 1]);
      InsertAllKeysStep(acc, items);
    }
  }

  /** The induction step of InsertAllKeys: the last assignment appends its key exactly when the key
      was not present at the start. */
  lemma InsertAllKeysStep<V>(acc: Dict<V>, items: seq<(string, V)>)
    requires items != []
    requires forall i, j :: 0 <= i < j < |items| ==> items[i].0 != items[j].0
    requires var n := |items| - 1;
      InsertAll(acc, items[..n]).keys == acc.keys + Without(KeysOf(items[..n]), acc.values.Keys)
    ensures InsertAll(acc, items).keys == acc.keys + Without(KeysOf(items), acc.values.Keys)
  {
    var n := |items| - 1;
    var s := acc.values.Keys;
    var w := Without(KeysOf(items[..n]), s);
    var tail := if items[n].0 in s then [] else [items[n].0];
    LastKeyStep(acc, items);
    WithoutKeysOfSnoc(items, s);
    AppendAssoc(acc.keys, w, tail);
  }

  /** The last assignment keeps the keys when its key was present at the start, and appends it otherwise. */
  lemma LastKeyStep<V>(acc: Dict<V>, items: seq<(string, V)>)
    requires items != []
    requires forall i, j :: 0 <= i < j < |items| ==> items[i].0 != items[j].0
    ensures var n := |items| - 1;
      InsertAll(acc, items).keys
        == InsertAll(acc, items[..n]).keys + (if items[n].0 in acc.values then [] else [items[n].0])
  {
    LastKeyPresent(acc, items);
  }

  lemma WithoutKeysOfSnoc<V>(items: seq<(string, V)>, s: set<string>)
    requires items != []
    ensures var n := |items| - 1;
      Without(KeysOf(items), s) == Without(KeysOf(items[..n]), s) + (if items[n].0 in s then [] else [items[n].0])
  {
    KeysOfSnoc(items);
    WithoutSnoc(KeysOf(items), s);
  }

  lemma KeysOfSnoc<V>(items: seq<(string, V)>)
    requires items != []
    ensures KeysOf(items)[..|items| - 1] == KeysOf(items[..|items| - 1])
    ensures KeysOf(items)[|items| - 1] == items[|items| - 1].0
  {
  }

  lemma WithoutSnoc(ks: seq<string>, s: set<string>)
    requires ks != []
    ensures Without(ks, s) == Without(ks[..|ks| - 1], s) + (if ks[|ks| - 1] in s then [] else [ks[|ks| - 1]])
  {
  }

  lemma AppendAssoc(a: seq<string>, b: seq<string>, c: seq<string>)
    ensures a + (b + c) == (a + b) + c
  {
  }

  /** The last assigned key is present before its assignment exactly when it was present at the start. */
  lemma LastKeyPresent<V>(acc: Dict<V>, items: seq<(string, V)>)
    requires items != []
    requires forall i, j :: 0 <= i < j < |items| ==> items[i].0 != items[j].0
    ensures var n := |items| - 1;
      items[n].0 in InsertAll(acc, items[..n]).values <==> items[n].0 in acc.values
  {
    var n := |items| - 1;
    var front := items[..n];
    InsertAllValues(acc, front);
    LastWinsKeys(front);
    assert forall i :: 0 <= i < n ==> front[i].0 != items[n].0;
  }

  lemma {:induction false} LastWinsKeys<V>(items: seq<(string, V)>)
    ensures LastWins(items).Keys == set i | 0 <= i < |items| :: items[i].0
    decreases |items|
  {
    if items != [] {
      var n := |items| - 1;
      LastWinsKeys(items[..n]);
      assert items == items[..n] + [items[n]];
    }
  }

  /** The value of a key is the one in its last pair. */
  lemma {:induction false} LastWinsAt<V>(items: seq<(string, V)>, j: nat)
    requires j < |items|
    requires forall j' :: j < j' < |items| ==> items[j'].0 != items[j].0
    ensures items[j].0 in LastWins(items) && LastWins(items)[items[j].0] == items[j].1
    decreases |items|
  {
    var n := |items| - 1;
    if j < n {
      LastWinsAt(items[..n], j);
    }
  }

  /** The pairs of a dict denote the dict itself. */
  lemma ItemsDenote<V>(d: Dict<V>)
    ensures LastWins(Items(d)) == d.values
  {
    var items := Items(d);
    LastWinsKeys(items);
    assert LastWins(items).Keys == d.values.Keys by {
      forall k | k in d.values ensures k in LastWins(items) {
        var i :| 0 <= i < |d.keys| && d.keys[i] == k;
        assert items[i].0 == k;
      }
    }
    forall k | k in d.values ensures LastWins(items)[k] == d.values[k] {
      var i :| 0 <= i < |d.keys| && d.keys[i] == k;
      LastWinsAt(items, i);
    }
  }

  // ----- Merging -----

  /** The key order of `d1 | d2`, stated on the assignments that compute it. */
  lemma MergeKeys<V>(d1: Dict<V>, d2: Dict<V>)
    ensures InsertAll(d1, Items(d2)).keys == d1.keys + Without(d2.keys, d1.values.Keys)
  {
    var items := Items(d2);
    assert KeysOf(items) == d2.keys;
    InsertAllKeys(d1, items);
  }

  /** With disjoint keys, `d1 | d2` lists the keys of `d1` and then those of `d2`. */
  lemma MergeDisjointKeys<V>(d1: Dict<V>, d2: Dict<V>)
    requires d1.values.Keys !! d2.values.Keys
    ensures Merge(d1, d2).keys == d1.keys + d2.keys
  {
    WithoutNone(d2.keys, d1.values.Keys);
  }

  // ----- Re-keying -----

  /** Inserting the re-keyed pairs yields the images of the keys. */
  lemma RekeyItemsKeys<V>(d: Dict<V>, f: string -> string)
    ensures InsertAll(Empty(), RekeyItems(Items(d), f)).values.Keys == set k | k in d.values :: f(k)
  {
    var items := RekeyItems(Items(d), f);
    assert InsertAll(Empty(), items).values.Keys == LastWins(items).Keys by {
      InsertAllValues(Empty(), items);
    }
    LastWinsKeys(items);
    RekeyItemsImage(d, f);
  }

  /** The keys of the re-keyed pairs are the images of the keys. */
  lemma RekeyItemsImage<V>(d: Dict<V>, f: string -> string)
    ensures (set i | 0 <= i < |RekeyItems(Items(d), f)| :: RekeyItems(Items(d), f)[i].0) == set k | k in d.values :: f(k)
  {
    var items := RekeyItems(Items(d), f);
    var images := set i | 0 <= i < |items| :: items[i].0;
    forall k | k in d.values ensures f(k) in images {
      var i :| 0 <= i < |d.keys| && d.keys[i] == k;
      assert items[i].0 == f(k);
    }
    forall x | x in images ensures x in set k | k in d.values :: f(k) {
      var i :| 0 <= i < |items| && items[i].0 == x;
      assert d.keys[i] in d.values;
    }
  }

  /** A key of `{f(k): v ...}` takes the value of the LAST key, in insertion order, that maps to it. */
  lemma RekeyValue<V>(d: Dict<V>, f: string -> string, j: nat)
    requires j < |d.keys|
    requires forall j' :: j < j' < |d.keys| ==> f(d.keys[j']) != f(d.keys[j])
    ensures f(d.keys[j]) in Rekey(d, f).values
    ensures Rekey(d, f).values[f(d.keys[j])] == d.values[d.keys[j]]
  {
    var items := RekeyItems(Items(d), f);
    InsertAllValues(Empty(), items);
    LastWinsAt(items, j);
  }

  /** When `f` does not merge two keys, `{f(k): v ...}` keeps every value under the image of its key. */
  lemma RekeyInjective<V>(d: Dict<V>, f: string -> string)
    requires forall a, b :: a in d.values && b in d.values && f(a) == f(b) ==> a == b
    ensures forall k :: k in d.values ==> f(k) in Rekey(d, f).values && Rekey(d, f).values[f(k)] == d.values[k]
  {
    forall k | k in d.values
      ensures f(k) in Rekey(d, f).values && Rekey(d, f).values[f(k)] == d.values[k]
    {
      var j :| 0 <= j < |d.keys| && d.keys[j] == k;
      RekeyValue(d, f, j);
    }
  }


  /** After `d1 | d2` with disjoint keys, a key of `d2` whose image no other key of `d2` shares
      keeps the value of `d2` under its image, even when a key of `d1` has the same image. */
  lemma RekeyMergeRightWins<V>(d1: Dict<V>, d2: Dict<V>, f: string -> string, k: string)
    requires d1.values.Keys !! d2.values.Keys
    requires k in d2.values
    requires forall b :: b in d2.values && f(b) == f(k) ==> b == k
    ensures f(k) in Rekey(Merge(d1, d2), f).values
    ensures Rekey(Merge(d1, d2), f).values[f(k)] == d2.values[k]
  {
    var m := Merge(d1, d2);
    assert m.keys == d1.keys + d2.keys by {
      MergeDisjointKeys(d1, d2);
    }
    var jm := LastWithImage(d1.keys, d2.keys, d2.values.Keys, f, k);
    RekeyValue(m, f, jm);
  }

  /** After `d1 | d2`, a key of `d1` that `d2` lacks keeps the value of `d1` under its image when
      no later key of `d1` shares that image and every key of `d2` with that image is also a key
      of `d1`: such keys keep their earlier places, and no key appended after them competes. */
  lemma RekeyMergeLeftWins<V>(d1: Dict<V>, d2: Dict<V>, f: string -> string, j: nat)
    requires j < |d1.keys| && d1.keys[j] !in d2.values
    requires forall j' :: j < j' < |d1.keys| ==> f(d1.keys[j']) != f(d1.keys[j])
    requires forall b :: b in d2.values && f(b) == f(d1.keys[j]) ==> b in d1.values
    ensures f(d1.keys[j]) in Rekey(Merge(d1, d2), f).values
    ensures Rekey(Merge(d1, d2), f).values[f(d1.keys[j])] == d1.values[d1.keys[j]]
  {
    var m := Merge(d1, d2);
    var rest := Without(d2.keys, d1.values.Keys);
    assert m.keys == d1.keys + rest;
    assert m.keys[j] == d1.keys[j];
    AppendedImagesDiffer(d2, d1.values.Keys, f, f(d1.keys[j]));
    LaterKeysAbsent(m.keys, d1.keys, rest, f, j);
    RekeyValue(m, f, j);
  }

  /** The keys the merge appends are keys of `d2` outside `keys1`, so none has an image that only
      keys in `keys1` have. */
  lemma AppendedImagesDiffer<V>(d2: Dict<V>, keys1: set<string>, f: string -> string, y: string)
    requires forall b :: b in d2.values && f(b) == y ==> b in keys1
    ensures forall i :: 0 <= i < |Without(d2.keys, keys1)| ==> f(Without(d2.keys, keys1)[i]) != y
  {
    var rest := Without(d2.keys, keys1);
    WithoutMembers(d2.keys, keys1);
    forall i | 0 <= i < |rest| ensures f(rest[i]) != y {
      assert rest[i] in rest;
    }
  }

  /** Helper for RekeyMergeLeftWins, stated on the key sequences alone. */
  lemma LaterKeysAbsent(ks: seq<string>, ks1: seq<string>, rest: seq<string>, f: string -> string, j: nat)
    requires ks == ks1 + rest
    requires j < |ks1|
    requires forall j' :: j < j' < |ks1| ==> f(ks1[j']) != f(ks1[j])
    requires forall i :: 0 <= i < |rest| ==> f(rest[i]) != f(ks1[j])
    ensures forall j' :: j < j' < |ks| ==> f(ks[j']) != f(ks[j])
  {
    forall j' | j < j' < |ks| ensures f(ks[j']) != f(ks[j]) {
      if j' < |ks1| {
        assert ks[j'] == ks1[j'];
      } else {
        assert ks[j'] == rest[j' - |ks1|];
      }
    }
  }

  /** The position of such a key in the merged key sequence; no later key shares its image. */
  lemma LastWithImage(ks1: seq<string>, ks2: seq<string>, keys2: set<string>, f: string -> string, k: string)
    returns (jm: nat)
    requires forall i, i' :: 0 <= i < i' < |ks2| ==> ks2[i] != ks2[i']
    requires forall i :: 0 <= i < |ks2| ==> ks2[i] in keys2
    requires k in ks2
    requires forall b :: b in keys2 && f(b) == f(k) ==> b == k
    ensures jm < |ks1 + ks2| && (ks1 + ks2)[jm] == k
    ensures forall j' :: jm < j' < |ks1 + ks2| ==> f((ks1 + ks2)[j']) != f(k)
  {
    var ks := ks1 + ks2;
    var j :| 0 <= j < |ks2| && ks2[j] == k;
    jm := |ks1| + j;
    forall j' | jm < j' < |ks| ensures f(ks[j']) != f(k) {
      assert ks[j'] == ks2[j' - |ks1|];
    }
  }
}
