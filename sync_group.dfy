/** The two grouping helpers of the MySQL-to-MongoDB sync script. Each
    walks the rows of a query result once and gathers, per key, the values
    of the rows whose key and value are both non-null: `groupToSetMap`
    into a set (JavaScript sets keep first-insertion order, so a set is
    modelled as a duplicate-free sequence in that order), `groupToArrMap`
    into an array that keeps duplicates and row order. */
module SyncGroup {
  import opened Js

  /** A row the helpers keep: its key and its value are both non-null. */
  predicate Kept(r: Record, keyField: string, valField: string)
  {
    !IsNullish(Get(r, keyField)) && !IsNullish(Get(r, valField))
  }

  /** The values of the kept rows whose key is `k`, in row order. */
  function ValuesFor(rows: seq<Record>, keyField: string, valField: string, k: JsValue): seq<JsValue>
  {
    if rows == [] then []
    else
      var r := rows[|rows| - 1];
      ValuesFor(rows[..|rows| - 1], keyField, valField, k)
      + (if Kept(r, keyField, valField) && Get(r, keyField) == k then [Get(r, valField)] else [])
  }

  /** The keys of the kept rows, one entry per kept row, in row order. */
  function KeySeq(rows: seq<Record>, keyField: string, valField: string): seq<JsValue>
  {
    if rows == [] then []
    else
      var r := rows[|rows| - 1];
      KeySeq(rows[..|rows| - 1], keyField, valField)
      + (if Kept(r, keyField, valField) then [Get(r, keyField)] else [])
  }

  /** The keys of the kept rows. */
  function KeptKeys(rows: seq<Record>, keyField: string, valField: string): set<JsValue>
  {
    set i | 0 <= i < |rows| && Kept(rows[i], keyField, valField) :: Get(rows[i], keyField)
  }

  predicate NoDuplicates(s: seq<JsValue>)
  {
    forall i, j :: 0 <= i < j < |s| ==> s[i] != s[j]
  }

  /** The first occurrence of every element, in order: what `Array.from`
      yields for a set filled with `s` one element at a time. */
  function Distinct(s: seq<JsValue>): seq<JsValue>
  {
    if s == [] then []
    else
      var d := Distinct(s[..|s| - 1]);
      if s[|s| - 1] in d then d else d + [s[|s| - 1]]
  }

  /** The map `groupToArrMap` returns. */
  function ArrMapOf(rows: seq<Record>, keyField: string, valField: string): map<JsValue, seq<JsValue>>
  {
    map k | k in KeptKeys(rows, keyField, valField) :: ValuesFor(rows, keyField, valField, k)
  }

  function DistinctValues(a: map<JsValue, seq<JsValue>>): map<JsValue, seq<JsValue>>
  {
    map k | k in a :: Distinct(a[k])
  }

  /** The map `groupToSetMap` returns: the same keys as `groupToArrMap`,
      each value list without its repetitions. */
  function SetMapOf(rows: seq<Record>, keyField: string, valField: string): map<JsValue, seq<JsValue>>
  {
    DistinctValues(ArrMapOf(rows, keyField, valField))
  }

  // ---------- properties of the specification ----------

  lemma {:induction false} DistinctMembership(s: seq<JsValue>, x: JsValue)
    ensures x in Distinct(s) <==> x in s
  {
    if s != [] {
      DistinctMembership(s[..|s| - 1], x);
      assert s == s[..|s| - 1] + [s[|s| - 1]];
    }
  }

  lemma {:induction false} DistinctHasNoDuplicates(s: seq<JsValue>)
    ensures NoDuplicates(Distinct(s))
  {
    if s != [] {
      DistinctHasNoDuplicates(s[..|s| - 1]);
    }
  }

  /** A value is listed under `k` exactly when some kept row has key `k`
      and that value. */
  lemma {:induction false} ValuesForMembership(rows: seq<Record>, keyField: string, valField: string, k: JsValue, v: JsValue)
    ensures v in ValuesFor(rows, keyField, valField, k) <==>
      exists i :: 0 <= i < |rows| && Kept(rows[i], keyField, valField)
        && Get(rows[i], keyField) == k && Get(rows[i], valField) == v
  {
    if rows != [] {
      var pre := rows[..|rows| - 1];
      ValuesForMembership(pre, keyField, valField, k, v);
      assert forall i :: 0 <= i < |pre| ==> pre[i] == rows[i];
    }
  }

  /** A key has values exactly when some row with that key is kept. */
  lemma {:induction false} ValuesForNonEmpty(rows: seq<Record>, keyField: string, valField: string, k: JsValue)
    ensures ValuesFor(rows, keyField, valField, k) != [] <==> k in KeptKeys(rows, keyField, valField)
  {
    if rows != [] {
      var pre := rows[..|rows| - 1];
      var r := rows[|rows| - 1];
      ValuesForNonEmpty(pre, keyField, valField, k);
      KeptKeysSnoc(pre, r, keyField, valField);
      assert rows == pre + [r];
    }
  }

  lemma KeptKeysSnoc(pre: seq<Record>, r: Record, keyField: string, valField: string)
    ensures KeptKeys(pre + [r], keyField, valField)
      == KeptKeys(pre, keyField, valField) + (if Kept(r, keyField, valField) then {Get(r, keyField)} else {})
  {
    var rows := pre + [r];
    assert forall i :: 0 <= i < |pre| ==> rows[i] == pre[i];
    if Kept(r, keyField, valField) {
      assert Get(rows[|pre|], keyField) in KeptKeys(rows, keyField, valField);
    }
  }

  lemma {:induction false} KeySeqMembership(rows: seq<Record>, keyField: string, valField: string, k: JsValue)
    ensures k in KeySeq(rows, keyField, valField) <==> k in KeptKeys(rows, keyField, valField)
  {
    if rows != [] {
      var pre := rows[..|rows| - 1];
      var r := rows[|rows| - 1];
      KeySeqMembership(pre, keyField, valField, k);
      KeptKeysSnoc(pre, r, keyField, valField);
      assert rows == pre + [r];
    }
  }

  /** Appending a row changes the values of its key only, by appending its
      value when the row is kept. */
  lemma ValuesForSnoc(pre: seq<Record>, r: Record, keyField: string, valField: string, k: JsValue)
    ensures ValuesFor(pre + [r], keyField, valField, k)
      == ValuesFor(pre, keyField, valField, k)
         + (if Kept(r, keyField, valField) && Get(r, keyField) == k then [Get(r, valField)] else [])
  {
    assert (pre + [r])[..|pre|] == pre;
  }

  /** Appending a row leaves the values of every other key alone. */
  lemma ValuesForOther(pre: seq<Record>, r: Record, keyField: string, valField: string, k: JsValue)
    requires !Kept(r, keyField, valField) || Get(r, keyField) != k
    ensures ValuesFor(pre + [r], keyField, valField, k) == ValuesFor(pre, keyField, valField, k)
  {
    assert (pre + [r])[..|pre|] == pre;
    var vs := ValuesFor(pre, keyField, valField, k);
    assert vs + [] == vs;
  }

  lemma DistinctSnoc(s: seq<JsValue>, x: JsValue)
    ensures Distinct(s + [x]) == if x in Distinct(s) then Distinct(s) else Distinct(s) + [x]
  {
    assert (s + [x])[..|s|] == s;
  }

  lemma DistinctValuesUpdate(a: map<JsValue, seq<JsValue>>, k: JsValue, vs: seq<JsValue>)
    ensures DistinctValues(a[k := vs]) == DistinctValues(a)[k := Distinct(vs)]
  {
    var l, r := DistinctValues(a[k := vs]), DistinctValues(a)[k := Distinct(vs)];
    assert l.Keys == r.Keys;
  }

  lemma ArrMapSnoc(pre: seq<Record>, r: Record, keyField: string, valField: string)
    ensures !Kept(r, keyField, valField) ==>
      ArrMapOf(pre + [r], keyField, valField) == ArrMapOf(pre, keyField, valField)
    ensures Kept(r, keyField, valField) ==>
      var k := Get(r, keyField);
      ArrMapOf(pre + [r], keyField, valField)
        == ArrMapOf(pre, keyField, valField)[k := ValuesFor(pre, keyField, valField, k) + [Get(r, valField)]]
  {
    KeptKeysSnoc(pre, r, keyField, valField);
    var after, before := ArrMapOf(pre + [r], keyField, valField), ArrMapOf(pre, keyField, valField);
    var k := Get(r, keyField);
    forall k' | k' in after && (!Kept(r, keyField, valField) || k' != k)
      ensures k' in before && after[k'] == before[k']
    {
      ValuesForOther(pre, r, keyField, valField, k');
    }
    if Kept(r, keyField, valField) {
      ValuesForSnoc(pre, r, keyField, valField, k);
      assert after.Keys == before.Keys + {k};
    } else {
      assert after.Keys == before.Keys;
    }
  }

  /** `m.get(k)`, or the empty set when `k` has none yet. */
  function SetAt(m: map<JsValue, seq<JsValue>>, k: JsValue): seq<JsValue>
  {
    if k in m then m[k] else []
  }

  /** `set.add(v)`. */
  function AddToSet(s: seq<JsValue>, v: JsValue): seq<JsValue>
  {
    if v in s then s else s + [v]
  }

  /** A row `groupToSetMap` skips changes nothing. */
  lemma SetMapSkip(pre: seq<Record>, r: Record, keyField: string, valField: string)
    requires !Kept(r, keyField, valField)
    ensures SetMapOf(pre + [r], keyField, valField) == SetMapOf(pre, keyField, valField)
  {
    ArrMapSnoc(pre, r, keyField, valField);
  }

  /** A kept row creates its key's set if needed and adds its value unless
      the set already holds it. */
  lemma SetMapAdd(pre: seq<Record>, r: Record, keyField: string, valField: string)
    requires Kept(r, keyField, valField)
    ensures SetMapOf(pre + [r], keyField, valField)
      == SetMapOf(pre, keyField, valField)[Get(r, keyField) :=
           AddToSet(SetAt(SetMapOf(pre, keyField, valField), Get(r, keyField)), Get(r, valField))]
  {
    ArrMapSnoc(pre, r, keyField, valField);
    var arr, k, v := ArrMapOf(pre, keyField, valField), Get(r, keyField), Get(r, valField);
    var vs := ValuesFor(pre, keyField, valField, k);
    ValuesForNonEmpty(pre, keyField, valField, k);
    assert k in arr ==> arr[k] == vs;
    DistinctSnoc(vs, v);
    DistinctValuesUpdate(arr, k, vs + [v]);
  }

  /** Row `i` of the loop in `groupToSetMap`, as a step from the map of the
      rows before it. */
  lemma SetMapPrefixStep(rows: seq<Record>, i: nat, keyField: string, valField: string)
    requires i < |rows|
    ensures var m, k, v := SetMapOf(rows[..i], keyField, valField), Get(rows[i], keyField), Get(rows[i], valField);
      SetMapOf(rows[..i + 1], keyField, valField)
        == if Kept(rows[i], keyField, valField) then m[k := AddToSet(SetAt(m, k), v)] else m
  {
    assert rows[..i + 1] == rows[..i] + [rows[i]];
    if Kept(rows[i], keyField, valField) {
      SetMapAdd(rows[..i], rows[i], keyField, valField);
    } else {
      SetMapSkip(rows[..i], rows[i], keyField, valField);
    }
  }

  /** Row `i` of the loop in `groupToArrMap`, as a step from the map of the
      rows before it. */
  lemma ArrMapPrefixStep(rows: seq<Record>, i: nat, keyField: string, valField: string)
    requires i < |rows|
    ensures var m, k, v := ArrMapOf(rows[..i], keyField, valField), Get(rows[i], keyField), Get(rows[i], valField);
      ArrMapOf(rows[..i + 1], keyField, valField)
        == if Kept(rows[i], keyField, valField) then m[k := SetAt(m, k) + [v]] else m
  {
    var pre := rows[..i];
    assert rows[..i + 1] == pre + [rows[i]];
    ArrMapSnoc(pre, rows[i], keyField, valField);
    var k := Get(rows[i], keyField);
    ValuesForNonEmpty(pre, keyField, valField, k);
  }

  /** No rows give the empty map. */
  lemma GroupOfNoRows(keyField: string, valField: string)
    ensures ArrMapOf([], keyField, valField) == map[]
    ensures SetMapOf([], keyField, valField) == map[]
  {
    assert KeptKeys([], keyField, valField) == {};
  }

  /** `v` is in the set under `k` exactly when some row with both fields
      non-null has key `k` and value `v`. */
  lemma SetMapMembership(rows: seq<Record>, keyField: string, valField: string, k: JsValue, v: JsValue)
    ensures (k in SetMapOf(rows, keyField, valField) && v in SetMapOf(rows, keyField, valField)[k]) <==>
      exists i :: 0 <= i < |rows| && Kept(rows[i], keyField, valField)
        && Get(rows[i], keyField) == k && Get(rows[i], valField) == v
  {
    ValuesForMembership(rows, keyField, valField, k, v);
    ValuesForNonEmpty(rows, keyField, valField, k);
    var vs := ValuesFor(rows, keyField, valField, k);
    DistinctMembership(vs, v);
    if v in vs {
      assert vs != [];
    }
  }

  /** Every key of the set map has a non-empty set, and no null key or
      value ever enters it. */
  lemma SetMapWellFormed(rows: seq<Record>, keyField: string, valField: string, k: JsValue)
    requires k in SetMapOf(rows, keyField, valField)
    ensures SetMapOf(rows, keyField, valField)[k] != []
    ensures NoDuplicates(SetMapOf(rows, keyField, valField)[k])
    ensures !IsNullish(k)
    ensures forall v :: v in SetMapOf(rows, keyField, valField)[k] ==> !IsNullish(v)
  {
    var vs := ValuesFor(rows, keyField, valField, k);
    ValuesForNonEmpty(rows, keyField, valField, k);
    DistinctMembership(vs, vs[0]);
    DistinctHasNoDuplicates(vs);
    forall v | v in SetMapOf(rows, keyField, valField)[k]
      ensures !IsNullish(v)
    {
      DistinctMembership(vs, v);
      ValuesForMembership(rows, keyField, valField, k, v);
    }
  }

  /** The length of the list under `k`, 0 when there is none. */
  function LengthAt(m: map<JsValue, seq<JsValue>>, k: JsValue): nat
  {
    if k in m then |m[k]| else 0
  }

  /** The total length of the lists under the given keys. */
  function SumLengths(keys: seq<JsValue>, m: map<JsValue, seq<JsValue>>): nat
  {
    if keys == [] then 0
    else SumLengths(keys[..|keys| - 1], m) + LengthAt(m, keys[|keys| - 1])
  }

  lemma {:induction false} SumLengthsUpdate(keys: seq<JsValue>, m: map<JsValue, seq<JsValue>>, k: JsValue, vs: seq<JsValue>)
    requires NoDuplicates(keys)
    ensures k !in keys ==> SumLengths(keys, m[k := vs]) == SumLengths(keys, m)
    ensures k in keys ==> SumLengths(keys, m[k := vs]) + LengthAt(m, k) == SumLengths(keys, m) + |vs|
  {
    if keys != [] {
      var init := keys[..|keys| - 1];
      assert NoDuplicates(init);
      SumLengthsUpdate(init, m, k, vs);
      assert keys == init + [keys[|keys| - 1]];
    }
  }

  /** `groupToArrMap` loses nothing: over its keys, in the order they were
      first seen, the lists hold as many values as there are rows with a
      non-null key and value. */
  lemma {:induction false} ArrMapTotal(rows: seq<Record>, keyField: string, valField: string)
    ensures SumLengths(Distinct(KeySeq(rows, keyField, valField)), ArrMapOf(rows, keyField, valField))
      == |KeySeq(rows, keyField, valField)|
  {
    if rows == [] {
      GroupOfNoRows(keyField, valField);
    } else {
      var pre, r := rows[..|rows| - 1], rows[|rows| - 1];
      assert rows == pre + [r];
      ArrMapTotal(pre, keyField, valField);
      ArrMapSnoc(pre, r, keyField, valField);
      var keys := KeySeq(pre, keyField, valField);
      var order := Distinct(keys);
      var arr := ArrMapOf(pre, keyField, valField);
      if Kept(r, keyField, valField) {
        var k, v := Get(r, keyField), Get(r, valField);
        var vs := ValuesFor(pre, keyField, valField, k);
        assert KeySeq(rows, keyField, valField) == keys + [k];
        DistinctSnoc(keys, k);
        DistinctMembership(keys, k);
        KeySeqMembership(pre, keyField, valField, k);
        ValuesForNonEmpty(pre, keyField, valField, k);
        DistinctHasNoDuplicates(keys);
        SumLengthsUpdate(order, arr, k, vs + [v]);
        if k in order {
          assert LengthAt(arr, k) == |vs|;
        } else {
          var order' := order + [k];
          assert order'[..|order'| - 1] == order;
        }
      } else {
        assert KeySeq(rows, keyField, valField) == keys;
      }
    }
  }

  // ---------- the helpers ----------

  /** `groupToSetMap(rows, keyField, valField)`. */
  method GroupToSetMap(rows: seq<Record>, keyField: string, valField: string) returns (m: map<JsValue, seq<JsValue>>)
    ensures m == SetMapOf(rows, keyField, valField)
  {
    m := map[];
    assert rows[..0] == [];
    GroupOfNoRows(keyField, valField);
    for i := 0 to |rows|
      invariant m == SetMapOf(rows[..i], keyField, valField)
    {
      SetMapPrefixStep(rows, i, keyField, valField);
      var r := rows[i];
      var k := Get(r, keyField);
      var v := Get(r, valField);
      if IsNullish(k) || IsNullish(v) {
        continue;
      }
      // a key met for the first time starts with an empty set
      var values := if k in m then m[k] else [];
      if v !in values {
        values := values + [v];
      }
      m := m[k := values];
    }
    assert rows[..|rows|] == rows;
  }

  /** `groupToArrMap(rows, keyField, valField)`. */
  method GroupToArrMap(rows: seq<Record>, keyField: string, valField: string) returns (m: map<JsValue, seq<JsValue>>)
    ensures m == ArrMapOf(rows, keyField, valField)
  {
    m := map[];
    assert rows[..0] == [];
    GroupOfNoRows(keyField, valField);
    for i := 0 to |rows|
      invariant m == ArrMapOf(rows[..i], keyField, valField)
    {
      ArrMapPrefixStep(rows, i, keyField, valField);
      var r := rows[i];
      var k := Get(r, keyField);
      var v := Get(r, valField);
      if IsNullish(k) || IsNullish(v) {
        continue;
      }
      // a key met for the first time starts with an empty array
      var values := if k in m then m[k] else [];
      m := m[k := values + [v]];
    }
    assert rows[..|rows|] == rows;
  }
}
