/** What the hash table promises: any run of its operations behaves as a finite map, frees every owned pointer exactly
    once, stays below its threshold, and a rehash that is triggered by put doubles the table once. */
module HashLaws {
  import opened Options
  import opened HashSpec

  // ---------------------------------------------------------------- entries as a map

  function Assoc<K(==), V>(entries: Row<K, V>): map<K, Entry<K, V>> {
    if entries == [] then map[] else Assoc(entries[1..])[entries[0].key.data := entries[0]]
  }

  ghost predicate NoKey<K(!new), V(!new)>(entries: Row<K, V>, key: K) {
    forall e :: e in entries ==> e.key.data != key
  }

  ghost predicate Distinct<K, V>(entries: Row<K, V>) {
    forall i, j :: 0 <= i < j < |entries| ==> entries[i].key.data != entries[j].key.data
  }

  lemma {:induction false} AssocDomain<K(!new), V(!new)>(entries: Row<K, V>, key: K)
    ensures key in Assoc(entries) <==> !NoKey(entries, key)
    ensures key in Assoc(entries) ==> Assoc(entries)[key] in entries && Assoc(entries)[key].key.data == key
  {
    if entries != [] {
      AssocDomain(entries[1..], key);
      assert forall e :: e in entries <==> e == entries[0] || e in entries[1..];
    }
  }

  lemma {:induction false} AssocInsert<K(!new), V(!new)>(left: Row<K, V>, e: Entry<K, V>, right: Row<K, V>)
    requires NoKey(left, e.key.data)
    ensures Assoc(left + [e] + right) == Assoc(left + right)[e.key.data := e]
  {
    if left == [] {
      assert left + [e] + right == [e] + right && left + right == right;
    } else {
      assert left[0] in left && forall x :: x in left[1..] ==> x in left;
      AssocInsert(left[1..], e, right);
      assert (left + [e] + right)[1..] == left[1..] + [e] + right;
      assert (left + right)[1..] == left[1..] + right;
    }
  }

  lemma {:induction false} DistinctInsert<K(!new), V(!new)>(left: Row<K, V>, e: Entry<K, V>, right: Row<K, V>)
    ensures Distinct(left + [e] + right) <==> Distinct(left + right) && NoKey(left + right, e.key.data)
  {
    var with, without := left + [e] + right, left + right;
    var n := |left|;
    assert forall i :: 0 <= i < n ==> with[i] == without[i];
    assert with[n] == e;
    assert forall i :: n <= i < |without| ==> with[i + 1] == without[i];
    if Distinct(with) {
      forall i, j | 0 <= i < j < |without|
        ensures without[i].key.data != without[j].key.data
      {
        assert without[i] == with[if i < n then i else i + 1] && without[j] == with[if j < n then j else j + 1];
      }
      forall x | x in without
        ensures x.key.data != e.key.data
      {
        var i :| 0 <= i < |without| && without[i] == x;
        assert x == with[if i < n then i else i + 1];
      }
    }
    if Distinct(without) && NoKey(without, e.key.data) {
      forall i, j | 0 <= i < j < |with|
        ensures with[i].key.data != with[j].key.data
      {
        if i != n { assert with[i] == without[if i < n then i else i - 1] && with[i] in without; }
        if j != n { assert with[j] == without[if j < n then j else j - 1] && with[j] in without; }
      }
    }
  }

  // Exchanging an entry for one with the same key.
  lemma {:induction false} Exchange<K(!new), V(!new)>(left: Row<K, V>, was: Entry<K, V>, e: Entry<K, V>, right: Row<K, V>)
    requires was.key.data == e.key.data && NoKey(left, e.key.data)
    ensures Assoc(left + [e] + right) == Assoc(left + [was] + right)[e.key.data := e]
    ensures Distinct(left + [was] + right) ==> Distinct(left + [e] + right)
  {
    AssocInsert(left, e, right);
    AssocInsert(left, was, right);
    DistinctInsert(left, e, right);
    DistinctInsert(left, was, right);
  }

  lemma {:induction false} Omit<K(!new), V(!new)>(left: Row<K, V>, e: Entry<K, V>, right: Row<K, V>)
    requires NoKey(left, e.key.data) && Distinct(left + [e] + right)
    ensures Distinct(left + right) && Assoc(left + right) == Assoc(left + [e] + right) - {e.key.data}
  {
    AssocInsert(left, e, right);
    DistinctInsert(left, e, right);
    AssocDomain(left + right, e.key.data);
  }

  lemma {:induction false} AssocSize<K(!new), V(!new)>(entries: Row<K, V>)
    requires Distinct(entries)
    ensures |Assoc(entries)| == |entries|
  {
    if entries != [] {
      AssocSize(entries[1..]);
      assert entries == [] + [entries[0]] + entries[1..] && [] + entries[1..] == entries[1..];
      DistinctInsert([], entries[0], entries[1..]);
      AssocDomain(entries[1..], entries[0].key.data);
    }
  }

  // ---------------------------------------------------------------- the invariant

  /** Every entry is in the row of its key. */
  ghost predicate Homes<K(!new), V(!new)>(hash: K -> int, rows: seq<Row<K, V>>) {
    forall b, e :: 0 <= b < |rows| && e in rows[b] ==> Home(hash, e.key.data, |rows|) == b
  }

  ghost predicate Inv<K(!new), V(!new)>(hash: K -> int, rows: seq<Row<K, V>>) {
    |rows| > 0 && Homes(hash, rows) && Distinct(Flatten(rows))
  }

  function View<K(==), V>(s: State<K, V>): map<K, Entry<K, V>> {
    Assoc(Flatten(s.rows))
  }

  /** What every operation leaves: the number of entries is at most the threshold. */
  predicate Fits<K, V>(load: real, s: State<K, V>) {
    Total(s.rows) <= Threshold(|s.rows|, load)
  }

  lemma {:induction false} InFlatten<T(!new)>(rows: seq<seq<T>>, x: T)
    ensures x in Flatten(rows) <==> exists b :: 0 <= b < |rows| && x in rows[b]
  {
    if rows != [] {
      InFlatten(rows[1..], x);
      if x in rows[0] {
      } else {
        assert forall b :: 1 <= b < |rows| ==> rows[b] == rows[1..][b - 1];
        assert forall b :: 0 <= b < |rows| - 1 ==> rows[b + 1] == rows[1..][b];
      }
    }
  }

  // The entries around position i of row b, in the order of the rows.
  function Before<T>(rows: seq<seq<T>>, b: nat, i: nat): seq<T>
    requires b < |rows| && i <= |rows[b]|
  {
    Flatten(rows[..b]) + rows[b][..i]
  }

  function After<T>(rows: seq<seq<T>>, b: nat, i: nat): seq<T>
    requires b < |rows| && i <= |rows[b]|
  {
    rows[b][i..] + Flatten(rows[b + 1..])
  }

  lemma {:induction false} Regroup<T>(left: seq<T>, a: seq<T>, mid: seq<T>, c: seq<T>, right: seq<T>)
    ensures left + (a + mid + c) + right == (left + a) + mid + (c + right)
  {
  }

  lemma {:induction false} Around<T>(rows: seq<seq<T>>, b: nat, i: nat, n: nat, mid: seq<T>)
    requires b < |rows| && i + n <= |rows[b]|
    ensures Flatten(rows) == Before(rows, b, i) + rows[b][i..i + n] + After(rows, b, i + n)
    ensures Flatten(rows[b := rows[b][..i] + mid + rows[b][i + n..]]) == Before(rows, b, i) + mid + After(rows, b, i + n)
  {
    hide Flatten;
    var first, was, last := rows[b][..i], rows[b][i..i + n], rows[b][i + n..];
    FlattenUpdate(rows, b, first + mid + last);
    assert rows[b] == first + was + last;
    Regroup(Flatten(rows[..b]), first, was, last, Flatten(rows[b + 1..]));
    Regroup(Flatten(rows[..b]), first, mid, last, Flatten(rows[b + 1..]));
  }

  // A key is only in its own row.
  lemma {:induction false} OnlyHome<K(!new), V(!new)>(hash: K -> int, rows: seq<Row<K, V>>, key: K)
    requires |rows| > 0 && Homes(hash, rows)
    ensures var b := Home(hash, key, |rows|); var i := Find(rows[b], key);
      NoKey(Before(rows, b, i), key) && (i == |rows[b]| ==> NoKey(Flatten(rows), key))
  {
    var b := Home(hash, key, |rows|);
    var i := Find(rows[b], key);
    forall e | e in Flatten(rows[..b]) + Flatten(rows[b + 1..])
      ensures e.key.data != key
    {
      if e in Flatten(rows[..b]) {
        InFlatten(rows[..b], e);
        var c :| 0 <= c < b && e in rows[..b][c];
        assert e in rows[c];
      } else {
        InFlatten(rows[b + 1..], e);
        var c :| 0 <= c < |rows| - b - 1 && e in rows[b + 1..][c];
        assert e in rows[b + 1 + c];
      }
    }
    FlattenUpdate(rows, b, rows[b]);
  }

  /** get finds the entry of the map. */
  lemma {:induction false} GetLaw<K(!new), V(!new)>(hash: K -> int, s: State<K, V>, key: K)
    requires Inv(hash, s.rows)
    ensures Get(hash, s, key) == if key in View(s) then Some(View(s)[key]) else None
  {
    hide Flatten, Assoc, Distinct, NoKey, Homes;
    var b := Home(hash, key, |s.rows|);
    var i := Find(s.rows[b], key);
    OnlyHome(hash, s.rows, key);
    AssocDomain(Flatten(s.rows), key);
    if i < |s.rows[b]| {
      Around(s.rows, b, i, 1, []);
      var e := s.rows[b][i];
      assert s.rows[b][i..i + 1] == [e];
      AssocInsert(Before(s.rows, b, i), e, After(s.rows, b, i + 1));
    }
  }

  // Rows that are changed in one row by entries that belong there keep every entry at home.
  lemma {:induction false} HomesUpdate<K(!new), V(!new)>(hash: K -> int, rows: seq<Row<K, V>>, b: nat, row: Row<K, V>)
    requires |rows| > 0 && b < |rows| && Homes(hash, rows)
    requires forall e :: e in row ==> e in rows[b] || Home(hash, e.key.data, |rows|) == b
    ensures Homes(hash, rows[b := row])
  {
  }

  lemma {:induction false} ReplaceLaw<K(!new), V(!new)>(hash: K -> int, s: State<K, V>, e: Entry<K, V>)
    requires Inv(hash, s.rows) && e.key.data in View(s)
    ensures var b := Home(hash, e.key.data, |s.rows|); var i := Find(s.rows[b], e.key.data);
      i < |s.rows[b]| && s.rows[b][i] == View(s)[e.key.data] &&
      var s' := Replace(s, b, i, e);
      Inv(hash, s'.rows) && View(s') == View(s)[e.key.data := e] && Total(s'.rows) == Total(s.rows)
  {
    hide Assoc, Distinct, NoKey, Flatten;
    GetLaw(hash, s, e.key.data);
    var b := Home(hash, e.key.data, |s.rows|);
    var i := Find(s.rows[b], e.key.data);
    var was := s.rows[b][i];
    var left, right := Before(s.rows, b, i), After(s.rows, b, i + 1);
    OnlyHome(hash, s.rows, e.key.data);
    Around(s.rows, b, i, 1, [e]);
    assert s.rows[b][i..i + 1] == [was];
    assert s.rows[b][..i] + [e] + s.rows[b][i + 1..] == s.rows[b][i := e];
    Exchange(left, was, e, right);
    HomesUpdate(hash, s.rows, b, s.rows[b][i := e]);
  }

  lemma {:induction false} InsertLaw<K(!new), V(!new)>(hash: K -> int, s: State<K, V>, e: Entry<K, V>)
    requires Inv(hash, s.rows) && e.key.data !in View(s)
    ensures var b := Home(hash, e.key.data, |s.rows|);
      Find(s.rows[b], e.key.data) == |s.rows[b]| &&
      var s' := s.(rows := s.rows[b := [e] + s.rows[b]]);
      Inv(hash, s'.rows) && View(s') == View(s)[e.key.data := e] && Total(s'.rows) == Total(s.rows) + 1
  {
    GetLaw(hash, s, e.key.data);
    var b := Home(hash, e.key.data, |s.rows|);
    var left, right := Before(s.rows, b, 0), After(s.rows, b, 0);
    Around(s.rows, b, 0, 0, [e]);
    assert s.rows[b][..0] + [e] + s.rows[b][0..] == [e] + s.rows[b];
    assert left + s.rows[b][0..0] + right == left + right;
    AssocDomain(Flatten(s.rows), e.key.data);
    assert forall x :: x in left ==> x in left + right;
    AssocInsert(left, e, right);
    DistinctInsert(left, e, right);
    HomesUpdate(hash, s.rows, b, [e] + s.rows[b]);
  }

  /** remove takes the key out of the map and frees what the entry owns. */
  lemma {:induction false} RemoveLaw<K(!new), V(!new)>(hash: K -> int, s: State<K, V>, key: K)
    requires Inv(hash, s.rows)
    ensures var s' := Remove(hash, s, key);
      Inv(hash, s'.rows) && |s'.rows| == |s.rows| && View(s') == View(s) - {key} && Total(s'.rows) <= Total(s.rows) &&
      s'.freed == if key in View(s) then s.freed + FreeKey(View(s)[key]) + FreeValue(View(s)[key]) else s.freed
  {
    hide Assoc, Distinct, NoKey, Flatten;
    GetLaw(hash, s, key);
    var b := Home(hash, key, |s.rows|);
    var row := s.rows[b];
    var i := Find(row, key);
    if i < |row| {
      var left, right := Before(s.rows, b, i), After(s.rows, b, i + 1);
      OnlyHome(hash, s.rows, key);
      Around(s.rows, b, i, 1, []);
      assert row[i..i + 1] == [row[i]];
      assert row[..i] + [] + row[i + 1..] == row[..i] + row[i + 1..];
      assert left + [] + right == left + right;
      Omit(left, row[i], right);
      HomesUpdate(hash, s.rows, b, row[..i] + row[i + 1..]);
    }
  }

  /** put binds the key in the map and frees what the entry it replaces owned. */
  lemma {:induction false} PutLaw<K(!new), V(!new)>(hash: K -> int, load: real, s: State<K, V>, e: Entry<K, V>)
    requires Inv(hash, s.rows) && load > 0.0
    ensures var s' := Put(hash, load, s, e);
      Inv(hash, s'.rows) && View(s') == View(s)[e.key.data := e] && (Fits(load, s) ==> Fits(load, s')) &&
      s'.freed == if e.key.data in View(s) then s.freed + FreeValue(View(s)[e.key.data]) + FreeKey(View(s)[e.key.data]) else s.freed
    decreases Gap(Total(s.rows) + 1, |s.rows|, load), 1, 0
  {
    hide Inv, View;
    if e.key.data in View(s) {
      ReplaceLaw(hash, s, e);
    } else {
      InsertLaw(hash, s, e);
      var b := Home(hash, e.key.data, |s.rows|);
      var s' := s.(rows := s.rows[b := [e] + s.rows[b]]);
      if Total(s'.rows) > Threshold(|s'.rows|, load) {
        GapCloses(Total(s'.rows), |s'.rows|, load);
        RehashLaw(hash, load, s');
      }
    }
  }

  /** rehash keeps the map, frees nothing and leaves room. */
  lemma {:induction false} RehashLaw<K(!new), V(!new)>(hash: K -> int, load: real, s: State<K, V>)
    requires Inv(hash, s.rows) && load > 0.0
    ensures var s' := Rehash(hash, load, s);
      Inv(hash, s'.rows) && View(s') == View(s) && s'.freed == s.freed && Fits(load, s')
    decreases Gap(Total(s.rows), |s.rows|, load), if Gap(Total(s.rows), |s.rows|, load) == 0 then 3 else 0, 0
  {
    GapCloses(Total(s.rows), |s.rows|, load);
    EmptyTotal<Entry<K, V>>(2 * |s.rows|);
    ThresholdGrows(0, 2 * |s.rows|, load);
    var start := s.(rows := Empty(2 * |s.rows|));
    RefillLaw(hash, load, start, Flatten(s.rows));
    assert View(start) == map[];
  }

  lemma {:induction false} RefillLaw<K(!new), V(!new)>(hash: K -> int, load: real, s: State<K, V>, entries: Row<K, V>)
    requires Inv(hash, s.rows) && load > 0.0 && Fits(load, s) && Distinct(entries)
    requires forall e :: e in entries ==> e.key.data !in View(s)
    ensures var s' := Refill(hash, load, s, entries);
      Inv(hash, s'.rows) && View(s') == View(s) + Assoc(entries) && s'.freed == s.freed && Fits(load, s')
    decreases Gap(Total(s.rows) + |entries|, |s.rows|, load), 2, |entries|
  {
    assert |s.rows| > 0;
    hide Inv, View, Fits, Put, Distinct, Gap, Assoc;
    if entries != [] {
      var e, rest := entries[0], entries[1..];
      GapShrinks(Total(s.rows) + |entries|, Total(s.rows) + 1, |s.rows|, |s.rows|, load);
      var s' := Put(hash, load, s, e);
      GapShrinks(Total(s.rows) + |entries|, Total(s'.rows) + |entries| - 1, |s.rows|, |s'.rows|, load);
      PutLaw(hash, load, s, e);
      DistinctTail(entries);
      forall x | x in rest
        ensures x.key.data !in View(s')
      {
        assert x in entries;
      }
      RefillLaw(hash, load, s', rest);
      assert View(s)[e.key.data := e] + Assoc(rest) == View(s) + Assoc(entries);
    }
  }

  lemma {:induction false} DistinctTail<K(!new), V(!new)>(entries: Row<K, V>)
    requires entries != [] && Distinct(entries)
    ensures Distinct(entries[1..]) && Assoc(entries) == Assoc(entries[1..])[entries[0].key.data := entries[0]]
    ensures entries[0].key.data !in Assoc(entries[1..])
    ensures forall e :: e in entries[1..] ==> e.key.data != entries[0].key.data
  {
    assert entries == [] + [entries[0]] + entries[1..] && [] + entries[1..] == entries[1..];
    DistinctInsert([], entries[0], entries[1..]);
    AssocDomain(entries[1..], entries[0].key.data);
  }

  lemma {:induction false} ClearLaw<K(!new), V(!new)>(hash: K -> int, load: real, s: State<K, V>)
    requires |s.rows| > 0 && load > 0.0
    ensures var s' := Clear(s); Inv(hash, s'.rows) && View(s') == map[] && |s'.rows| == |s.rows| && Fits(load, s')
  {
    EmptyTotal<Entry<K, V>>(|s.rows|);
    ThresholdGrows(0, |s.rows|, load);
  }

  // ---------------------------------------------------------------- rehash triggered by rehash

  /** While the entries fit, refilling does not change the size. */
  lemma {:induction false} RefillStays<K(!new), V(!new)>(hash: K -> int, load: real, s: State<K, V>, entries: Row<K, V>)
    requires |s.rows| > 0 && load > 0.0 && Total(s.rows) + |entries| <= Threshold(|s.rows|, load)
    ensures |Refill(hash, load, s, entries).rows| == |s.rows|
    decreases |entries|
  {
    if entries != [] {
      var e := entries[0];
      var b := Home(hash, e.key.data, |s.rows|);
      FlattenUpdate(s.rows, b, [e] + s.rows[b]);
      RefillStays(hash, load, Put(hash, load, s, e), entries[1..]);
    }
  }

  /** The open question of rehash: a put inside it rehashes again exactly when the entries exceed the threshold of the
      doubled table. */
  lemma {:induction false} RehashDoublesOnce<K(!new), V(!new)>(hash: K -> int, load: real, s: State<K, V>)
    requires Inv(hash, s.rows) && load > 0.0
    ensures |Rehash(hash, load, s).rows| == 2 * |s.rows| <==> Total(s.rows) <= Threshold(2 * |s.rows|, load)
  {
    var s' := Rehash(hash, load, s);
    RehashLaw(hash, load, s);
    AssocSize(Flatten(s.rows));
    AssocSize(Flatten(s'.rows));
    EmptyTotal<Entry<K, V>>(2 * |s.rows|);
    if Total(s.rows) <= Threshold(2 * |s.rows|, load) {
      RefillStays(hash, load, s.(rows := Empty(2 * |s.rows|)), Flatten(s.rows));
    }
  }

  lemma {:induction false} ThresholdDoubles(size: nat, load: real)
    requires load > 0.0 && Threshold(size, load) >= 1
    ensures Threshold(size, load) + 1 <= Threshold(2 * size, load)
  {
    var x := size as real * load;
    assert (2 * size) as real * load == x + x;
  }

  /** With a threshold of at least one, put keeps the size or doubles it once, and doubles it exactly when a new key
      passes the threshold: no put inside the rehash rehashes again. */
  lemma {:induction false} PutDoublesOnce<K(!new), V(!new)>(hash: K -> int, load: real, s: State<K, V>, e: Entry<K, V>)
    requires Inv(hash, s.rows) && load > 0.0 && Fits(load, s) && Threshold(|s.rows|, load) >= 1
    ensures |Put(hash, load, s, e).rows| ==
      if e.key.data !in View(s) && Total(s.rows) == Threshold(|s.rows|, load) then 2 * |s.rows| else |s.rows|
  {
    hide Inv, View;
    if e.key.data in View(s) {
      ReplaceLaw(hash, s, e);
    } else {
      InsertLaw(hash, s, e);
      var b := Home(hash, e.key.data, |s.rows|);
      ThresholdDoubles(|s.rows|, load);
      RehashDoublesOnce(hash, load, s.(rows := s.rows[b := [e] + s.rows[b]]));
    }
  }

  /** The first doubling of a size whose threshold is not zero. */
  function Doubled(size: nat, load: real): nat
    requires load > 0.0 && size > 0
    decreases Gap(1, size, load)
  {
    GapCloses(1, size, load);
    if Threshold(size, load) >= 1 then size else Doubled(2 * size, load)
  }

  /** With a threshold of zero, put on the empty table rehashes within rehash, and stops at the first doubling with a
      threshold. */
  lemma {:induction false} PutFromZero<K(!new), V(!new)>(hash: K -> int, load: real, s: State<K, V>, e: Entry<K, V>)
    requires |s.rows| > 0 && load > 0.0 && Flatten(s.rows) == []
    ensures |Put(hash, load, s, e).rows| == Doubled(|s.rows|, load)
    decreases Gap(1, |s.rows|, load)
  {
    GapCloses(1, |s.rows|, load);
    var b := Home(hash, e.key.data, |s.rows|);
    FlattenUpdate(s.rows, b, [e] + s.rows[b]);
    assert s.rows[b] == [] && Flatten(s.rows[b := [e] + s.rows[b]]) == [e];
    if Threshold(|s.rows|, load) < 1 {
      var start := s.(rows := Empty(2 * |s.rows|));
      EmptyTotal<Entry<K, V>>(2 * |s.rows|);
      PutFromZero(hash, load, start, e);
      var s' := Put(hash, load, start, e);
      assert [e][1..] == [];
      assert Refill(hash, load, s', []) == s';
      assert Refill(hash, load, start, [e]) == s';
      assert s.(rows := s.rows[b := [e] + s.rows[b]]).(rows := Empty(2 * |s.rows|)) == start;
    }
  }

  // ---------------------------------------------------------------- ownership

  ghost function OwnedBy<K, V>(entries: Row<K, V>): multiset<Asset<K, V>> {
    multiset(FreeAll(entries))
  }

  lemma {:induction false} FreeAppend<K, V>(a: Row<K, V>, b: Row<K, V>)
    ensures FreeAll(a + b) == FreeAll(a) + FreeAll(b)
  {
    hide FreeKey, FreeValue;
    if a == [] {
      assert a + b == b;
    } else {
      FreeAppend(a[1..], b);
      assert (a + b)[1..] == a[1..] + b;
      var head := FreeKey(a[0]) + FreeValue(a[0]);
      assert head + (FreeAll(a[1..]) + FreeAll(b)) == head + FreeAll(a[1..]) + FreeAll(b);
    }
  }

  lemma {:induction false} OwnedAppend<K, V>(a: Row<K, V>, b: Row<K, V>)
    ensures OwnedBy(a + b) == OwnedBy(a) + OwnedBy(b)
  {
    FreeAppend(a, b);
  }

  lemma {:induction false} OwnedOne<K, V>(e: Entry<K, V>)
    ensures OwnedBy([e]) == multiset(FreeKey(e)) + multiset(FreeValue(e))
  {
    assert FreeAll([e][1..]) == [];
  }

  lemma {:induction false} OwnedNothing<K, V>()
    ensures OwnedBy<K, V>([]) == multiset{}
  {
  }

  // Everything the table has been made responsible for: what it still owns and what it has freed.
  ghost function Ledger<K, V>(s: State<K, V>): multiset<Asset<K, V>> {
    OwnedBy(Flatten(s.rows)) + multiset(s.freed)
  }

  lemma {:induction false} OwnedUpdate<K, V>(rows: seq<Row<K, V>>, b: nat, i: nat, n: nat, mid: Row<K, V>)
    requires b < |rows| && i + n <= |rows[b]|
    ensures OwnedBy(Flatten(rows[b := rows[b][..i] + mid + rows[b][i + n..]])) + OwnedBy(rows[b][i..i + n]) ==
      OwnedBy(Flatten(rows)) + OwnedBy(mid)
  {
    Around(rows, b, i, n, mid);
    var left, right := Before(rows, b, i), After(rows, b, i + n);
    OwnedAppend(left + rows[b][i..i + n], right);
    OwnedAppend(left, rows[b][i..i + n]);
    OwnedAppend(left + mid, right);
    OwnedAppend(left, mid);
  }

  lemma {:induction false} Rearrange<T(!new)>(o': multiset<T>, o: multiset<T>, k: multiset<T>, v: multiset<T>, f: multiset<T>, e: multiset<T>)
    requires o' + (k + v) == o + e
    ensures o' + (f + k + v) == o + f + e && o' + (f + v + k) == o + f + e
  {
    forall x
      ensures (o' + (f + k + v))[x] == (o + f + e)[x] == (o' + (f + v + k))[x]
    {
      assert (o' + (k + v))[x] == (o + e)[x];
    }
  }

  // What leaves the rows enters the log.
  lemma {:induction false} Balance<K(!new), V(!new)>(rows: seq<Row<K, V>>, rows': seq<Row<K, V>>, gone: Entry<K, V>, put: Row<K, V>, freed: seq<Asset<K, V>>)
    requires OwnedBy(Flatten(rows')) + OwnedBy([gone]) == OwnedBy(Flatten(rows)) + OwnedBy(put)
    ensures Ledger(State(rows', freed + FreeKey(gone) + FreeValue(gone))) == Ledger(State(rows, freed)) + OwnedBy(put)
    ensures Ledger(State(rows', freed + FreeValue(gone) + FreeKey(gone))) == Ledger(State(rows, freed)) + OwnedBy(put)
  {
    hide OwnedBy, FreeKey, FreeValue;
    OwnedOne(gone);
    var f, k, v := freed, FreeKey(gone), FreeValue(gone);
    Rearrange(OwnedBy(Flatten(rows')), OwnedBy(Flatten(rows)), multiset(k), multiset(v), multiset(f), OwnedBy(put));
    assert multiset(f + k + v) == multiset(f + k) + multiset(v) == multiset(f) + multiset(k) + multiset(v);
    assert multiset(f + v + k) == multiset(f + v) + multiset(k) == multiset(f) + multiset(v) + multiset(k);
  }

  /** Each put adds what it is handed to the ledger, whatever it replaces or rehashes. */
  lemma {:induction false} PutLedger<K(!new), V(!new)>(hash: K -> int, load: real, s: State<K, V>, e: Entry<K, V>)
    requires |s.rows| > 0 && load > 0.0
    ensures Ledger(Put(hash, load, s, e)) == Ledger(s) + OwnedBy([e])
    decreases Gap(Total(s.rows) + 1, |s.rows|, load), 1, 0
  {
    hide OwnedBy, FreeKey, FreeValue, Gap, Ledger, Flatten, Rehash;
    var b := Home(hash, e.key.data, |s.rows|);
    var i := Find(s.rows[b], e.key.data);
    if i < |s.rows[b]| {
      ReplaceLedger(s, b, i, e);
    } else {
      InsertLedger(s, b, e);
      var s' := s.(rows := s.rows[b := [e] + s.rows[b]]);
      if Total(s'.rows) > Threshold(|s'.rows|, load) {
        GapCloses(Total(s'.rows), |s'.rows|, load);
        RehashLedger(hash, load, s');
      }
    }
  }

  lemma {:induction false} ReplaceLedger<K(!new), V(!new)>(s: State<K, V>, b: nat, i: nat, e: Entry<K, V>)
    requires b < |s.rows| && i < |s.rows[b]|
    ensures Ledger(Replace(s, b, i, e)) == Ledger(s) + OwnedBy([e])
  {
    hide OwnedBy, FreeKey, FreeValue, Ledger, Flatten;
    var row := s.rows[b];
    OwnedUpdate(s.rows, b, i, 1, [e]);
    assert row[..i] + [e] + row[i + 1..] == row[i := e] && row[i..i + 1] == [row[i]];
    Balance(s.rows, s.rows[b := row[i := e]], row[i], [e], s.freed);
  }

  lemma {:induction false} InsertLedger<K(!new), V(!new)>(s: State<K, V>, b: nat, e: Entry<K, V>)
    requires b < |s.rows|
    ensures var s' := s.(rows := s.rows[b := [e] + s.rows[b]]);
      Ledger(s') == Ledger(s) + OwnedBy([e]) && Total(s'.rows) == Total(s.rows) + 1
  {
    hide OwnedBy;
    var row := s.rows[b];
    OwnedUpdate(s.rows, b, 0, 0, [e]);
    assert row[..0] + [e] + row[0..] == [e] + row && row[0..0] == [];
    OwnedNothing<K, V>();
    FlattenUpdate(s.rows, b, [e] + row);
    var rows' := s.rows[b := [e] + row];
    assert OwnedBy(Flatten(rows')) == OwnedBy(Flatten(rows')) + multiset{};
    assert OwnedBy(Flatten(rows')) + multiset(s.freed) == OwnedBy(Flatten(s.rows)) + multiset(s.freed) + OwnedBy([e]);
  }

  lemma {:induction false} RehashLedger<K(!new), V(!new)>(hash: K -> int, load: real, s: State<K, V>)
    requires |s.rows| > 0 && load > 0.0
    ensures Ledger(Rehash(hash, load, s)) == Ledger(s)
    decreases Gap(Total(s.rows), |s.rows|, load), if Gap(Total(s.rows), |s.rows|, load) == 0 then 3 else 0, 0
  {
    GapCloses(Total(s.rows), |s.rows|, load);
    EmptyTotal<Entry<K, V>>(2 * |s.rows|);
    RefillLedger(hash, load, s.(rows := Empty(2 * |s.rows|)), Flatten(s.rows));
  }

  lemma {:induction false} RefillLedger<K(!new), V(!new)>(hash: K -> int, load: real, s: State<K, V>, entries: Row<K, V>)
    requires |s.rows| > 0 && load > 0.0
    ensures Ledger(Refill(hash, load, s, entries)) == Ledger(s) + OwnedBy(entries)
    decreases Gap(Total(s.rows) + |entries|, |s.rows|, load), 2, |entries|
  {
    hide OwnedBy, Gap, Ledger, Put;
    if entries != [] {
      GapShrinks(Total(s.rows) + |entries|, Total(s.rows) + 1, |s.rows|, |s.rows|, load);
      var s' := Put(hash, load, s, entries[0]);
      GapShrinks(Total(s.rows) + |entries|, Total(s'.rows) + |entries| - 1, |s.rows|, |s'.rows|, load);
      PutLedger(hash, load, s, entries[0]);
      RefillLedger(hash, load, s', entries[1..]);
      assert entries == [entries[0]] + entries[1..];
      OwnedAppend([entries[0]], entries[1..]);
      assert Ledger(s) + OwnedBy([entries[0]]) + OwnedBy(entries[1..]) == Ledger(s) + OwnedBy(entries);
    } else {
      OwnedNothing<K, V>();
      assert Ledger(s) + multiset{} == Ledger(s);
    }
  }

  lemma {:induction false} RemoveLedger<K(!new), V(!new)>(hash: K -> int, s: State<K, V>, key: K)
    requires |s.rows| > 0
    ensures Ledger(Remove(hash, s, key)) == Ledger(s)
  {
    hide OwnedBy, FreeKey, FreeValue;
    var b := Home(hash, key, |s.rows|);
    var row := s.rows[b];
    var i := Find(row, key);
    if i < |row| {
      OwnedUpdate(s.rows, b, i, 1, []);
      assert row[..i] + [] + row[i + 1..] == row[..i] + row[i + 1..] && row[i..i + 1] == [row[i]];
      OwnedNothing<K, V>();
      Balance(s.rows, s.rows[b := row[..i] + row[i + 1..]], row[i], [], s.freed);
    }
  }

  // ---------------------------------------------------------------- runs

  datatype Op<K, V> = PutOp(e: Entry<K, V>) | RemoveOp(key: K) | ClearOp | RehashOp

  function Apply<K(==), V>(hash: K -> int, load: real, s: State<K, V>, op: Op<K, V>): (s': State<K, V>)
    requires |s.rows| > 0 && load > 0.0
    ensures |s'.rows| > 0
  {
    match op
    case PutOp(e) => Put(hash, load, s, e)
    case RemoveOp(key) => Remove(hash, s, key)
    case ClearOp => Clear(s)
    case RehashOp => Rehash(hash, load, s)
  }

  function Run<K(==), V>(hash: K -> int, load: real, s: State<K, V>, ops: seq<Op<K, V>>): (s': State<K, V>)
    requires |s.rows| > 0 && load > 0.0
    ensures |s'.rows| > 0
    decreases |ops|
  {
    if ops == [] then s else Run(hash, load, Apply(hash, load, s, ops[0]), ops[1..])
  }

  /** The finite map the operations describe. */
  function Model<K(==), V>(m: map<K, Entry<K, V>>, ops: seq<Op<K, V>>): map<K, Entry<K, V>>
    decreases |ops|
  {
    if ops == [] then m
    else
      var m' :=
        match ops[0]
        case PutOp(e) => m[e.key.data := e]
        case RemoveOp(key) => m - {key}
        case ClearOp => map[]
        case RehashOp => m;
      Model(m', ops[1..])
  }

  // What a run hands to the table.
  ghost function Handed<K, V>(ops: seq<Op<K, V>>): multiset<Asset<K, V>> {
    if ops == [] then multiset{}
    else (if ops[0].PutOp? then OwnedBy([ops[0].e]) else multiset{}) + Handed(ops[1..])
  }

  /** Refinement: after any run from an empty table, the table is the finite map of the run, every entry is in its row,
      the entries fit the threshold, and every pointer handed over is in the table or has been freed, once. */
  lemma {:induction false} RunLaw<K(!new), V(!new)>(hash: K -> int, load: real, s: State<K, V>, ops: seq<Op<K, V>>)
    requires Inv(hash, s.rows) && load > 0.0 && Fits(load, s)
    ensures var s' := Run(hash, load, s, ops);
      Inv(hash, s'.rows) && Fits(load, s') && View(s') == Model(View(s), ops) && Ledger(s') == Ledger(s) + Handed(ops)
    decreases |ops|
  {
    hide View, Ledger, OwnedBy, Fits, Put, Rehash, Remove, Clear;
    if ops != [] {
      ApplyLaw(hash, load, s, ops[0]);
      RunLaw(hash, load, Apply(hash, load, s, ops[0]), ops[1..]);
    }
  }

  lemma {:induction false} ApplyLaw<K(!new), V(!new)>(hash: K -> int, load: real, s: State<K, V>, op: Op<K, V>)
    requires Inv(hash, s.rows) && load > 0.0 && Fits(load, s)
    ensures var s' := Apply(hash, load, s, op);
      Inv(hash, s'.rows) && Fits(load, s') && View(s') == Model(View(s), [op]) && Ledger(s') == Ledger(s) + Handed([op])
  {
    hide Put, Rehash, Remove, Clear, View, OwnedBy;
    assert [op][1..] == [] && Handed<K, V>([]) == multiset{};
    match op
    case PutOp(e) =>
      PutLaw(hash, load, s, e);
      PutLedger(hash, load, s, e);
    case RemoveOp(key) =>
      RemoveLaw(hash, s, key);
      RemoveLedger(hash, s, key);
    case ClearOp =>
      ClearLaw(hash, load, s);
      ClearLedger(s);
    case RehashOp =>
      RehashLaw(hash, load, s);
      RehashLedger(hash, load, s);
  }

  lemma {:induction false} ClearLedger<K, V>(s: State<K, V>)
    ensures Ledger(Clear(s)) == Ledger(s)
    ensures OwnedBy(Flatten(Clear(s).rows)) == multiset{}
  {
    EmptyTotal<Entry<K, V>>(|s.rows|);
  }

  lemma {:induction false} RunAllFreed<K(!new), V(!new)>(hash: K -> int, load: real, s: State<K, V>, ops: seq<Op<K, V>>)
    requires Inv(hash, s.rows) && load > 0.0 && Fits(load, s) && Ledger(s) == multiset{}
    ensures multiset(Clear(Run(hash, load, s, ops)).freed) == Handed(ops)
  {
    var s' := Run(hash, load, s, ops);
    hide Run, Handed, Model, Inv, Fits, View, Clear, OwnedBy;
    RunLaw(hash, load, s, ops);
    ClearLedger(s');
    assert Ledger(s) + Handed(ops) == Handed(ops);
    assert Ledger(Clear(s')) == multiset(Clear(s').freed);
  }

  /** A run that ends by clearing the table, as freeing it does, has freed every pointer handed over exactly as often
      as it was handed over. */
  lemma {:induction false} AllFreed<K(!new), V(!new)>(hash: K -> int, load: real, size: nat, ops: seq<Op<K, V>>)
    requires size > 0 && load > 0.0
    ensures var s := State(Empty<Entry<K, V>>(size), []);
      multiset(Clear(Run(hash, load, s, ops)).freed) == Handed(ops)
  {
    var s := State(Empty<Entry<K, V>>(size), []);
    EmptyTotal<Entry<K, V>>(size);
    ThresholdGrows(0, size, load);
    assert FreeAll<K, V>([]) == [];
    RunAllFreed(hash, load, s, ops);
  }

  // ---------------------------------------------------------------- keys and values

  function KeyList<K, V>(entries: Row<K, V>): (r: seq<Ptr<K>>)
    ensures |r| == |entries| && forall i :: 0 <= i < |entries| ==> r[i] == entries[i].key
  {
    if entries == [] then [] else [entries[0].key] + KeyList(entries[1..])
  }

  function ValueList<K, V>(entries: Row<K, V>): (r: seq<Option<V>>)
    ensures |r| == |entries| && forall i :: 0 <= i < |entries| ==> r[i] == entries[i].value
  {
    if entries == [] then [] else [entries[0].value] + ValueList(entries[1..])
  }

  /** keys and values list every entry of the map once, in the same order. */
  lemma {:induction false} ListsMatch<K(!new), V(!new)>(hash: K -> int, s: State<K, V>)
    requires Inv(hash, s.rows)
    ensures var keys, values := KeyList(Flatten(s.rows)), ValueList(Flatten(s.rows));
      |keys| == |values| == |View(s)| &&
      (forall i :: 0 <= i < |keys| ==> keys[i].data in View(s) && View(s)[keys[i].data].key == keys[i] && View(s)[keys[i].data].value == values[i]) &&
      (forall i, j :: 0 <= i < j < |keys| ==> keys[i].data != keys[j].data) &&
      (forall k :: k in View(s) ==> exists i :: 0 <= i < |keys| && keys[i].data == k)
  {
    EntriesMatch(Flatten(s.rows));
  }

  lemma {:induction false} EntriesMatch<K(!new), V(!new)>(es: Row<K, V>)
    requires Distinct(es)
    ensures |KeyList(es)| == |ValueList(es)| == |Assoc(es)|
    ensures forall i :: 0 <= i < |es| ==> es[i].key.data in Assoc(es) && Assoc(es)[es[i].key.data] == es[i]
    ensures forall k :: k in Assoc(es) ==> exists i :: 0 <= i < |es| && KeyList(es)[i].data == k
  {
    AssocSize(es);
    forall i | 0 <= i < |es|
      ensures es[i].key.data in Assoc(es) && Assoc(es)[es[i].key.data] == es[i]
    {
      assert es[i] in es;
      AssocDomain(es, es[i].key.data);
      var j :| 0 <= j < |es| && es[j] == Assoc(es)[es[i].key.data];
    }
    forall k | k in Assoc(es)
      ensures exists i :: 0 <= i < |es| && KeyList(es)[i].data == k
    {
      AssocDomain(es, k);
      var i :| 0 <= i < |es| && es[i] == Assoc(es)[k];
      assert KeyList(es)[i].data == k;
    }
  }

  // ---------------------------------------------------------------- refilling row by row

  lemma {:induction false} FlattenLast<T>(rows: seq<seq<T>>, x: nat)
    requires x < |rows|
    ensures Flatten(rows[..x + 1]) == Flatten(rows[..x]) + rows[x] && |Flatten(rows[..x + 1])| <= |Flatten(rows)|
  {
    FlattenUpdate(rows, x, rows[x]);
    FlattenUpdate(rows[..x + 1], x, rows[x]);
    assert rows[..x + 1][..x] == rows[..x] && rows[..x + 1][x + 1..] == [];
  }

  lemma {:induction false} RefillAppend<K(!new), V(!new)>(hash: K -> int, load: real, s: State<K, V>, a: Row<K, V>, b: Row<K, V>)
    requires |s.rows| > 0 && load > 0.0
    ensures Refill(hash, load, s, a + b) == Refill(hash, load, Refill(hash, load, s, a), b)
    decreases |a|
  {
    hide Put, Gap;
    if a == [] {
      assert a + b == b;
    } else {
      assert (a + b)[1..] == a[1..] + b;
      RefillAppend(hash, load, Put(hash, load, s, a[0]), a[1..], b);
    }
  }

  // One entry of a row.
  lemma {:induction false} RefillStep<K(!new), V(!new)>(hash: K -> int, load: real, s: State<K, V>, row: Row<K, V>, i: nat)
    requires |s.rows| > 0 && load > 0.0 && i < |row|
    ensures var t := Refill(hash, load, s, row[..i]);
      Refill(hash, load, s, row[..i + 1]) == Put(hash, load, t, row[i]) &&
      Gap(Total(t.rows) + 1, |t.rows|, load) <= Gap(Total(s.rows) + |row|, |s.rows|, load)
  {
    hide Put, Gap;
    var e := row[i];
    var t := Refill(hash, load, s, row[..i]);
    assert row[..i + 1] == row[..i] + [e];
    RefillAppend(hash, load, s, row[..i], [e]);
    assert [e][1..] == [] && Refill(hash, load, Put(hash, load, t, e), []) == Put(hash, load, t, e);
    GapShrinks(Total(s.rows) + |row|, Total(t.rows) + 1, |s.rows|, |t.rows|, load);
  }

  // One row of several.
  lemma {:induction false} RefillRow<K(!new), V(!new)>(hash: K -> int, load: real, s: State<K, V>, entries: seq<Row<K, V>>, x: nat)
    requires |s.rows| > 0 && load > 0.0 && x < |entries|
    ensures var t := Refill(hash, load, s, Flatten(entries[..x]));
      Refill(hash, load, s, Flatten(entries[..x + 1])) == Refill(hash, load, t, entries[x]) &&
      Gap(Total(t.rows) + |entries[x]|, |t.rows|, load) <= Gap(Total(s.rows) + Total(entries), |s.rows|, load)
  {
    hide Put, Gap, Refill;
    var t := Refill(hash, load, s, Flatten(entries[..x]));
    FlattenLast(entries, x);
    RefillAppend(hash, load, s, Flatten(entries[..x]), entries[x]);
    GapShrinks(Total(s.rows) + Total(entries), Total(t.rows) + |entries[x]|, |s.rows|, |t.rows|, load);
  }
}
