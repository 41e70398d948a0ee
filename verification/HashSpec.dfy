/** The chained hash table of src/util/hashtable.c on values: the rows of entries behind the bucket array, what each
    operation makes of them, and the finite map they stand for. */
module HashSpec {
  import opened Options

  /** A pointer to a key: where it points and what is there. Keys are equal when their contents are. */
  datatype Ptr<K> = Ptr(addr: int, data: K)

  /** A stored pair; a pointer is owned when it was put with a free function. None is the null pointer. */
  datatype Entry<K, V> = Entry(key: Ptr<K>, value: Option<V>, ownsKey: bool, ownsValue: bool)

  type Row<K, V> = seq<Entry<K, V>>

  datatype Asset<K, V> = KeyAsset(key: Ptr<K>) | ValueAsset(value: Option<V>)

  /** The rows, and what has been passed to the free functions, in order. */
  datatype State<K, V> = State(rows: seq<Row<K, V>>, freed: seq<Asset<K, V>>)

  // ---------------------------------------------------------------- rows

  // MAP: the sign bit of the 32-bit hash code is dropped.
  function Home<K>(hash: K -> int, key: K, size: nat): (b: nat)
    requires size > 0
    ensures b < size
  {
    (hash(key) % 0x8000_0000) % size
  }

  // The first entry with this key, or the length of the row.
  function Find<K(==), V>(row: Row<K, V>, key: K): (i: nat)
    ensures i <= |row|
    ensures i < |row| ==> row[i].key.data == key
    ensures forall j :: 0 <= j < i ==> row[j].key.data != key
  {
    if row == [] || row[0].key.data == key then 0
    else
      var i := Find(row[1..], key);
      assert forall j :: 1 <= j < i + 1 ==> row[j] == row[1..][j - 1];
      i + 1
  }

  function Flatten<T>(rows: seq<seq<T>>): seq<T> {
    if rows == [] then [] else rows[0] + Flatten(rows[1..])
  }

  function Total<T>(rows: seq<seq<T>>): nat {
    |Flatten(rows)|
  }

  function Empty<T>(size: nat): (rows: seq<seq<T>>)
    ensures |rows| == size && forall b :: 0 <= b < size ==> rows[b] == []
  {
    seq(size, _ => [])
  }

  // ---------------------------------------------------------------- threshold

  function Threshold(size: nat, load: real): int {
    (size as real * load).Floor
  }

  // A size at which n entries stay below the threshold.
  function Enough(n: nat, load: real): int
    requires load > 0.0
  {
    (n as real / load).Floor + 1
  }

  // How far the table is from the size at which n entries need no rehash.
  function Gap(n: nat, size: nat, load: real): nat
    requires load > 0.0
  {
    if n <= Threshold(size, load) || Enough(n, load) <= size then 0 else Enough(n, load) - size
  }

  lemma {:induction false} ThresholdGrows(size: nat, size': nat, load: real)
    requires size <= size' && load > 0.0
    ensures 0 <= Threshold(size, load) <= Threshold(size', load)
  {
    assert size as real * load <= size' as real * load;
  }

  lemma {:induction false} TooSmall(n: nat, size: nat, load: real)
    requires load > 0.0 && n > Threshold(size, load)
    ensures size < Enough(n, load)
  {
    assert size as real * load < n as real;
    assert size as real < n as real / load;
  }

  lemma {:induction false} GapShrinks(n: nat, n': nat, size: nat, size': nat, load: real)
    requires load > 0.0 && n' <= n && size <= size'
    ensures Gap(n', size', load) <= Gap(n, size, load)
  {
    ThresholdGrows(size, size', load);
    assert n' as real / load <= n as real / load;
  }

  lemma {:induction false} GapCloses(n: nat, size: nat, load: real)
    requires load > 0.0 && size > 0
    ensures Gap(n, size, load) > 0 <==> n > Threshold(size, load)
    ensures Gap(n, size, load) > 0 ==> Gap(n, 2 * size, load) < Gap(n, size, load)
    ensures Gap(n, 2 * size, load) <= Gap(n, size, load)
  {
    GapShrinks(n, n, size, 2 * size, load);
    if n > Threshold(size, load) {
      TooSmall(n, size, load);
    }
  }

  // ---------------------------------------------------------------- operations

  function FreeKey<K, V>(e: Entry<K, V>): seq<Asset<K, V>> {
    if e.ownsKey then [KeyAsset(e.key)] else []
  }

  function FreeValue<K, V>(e: Entry<K, V>): seq<Asset<K, V>> {
    if e.ownsValue then [ValueAsset(e.value)] else []
  }

  function Replace<K(==), V>(s: State<K, V>, b: nat, i: nat, e: Entry<K, V>): State<K, V>
    requires b < |s.rows| && i < |s.rows[b]|
  {
    State(s.rows[b := s.rows[b][i := e]], s.freed + FreeValue(s.rows[b][i]) + FreeKey(s.rows[b][i]))
  }

  lemma {:induction false} FlattenUpdate<T>(rows: seq<seq<T>>, b: nat, row: seq<T>)
    requires b < |rows|
    ensures Flatten(rows) == Flatten(rows[..b]) + rows[b] + Flatten(rows[b + 1..])
    ensures Flatten(rows[b := row]) == Flatten(rows[..b]) + row + Flatten(rows[b + 1..])
  {
    var rows' := rows[b := row];
    if b == 0 {
      assert rows'[1..] == rows[1..];
    } else {
      FlattenUpdate(rows[1..], b - 1, row);
      assert rows'[1..] == rows[1..][b - 1 := row];
      assert rows[1..][..b - 1] == rows[..b][1..];
      assert rows[1..][b..] == rows[b + 1..];
    }
  }

  /** put: an equal key is replaced, and its pointers freed; a new one goes to the front of its row, and the table is
      rehashed when it has passed the threshold. */
  function Put<K(==), V>(hash: K -> int, load: real, s: State<K, V>, e: Entry<K, V>): (s': State<K, V>)
    requires |s.rows| > 0 && load > 0.0
    ensures |s.rows| <= |s'.rows| && Total(s'.rows) <= Total(s.rows) + 1
    decreases Gap(Total(s.rows) + 1, |s.rows|, load), 1, 0
  {
    var b := Home(hash, e.key.data, |s.rows|);
    var i := Find(s.rows[b], e.key.data);
    if i < |s.rows[b]| then
      FlattenUpdate(s.rows, b, s.rows[b][i := e]);
      Replace(s, b, i, e)
    else
      var s' := s.(rows := s.rows[b := [e] + s.rows[b]]);
      FlattenUpdate(s.rows, b, s'.rows[b]);
      assert Total(s'.rows) == Total(s.rows) + 1;
      GapCloses(Total(s'.rows), |s'.rows|, load);
      if Total(s'.rows) > Threshold(|s'.rows|, load) then Rehash(hash, load, s') else s'
  }

  /** rehash: twice as many buckets, filled again by put in the order of the old rows. */
  function Rehash<K(==), V>(hash: K -> int, load: real, s: State<K, V>): (s': State<K, V>)
    requires |s.rows| > 0 && load > 0.0
    ensures 2 * |s.rows| <= |s'.rows| && Total(s'.rows) <= Total(s.rows)
    decreases Gap(Total(s.rows), |s.rows|, load), if Gap(Total(s.rows), |s.rows|, load) == 0 then 3 else 0, 0
  {
    GapCloses(Total(s.rows), |s.rows|, load);
    EmptyTotal<Entry<K, V>>(2 * |s.rows|);
    Refill(hash, load, s.(rows := Empty(2 * |s.rows|)), Flatten(s.rows))
  }

  function Refill<K(==), V>(hash: K -> int, load: real, s: State<K, V>, entries: Row<K, V>): (s': State<K, V>)
    requires |s.rows| > 0 && load > 0.0
    ensures |s.rows| <= |s'.rows| && Total(s'.rows) <= Total(s.rows) + |entries|
    decreases Gap(Total(s.rows) + |entries|, |s.rows|, load), 2, |entries|
  {
    if entries == [] then s
    else
      GapShrinks(Total(s.rows) + |entries|, Total(s.rows) + 1, |s.rows|, |s.rows|, load);
      var s' := Put(hash, load, s, entries[0]);
      GapShrinks(Total(s.rows) + |entries|, Total(s'.rows) + |entries| - 1, |s.rows|, |s'.rows|, load);
      Refill(hash, load, s', entries[1..])
  }

  lemma {:induction false} EmptyTotal<T>(size: nat)
    ensures Flatten(Empty<T>(size)) == []
  {
    if size > 0 {
      EmptyTotal<T>(size - 1);
      assert Empty<T>(size)[1..] == Empty<T>(size - 1);
    }
  }

  function Get<K(==), V>(hash: K -> int, s: State<K, V>, key: K): Option<Entry<K, V>>
    requires |s.rows| > 0
  {
    var row := s.rows[Home(hash, key, |s.rows|)];
    var i := Find(row, key);
    if i < |row| then Some(row[i]) else None
  }

  function Remove<K(==), V>(hash: K -> int, s: State<K, V>, key: K): State<K, V>
    requires |s.rows| > 0
  {
    var b := Home(hash, key, |s.rows|);
    var row := s.rows[b];
    var i := Find(row, key);
    if i < |row| then State(s.rows[b := row[..i] + row[i + 1..]], s.freed + FreeKey(row[i]) + FreeValue(row[i])) else s
  }

  function FreeAll<K, V>(entries: Row<K, V>): seq<Asset<K, V>> {
    if entries == [] then [] else FreeKey(entries[0]) + FreeValue(entries[0]) + FreeAll(entries[1..])
  }

  function Clear<K, V>(s: State<K, V>): State<K, V> {
    State(Empty(|s.rows|), s.freed + FreeAll(Flatten(s.rows)))
  }
}
