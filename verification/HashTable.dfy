/** The hash table of src/util/hashtable.c on the heap: a bucket array of chains whose nodes are relinked in place. */
module HashTable {
  import opened Options
  import opened HashSpec
  import opened HashLaws
  import opened ListSpec

  class Node<K, V> {
    var key: Ptr<K>
    var value: Option<V>
    var freekey: bool
    var freevalue: bool
    var next: Node?<K, V>

    constructor (key: Ptr<K>, value: Option<V>, freekey: bool, freevalue: bool, next: Node?<K, V>)
      ensures Pair() == Entry(key, value, freekey, freevalue) && this.next == next
    {
      this.key, this.value, this.freekey, this.freevalue, this.next := key, value, freekey, freevalue, next;
    }

    function Pair(): Entry<K, V>
      reads this
    {
      Entry(key, value, freekey, freevalue)
    }
  }

  function NodeAt<K, V>(nodes: seq<Node<K, V>>, i: nat): Node?<K, V> {
    if i < |nodes| then nodes[i] else null
  }

  // A chain from `head` through `nodes`, holding `row`.
  ghost predicate Linked<K, V>(head: Node?<K, V>, nodes: seq<Node<K, V>>, row: Row<K, V>)
    reads nodes
  {
    && |nodes| == |row| && head == NodeAt(nodes, 0)
    && (forall i {:trigger nodes[i].Pair()} :: 0 <= i < |nodes| ==> nodes[i].Pair() == row[i])
    && (forall i {:trigger nodes[i].next} :: 0 <= i < |nodes| ==> nodes[i].next == NodeAt(nodes, i + 1))
  }

  class HashTable<K(==, !new), V(==, !new)> {
    const func: K -> int
    const freekeys: bool
    const freevalues: bool
    const loadfactor: real
    var buckets: array<Node?<K, V>>
    var bucket_size: nat
    var num_elements: nat
    var threshold: int
    // What the free functions have been called with.
    var freed: seq<Asset<K, V>>
    ghost var chains: seq<seq<Node<K, V>>>
    ghost var rows: seq<Row<K, V>>
    ghost var Repr: set<object>

    // The chains hold the rows.
    ghost predicate Shape()
      reads this, Repr
    {
      && this in Repr && buckets in Repr
      && buckets.Length == |chains| == |rows|
      && (forall b, i :: 0 <= b < |chains| && 0 <= i < |chains[b]| ==> chains[b][i] in Repr)
      && (forall b :: 0 <= b < |chains| ==> Linked(buckets[b], chains[b], rows[b]))
    }

    // The fields agree with the rows.
    ghost predicate Sound()
      reads this
    {
      && bucket_size == |rows| && loadfactor > 0.0
      && threshold == Threshold(bucket_size, loadfactor)
      && num_elements == Total(rows)
      && Inv(func, rows)
    }

    ghost predicate Valid()
      reads this, Repr
    {
      Shape() && Sound()
    }

    ghost function Abstract(): State<K, V>
      reads this
    {
      State(rows, freed)
    }

    // What putting these entries again makes of the state s.
    ghost predicate Refilled(s: State<K, V>, entries: Row<K, V>)
      reads this
    {
      |s.rows| > 0 && loadfactor > 0.0 && Abstract() == Refill(func, loadfactor, s, entries)
    }

    constructor NewFull(func: K -> int, freekeys: bool, freevalues: bool, bucket_size: nat, loadfactor: real)
      requires bucket_size > 0 && loadfactor > 0.0
      ensures Valid() && fresh(Repr) && Abstract() == State(Empty(bucket_size), []) && Fits(loadfactor, Abstract())
      ensures this.func == func && this.freekeys == freekeys && this.freevalues == freevalues && this.loadfactor == loadfactor
    {
      this.func, this.freekeys, this.freevalues, this.loadfactor := func, freekeys, freevalues, loadfactor;
      this.bucket_size, this.num_elements := bucket_size, 0;
      this.threshold := Threshold(bucket_size, loadfactor);
      this.freed := [];
      this.buckets := new Node?<K, V>[bucket_size](_ => null);
      this.chains, this.rows := Empty(bucket_size), Empty(bucket_size);
      new;
      this.Repr := {this, buckets};
      EmptyTotal<Entry<K, V>>(bucket_size);
      ThresholdGrows(0, bucket_size, loadfactor);
    }

    // The node at a place is at no other place.
    lemma {:induction false} Apart(b: nat, i: nat, c: nat, j: nat)
      requires Valid() && b < |chains| && i < |chains[b]| && c < |chains| && j < |chains[c]| && chains[b][i] == chains[c][j]
      ensures b == c && i == j
    {
      assert chains[b][i].Pair() == rows[b][i] && chains[c][j].Pair() == rows[c][j];
      assert rows[b][i] in rows[b] && rows[c][j] in rows[c];
      DistinctRow(rows, b);
    }

    lemma {:induction false} Alone(b: nat, i: nat)
      requires Valid() && b < |chains| && i < |chains[b]|
      ensures forall j :: 0 <= j < |chains[b]| && j != i ==> chains[b][j] != chains[b][i]
      ensures forall c :: 0 <= c < |chains| && c != b ==> chains[b][i] !in chains[c]
    {
      forall c, j | 0 <= c < |chains| && 0 <= j < |chains[c]| && chains[c][j] == chains[b][i]
        ensures c == b && j == i
      {
        Apart(c, j, b, i);
      }
    }

    lemma {:induction false} AloneBefore(b: nat, i: nat)
      requires Valid() && b < |chains| && i < |chains[b]|
      ensures |rows[b]| == |chains[b]| && chains[b][i].Pair() == rows[b][i]
      ensures i > 0 ==> forall j :: 0 <= j < |chains[b]| && j != i - 1 ==> chains[b][j] != chains[b][i - 1]
      ensures i > 0 ==> forall c :: 0 <= c < |chains| && c != b ==> chains[b][i - 1] !in chains[c]
    {
      LinkedAt(buckets[b], chains[b], rows[b], i);
      if i > 0 {
        Alone(b, i - 1);
      }
    }

    method FindNode(key: K) returns (node: Node?<K, V>, prev: Node?<K, V>, bucket: nat)
      requires Valid()
      ensures bucket == Home(func, key, |rows|)
      ensures var i := Find(rows[bucket], key);
        node == NodeAt(chains[bucket], i) && prev == if i == 0 then null else chains[bucket][i - 1]
    {
      assert bucket_size > 0;
      hide Inv, Distinct, Flatten, Threshold, Find;
      var h := func(key);
      bucket := (h % 0x8000_0000) % bucket_size;
      var n := buckets[bucket];
      node, prev := null, null;
      ghost var i := 0;
      ghost var nodes, row := chains[bucket], rows[bucket];
      assert Linked(buckets[bucket], nodes, row);
      while n != null
        invariant i <= |nodes| && n == NodeAt(nodes, i) && node == null
        invariant prev == if i == 0 then null else nodes[i - 1]
        invariant forall j :: 0 <= j < i ==> row[j].key.data != key
        decreases |nodes| - i
      {
        assert n.Pair() == row[i];
        if key == n.key.data {
          node := n;
          break;
        }
        prev := n;
        n := n.next;
        i := i + 1;
      }
      FindIs(row, key, i);
    }

    method Get(key: K) returns (value: Option<V>)
      requires Valid()
      ensures var m := View(Abstract()); value == if key in m then m[key].value else None
    {
      GetLaw(func, Abstract(), key);
      hide Inv, View, Threshold, Flatten, Find, Home;
      var node, _, bucket := FindNode(key);
      assert Linked(buckets[bucket], chains[bucket], rows[bucket]);
      if node != null {
        assert node.Pair() == rows[bucket][Find(rows[bucket], key)];
        value := node.value;
      } else {
        value := None;
      }
    }

    method HasKey(key: K) returns (found: bool)
      requires Valid()
      ensures found == (key in View(Abstract()))
    {
      GetLaw(func, Abstract(), key);
      var node, _, _ := FindNode(key);
      found := node != null;
    }

    method Size() returns (n: nat)
      requires Valid()
      ensures n == |View(Abstract())|
    {
      AssocSize(Flatten(rows));
      n := num_elements;
    }

    method Put(key: Ptr<K>, value: Option<V>) returns (ret: bool)
      requires Valid()
      modifies Repr
      ensures Valid() && fresh(Repr - old(Repr))
      ensures Abstract() == HashSpec.Put(func, loadfactor, old(Abstract()), Entry(key, value, freekeys, freevalues))
      ensures ret == (key.data !in old(View(Abstract())))
    {
      ret := PutFull(key, value, freekeys, freevalues);
    }

    /** ufa_hashtable_put_full */
    method PutFull(key: Ptr<K>, value: Option<V>, freek: bool, freev: bool) returns (ret: bool)
      requires Valid()
      modifies Repr
      ensures Valid() && fresh(Repr - old(Repr))
      ensures Abstract() == HashSpec.Put(func, loadfactor, old(Abstract()), Entry(key, value, freek, freev))
      ensures ret == (key.data !in old(View(Abstract())))
      decreases Gap(Total(rows) + 1, |rows|, loadfactor), 1, 0
    {
      GetLaw(func, Abstract(), key.data);
      var node, _, bucket := FindNode(key.data);
      ghost var s, e := Abstract(), Entry(key, value, freek, freev);
      assert node != null ==> key.data in View(s) && Find(rows[bucket], key.data) < |rows[bucket]|;
      assert |rows| > 0 && loadfactor > 0.0;
      PutStep(func, loadfactor, s, e);
      hide HashSpec.Put, Inv, Linked, Shape, Flatten, View, Threshold, Find, Home, Replace, Gap;
      if node != null {
        Overwrite(node, key, value, freek, freev, bucket);
        ret := false;
      } else {
        AddNode(key, value, freek, freev, bucket);
        if num_elements > threshold {
          GapCloses(Total(rows), |rows|, loadfactor);
          Rehash();
        }
        ret := true;
      }
    }

    // The new node goes to the front of its chain.
    method AddNode(key: Ptr<K>, value: Option<V>, freek: bool, freev: bool, bucket: nat)
      requires Valid() && key.data !in View(Abstract()) && bucket == Home(func, key.data, |rows|)
      modifies this, buckets
      ensures Valid() && fresh(Repr - old(Repr)) && buckets == old(buckets)
      ensures rows == old(rows)[bucket := [Entry(key, value, freek, freev)] + old(rows)[bucket]] && freed == old(freed)
      ensures Total(rows) == old(Total(rows)) + 1
    {
      InsertLaw(func, Abstract(), Entry(key, value, freek, freev));
      hide Inv, Threshold, Flatten, View, Home, Find, Linked;
      var node := new Node(key, value, freek, freev, buckets[bucket]);
      Attach(node, bucket);
      num_elements := num_elements + 1;
    }

    method Attach(node: Node<K, V>, bucket: nat)
      requires Shape() && bucket < |chains| && node.next == buckets[bucket] && node !in Repr
      modifies this`chains, this`rows, this`Repr, buckets
      ensures Shape() && Repr == old(Repr) + {node}
      ensures rows == old(rows)[bucket := [node.Pair()] + old(rows)[bucket]]
    {
      Push(node, chains[bucket], rows[bucket]);
      hide Linked;
      buckets[bucket] := node;
      assert forall b :: 0 <= b < |chains| && b != bucket ==> old(Linked(buckets[b], chains[b], rows[b]));
      chains := chains[bucket := [node] + chains[bucket]];
      rows := rows[bucket := [node.Pair()] + rows[bucket]];
      Repr := Repr + {node};
    }

    method FreeValueAndKey(node: Node<K, V>)
      modifies this`freed
      ensures freed == old(freed) + FreeValue(node.Pair()) + FreeKey(node.Pair())
    {
      if node.freevalue {
        freed := freed + [ValueAsset(node.value)];
      }
      if node.freekey {
        freed := freed + [KeyAsset(node.key)];
      }
    }

    method FreeKeyAndValue(node: Node<K, V>)
      modifies this`freed
      ensures freed == old(freed) + FreeKey(node.Pair()) + FreeValue(node.Pair())
    {
      if node.freekey {
        freed := freed + [KeyAsset(node.key)];
      }
      if node.freevalue {
        freed := freed + [ValueAsset(node.value)];
      }
    }

    // In the chain of an equal key, the node is overwritten.
    method Overwrite(node: Node<K, V>, key: Ptr<K>, value: Option<V>, freek: bool, freev: bool, bucket: nat)
      requires Valid() && key.data in View(Abstract()) && bucket == Home(func, key.data, |rows|)
      requires var i := Find(rows[bucket], key.data); i < |rows[bucket]| && node == chains[bucket][i]
      modifies this, node
      ensures Valid() && Repr == old(Repr)
      ensures Abstract() == Replace(old(Abstract()), bucket, Find(old(rows)[bucket], key.data), Entry(key, value, freek, freev))
    {
      ghost var e := Entry(key, value, freek, freev);
      ghost var i := Find(rows[bucket], key.data);
      ReplaceLaw(func, Abstract(), e);
      Alone(bucket, i);
      LinkedAt(buckets[bucket], chains[bucket], rows[bucket], i);
      hide Inv, Threshold, Flatten, View, Home, Find, Linked;
      FreeValueAndKey(node);
      Rewrite(node, key, value, freek, freev, bucket, i);
    }

    method Rewrite(node: Node<K, V>, key: Ptr<K>, value: Option<V>, freek: bool, freev: bool, ghost bucket: nat, ghost i: nat)
      requires Shape() && bucket < |chains| && i < |chains[bucket]| && node == chains[bucket][i] && |rows[bucket]| == |chains[bucket]|
      requires forall j :: 0 <= j < |chains[bucket]| && j != i ==> chains[bucket][j] != node
      requires forall c :: 0 <= c < |chains| && c != bucket ==> node !in chains[c]
      modifies this`rows, node
      ensures Shape() && rows == old(rows)[bucket := old(rows)[bucket][i := Entry(key, value, freek, freev)]]
    {
      hide Linked;
      Write(node, key, value, freek, freev, buckets[bucket], chains[bucket], rows[bucket], i);
      assert forall b :: 0 <= b < |chains| && b != bucket ==> old(Linked(buckets[b], chains[b], rows[b]));
      rows := rows[bucket := rows[bucket][i := Entry(key, value, freek, freev)]];
    }

    // A new array of empty buckets.
    method Renew(size: nat)
      requires Valid() && size > 0
      modifies this
      ensures Valid() && fresh(Repr - {this}) && Abstract() == State(Empty(size), old(freed))
    {
      buckets := new Node?<K, V>[size](_ => null);
      bucket_size, num_elements := size, 0;
      threshold := Threshold(size, loadfactor);
      chains, rows := Empty(size), Empty(size);
      Repr := {this, buckets};
      EmptyInv<K, V>(func, size);
      hide Inv, Flatten, Threshold;
    }

    // The nodes of an old chain are put again, in their order.
    method Refilling(head: Node?<K, V>, ghost nodes: seq<Node<K, V>>, ghost row: Row<K, V>)
      requires Valid() && Linked(head, nodes, row) && forall n :: n in nodes ==> n !in Repr
      modifies Repr
      ensures Valid() && fresh(Repr - old(Repr))
      ensures Refilled(old(Abstract()), row)
      decreases Gap(Total(rows) + |row|, |rows|, loadfactor), 2, 0
    {
      LinkedAt(head, nodes, row, 0);
      hide Valid, Linked, Threshold, Flatten, HashSpec.Put, View, Gap, Refill;
      var node := head;
      ghost var i := 0;
      ghost var s := Abstract();
      RefilledNone(row);
      while node != null
        invariant i <= |row| && node == NodeAt(nodes, i)
        invariant Valid() && fresh(Repr - old(Repr))
        invariant Refilled(s, row[..i])
        decreases |row| - i
      {
        node := PutAgain(node, head, nodes, row, s, i);
        i := i + 1;
      }
      assert row[..i] == row;
    }

    lemma {:induction false} RefilledNone(row: Row<K, V>)
      requires Valid()
      ensures Refilled(Abstract(), row[..0])
    {
      assert row[..0] == [];
    }

    // One node of an old chain; what follows it in that chain.
    method PutAgain(node: Node<K, V>, ghost head: Node?<K, V>, ghost nodes: seq<Node<K, V>>, ghost row: Row<K, V>, ghost s: State<K, V>, ghost i: nat)
      returns (next: Node?<K, V>)
      requires Valid() && Linked(head, nodes, row) && forall n :: n in nodes ==> n !in Repr
      requires i < |row| && node == NodeAt(nodes, i) && Refilled(s, row[..i])
      modifies Repr
      ensures Valid() && fresh(Repr - old(Repr))
      ensures Refilled(s, row[..i + 1]) && next == NodeAt(nodes, i + 1)
      decreases Gap(Total(s.rows) + |row|, |s.rows|, loadfactor), 1, 1
    {
      LinkedAt(head, nodes, row, i);
      RefillStep(func, loadfactor, s, row, i);
      hide Valid, Linked, Threshold, Flatten, HashSpec.Put, View, Gap, Refill;
      var _ := PutFull(node.key, node.value, node.freekey, node.freevalue);
      next := node.next;
    }

    // All chains of the old array, in their order.
    method RefillingAll(old_buckets: array<Node?<K, V>>, ghost nodes: seq<seq<Node<K, V>>>, ghost entries: seq<Row<K, V>>)
      requires Valid() && old_buckets.Length == |nodes| == |entries| && old_buckets !in Repr
      requires forall b :: 0 <= b < |nodes| ==> Linked(old_buckets[b], nodes[b], entries[b]) && forall n :: n in nodes[b] ==> n !in Repr
      modifies Repr
      ensures Valid() && fresh(Repr - old(Repr))
      ensures Refilled(old(Abstract()), Flatten(entries))
      decreases Gap(Total(rows) + Total(entries), |rows|, loadfactor), 2, 1
    {
      assert |rows| > 0 && loadfactor > 0.0;
      assert entries[..0] == [];
      ghost var s := Abstract();
      hide Valid, Linked, Threshold, HashSpec.Put, View, Gap, Total;
      for x := 0 to old_buckets.Length
        invariant Valid() && fresh(Repr - old(Repr))
        invariant Refilled(s, Flatten(entries[..x]))
      {
        hide Refill;
        RefillRow(func, loadfactor, s, entries, x);
        Refilling(old_buckets[x], nodes[x], entries[x]);
      }
      assert entries[..old_buckets.Length] == entries;
    }

    /** ufa_hashtable_rehash */
    method Rehash()
      requires Valid()
      modifies Repr
      ensures Valid() && fresh(Repr - old(Repr))
      ensures Abstract() == HashSpec.Rehash(func, loadfactor, old(Abstract()))
      decreases Gap(Total(rows), |rows|, loadfactor), if Gap(Total(rows), |rows|, loadfactor) == 0 then 3 else 0, 0
    {
      ghost var nodes, entries := chains, rows;
      var old_buckets := buckets;
      var old_size := bucket_size;
      GapCloses(Total(entries), old_size, loadfactor);
      EmptyTotal<Entry<K, V>>(2 * old_size);
      assert forall b :: 0 <= b < old_size ==> Linked(old_buckets[b], nodes[b], entries[b]);
      assert forall b, n :: 0 <= b < old_size && n in nodes[b] ==> n in Repr;
      hide Shape, Inv, Linked, Threshold, HashSpec.Put, View, Gap, Refill, Flatten;
      Renew(2 * old_size);
      RefillingAll(old_buckets, nodes, entries);
    }

    /** ufa_hashtable_remove */
    method Remove(key: K) returns (found: bool)
      requires Valid()
      modifies Repr
      ensures Valid() && Repr == old(Repr)
      ensures Abstract() == HashSpec.Remove(func, old(Abstract()), key)
      ensures found == (key in old(View(Abstract())))
    {
      GetLaw(func, Abstract(), key);
      var to_del, prev, bucket := FindNode(key);
      found := to_del != null;
      if found {
        Drop(key, to_del, prev, bucket);
      }
    }

    method Drop(key: K, to_del: Node<K, V>, prev: Node?<K, V>, bucket: nat)
      requires Valid() && key in View(Abstract()) && bucket == Home(func, key, |rows|)
      requires var i := Find(rows[bucket], key);
        i < |rows[bucket]| && to_del == chains[bucket][i] && prev == if i == 0 then null else chains[bucket][i - 1]
      modifies Repr
      ensures Valid() && Repr == old(Repr)
      ensures Abstract() == HashSpec.Remove(func, old(Abstract()), key)
    {
      ghost var i := Find(rows[bucket], key);
      RemoveLaw(func, Abstract(), key);
      RemoveCounts(func, Abstract(), key);
      AloneBefore(bucket, i);
      hide Inv, Threshold, Flatten, View, Home, Find, Linked;
      FreeKeyAndValue(to_del);
      Detach(to_del, prev, bucket, i);
      num_elements := num_elements - 1;
    }

    // A node leaves its chain.
    method Detach(to_del: Node<K, V>, prev: Node?<K, V>, bucket: nat, ghost i: nat)
      requires Shape() && bucket < |chains| && i < |chains[bucket]| && to_del == chains[bucket][i]
      requires prev == if i == 0 then null else chains[bucket][i - 1]
      requires i > 0 ==> forall j :: 0 <= j < |chains[bucket]| && j != i - 1 ==> chains[bucket][j] != prev
      requires i > 0 ==> forall c :: 0 <= c < |chains| && c != bucket ==> prev !in chains[c]
      modifies this`chains, this`rows, buckets, prev
      ensures Shape()
      ensures rows == old(rows)[bucket := old(rows)[bucket][..i] + old(rows)[bucket][i + 1..]]
    {
      ghost var nodes, row := chains[bucket], rows[bucket];
      hide Linked;
      if prev == null {
        Pop(to_del, nodes, row);
        buckets[bucket] := to_del.next;
      } else {
        Skip(prev, to_del, buckets[bucket], nodes, row, i);
      }
      assert forall b :: 0 <= b < |chains| && b != bucket ==> old(Linked(buckets[b], chains[b], rows[b]));
      chains := chains[bucket := nodes[..i] + nodes[i + 1..]];
      rows := rows[bucket := row[..i] + row[i + 1..]];
    }

    /** ufa_hashtable_clear */
    method Clear()
      requires Valid()
      modifies Repr
      ensures Valid() && Repr == old(Repr) && bucket_size == old(bucket_size)
      ensures Abstract() == HashSpec.Clear(old(Abstract()))
    {
      ghost var size := bucket_size;
      FreeChains();
      num_elements := 0;
      chains, rows := Empty(size), Empty(size);
      EmptyTotal<Entry<K, V>>(size);
    }

    method FreeChains()
      requires bucket_size == buckets.Length == |chains| == |rows|
      requires forall b :: 0 <= b < bucket_size ==> Linked(buckets[b], chains[b], rows[b])
      modifies this`freed, buckets
      ensures freed == old(freed) + FreeAll(Flatten(rows))
      ensures forall b :: 0 <= b < bucket_size ==> buckets[b] == null
    {
      ghost var was, size, heads, nodes, entries := freed, bucket_size, buckets[..], chains, rows;
      assert entries[..0] == [] && entries[..size] == entries;
      EmptyAll<K, V>();
      hide *;
      for x := 0 to bucket_size
        invariant forall b :: 0 <= b < size ==> buckets[b] == if b < x then null else heads[b]
        invariant forall b :: 0 <= b < size ==> Linked(heads[b], nodes[b], entries[b])
        invariant freed == was + FreeAll(Flatten(entries[..x]))
      {
        FreeBucket(x, nodes[x], entries[x]);
        FreeRow(was, entries, x);
      }
    }

    method FreeBucket(x: nat, ghost nodes: seq<Node<K, V>>, ghost row: Row<K, V>)
      requires x < buckets.Length && Linked(buckets[x], nodes, row)
      modifies this`freed, buckets
      ensures freed == old(freed) + FreeAll(row) && buckets[x] == null
      ensures forall b :: 0 <= b < buckets.Length && b != x ==> buckets[b] == old(buckets[b])
    {
      FreeChain(buckets[x], nodes, row);
      buckets[x] := null;
    }

    lemma {:induction false} FreeNone(row: Row<K, V>)
      ensures FreeAll(row[..0]) == []
    {
      assert row[..0] == [];
    }

    method FreeChain(head: Node?<K, V>, ghost nodes: seq<Node<K, V>>, ghost row: Row<K, V>)
      requires Linked(head, nodes, row)
      modifies this`freed
      ensures freed == old(freed) + FreeAll(row)
    {
      var node := head;
      ghost var i, was := 0, freed;
      LinkedAt(head, nodes, row, 0);
      FreeNone(row);
      hide Linked, FreeAll;
      while node != null
        invariant i <= |row| && |nodes| == |row| && node == NodeAt(nodes, i)
        invariant freed == was + FreeAll(row[..i])
        decreases |row| - i
      {
        LinkedAt(head, nodes, row, i);
        FreeLast(was, row, i);
        FreeKeyAndValue(node);
        node := node.next;
        i := i + 1;
      }
      assert row[..i] == row;
    }

    /** ufa_hashtable_keys */
    method Keys() returns (keys: seq<Ptr<K>>)
      requires Valid()
      ensures keys == KeyList(Flatten(rows))
    {
      keys := [];
      assert rows[..0] == [];
      for x := 0 to bucket_size
        invariant keys == Reversed(KeyList(Flatten(rows[..x])))
      {
        FlattenLast(rows, x);
        var node := buckets[x];
        ghost var i, done := 0, Flatten(rows[..x]);
        LinkedAt(buckets[x], chains[x], rows[x], 0);
        assert done + rows[x][..0] == done;
        while node != null
          invariant i <= |rows[x]| && node == NodeAt(chains[x], i)
          invariant keys == Reversed(KeyList(done + rows[x][..i]))
          decreases |rows[x]| - i
        {
          LinkedAt(buckets[x], chains[x], rows[x], i);
          KeyListLast(done, rows[x], i);
          keys := [node.key] + keys;
          node := node.next;
          i := i + 1;
        }
        assert rows[x][..i] == rows[x];
      }
      assert rows[..bucket_size] == rows;
      ReversedTwice(KeyList(Flatten(rows)));
      keys := Reversed(keys);
    }

    /** ufa_hashtable_values */
    method Values() returns (values: seq<Option<V>>)
      requires Valid()
      ensures values == ValueList(Flatten(rows))
    {
      values := [];
      assert rows[..0] == [];
      for x := 0 to bucket_size
        invariant values == Reversed(ValueList(Flatten(rows[..x])))
      {
        FlattenLast(rows, x);
        var node := buckets[x];
        ghost var i, done := 0, Flatten(rows[..x]);
        LinkedAt(buckets[x], chains[x], rows[x], 0);
        assert done + rows[x][..0] == done;
        while node != null
          invariant i <= |rows[x]| && node == NodeAt(chains[x], i)
          invariant values == Reversed(ValueList(done + rows[x][..i]))
          decreases |rows[x]| - i
        {
          LinkedAt(buckets[x], chains[x], rows[x], i);
          ValueListLast(done, rows[x], i);
          values := [node.value] + values;
          node := node.next;
          i := i + 1;
        }
        assert rows[x][..i] == rows[x];
      }
      assert rows[..bucket_size] == rows;
      ReversedTwice(ValueList(Flatten(rows)));
      values := Reversed(values);
    }
  }

  lemma {:induction false} FreeLast<K, V>(was: seq<Asset<K, V>>, row: Row<K, V>, i: nat)
    requires i < |row|
    ensures was + FreeAll(row[..i]) + FreeKey(row[i]) + FreeValue(row[i]) == was + FreeAll(row[..i + 1])
  {
    assert row[..i + 1] == row[..i] + [row[i]] && [row[i]][1..] == [];
    FreeAppend(row[..i], [row[i]]);
  }

  lemma {:induction false} FreeRow<K, V>(was: seq<Asset<K, V>>, rows: seq<Row<K, V>>, x: nat)
    requires x < |rows|
    ensures was + FreeAll(Flatten(rows[..x])) + FreeAll(rows[x]) == was + FreeAll(Flatten(rows[..x + 1]))
  {
    FlattenLast(rows, x);
    FreeAppend(Flatten(rows[..x]), rows[x]);
  }

  lemma {:induction false} EmptyAll<K, V>()
    ensures FreeAll<K, V>(Flatten([])) == []
  {
  }

  lemma {:induction false} KeyListAppend<K, V>(a: Row<K, V>, e: Entry<K, V>)
    ensures KeyList(a + [e]) == KeyList(a) + [e.key] && ValueList(a + [e]) == ValueList(a) + [e.value]
  {
  }

  lemma {:induction false} KeyListLast<K, V>(done: Row<K, V>, row: Row<K, V>, i: nat)
    requires i < |row|
    ensures Reversed(KeyList(done + row[..i + 1])) == [row[i].key] + Reversed(KeyList(done + row[..i]))
  {
    var a := done + row[..i];
    hide KeyList, ValueList;
    KeyListAppend(a, row[i]);
    assert done + row[..i + 1] == a + [row[i]];
    ReversedAppend(KeyList(a), [row[i].key]);
    ReversedOne(row[i].key);
  }

  lemma {:induction false} ValueListLast<K, V>(done: Row<K, V>, row: Row<K, V>, i: nat)
    requires i < |row|
    ensures Reversed(ValueList(done + row[..i + 1])) == [row[i].value] + Reversed(ValueList(done + row[..i]))
  {
    var a := done + row[..i];
    hide KeyList, ValueList;
    KeyListAppend(a, row[i]);
    assert done + row[..i + 1] == a + [row[i]];
    ReversedAppend(ValueList(a), [row[i].value]);
    ReversedOne(row[i].value);
  }

  lemma {:induction false} EmptyInv<K(!new), V(!new)>(hash: K -> int, size: nat)
    requires size > 0
    ensures Inv(hash, Empty<Entry<K, V>>(size)) && Total(Empty<Entry<K, V>>(size)) == 0
  {
    EmptyTotal<Entry<K, V>>(size);
  }

  // What remove does to the number of entries.
  lemma {:induction false} RemoveCounts<K(!new), V(!new)>(hash: K -> int, s: State<K, V>, key: K)
    requires |s.rows| > 0
    ensures var row := s.rows[Home(hash, key, |s.rows|)];
      Total(HashSpec.Remove(hash, s, key).rows) == if Find(row, key) < |row| then Total(s.rows) - 1 else Total(s.rows)
  {
    var b := Home(hash, key, |s.rows|);
    var row := s.rows[b];
    var i := Find(row, key);
    if i < |row| {
      FlattenUpdate(s.rows, b, row[..i] + row[i + 1..]);
    }
  }

  lemma {:induction false} LinkedAt<K, V>(head: Node?<K, V>, nodes: seq<Node<K, V>>, row: Row<K, V>, i: nat)
    requires Linked(head, nodes, row)
    ensures |nodes| == |row| && head == NodeAt(nodes, 0)
    ensures i < |nodes| ==> nodes[i].Pair() == row[i] && nodes[i].next == NodeAt(nodes, i + 1)
  {
  }

  lemma {:induction false} Push<K, V>(node: Node<K, V>, nodes: seq<Node<K, V>>, row: Row<K, V>)
    requires Linked(node.next, nodes, row)
    ensures Linked(node, [node] + nodes, [node.Pair()] + row)
  {
  }

  // A node of a chain gets another pair.
  method Write<K, V>(node: Node<K, V>, key: Ptr<K>, value: Option<V>, freek: bool, freev: bool,
      ghost head: Node?<K, V>, ghost nodes: seq<Node<K, V>>, ghost row: Row<K, V>, ghost i: nat)
    requires Linked(head, nodes, row) && i < |nodes| && nodes[i] == node
    requires forall j :: 0 <= j < |nodes| && j != i ==> nodes[j] != node
    modifies node
    ensures Linked(head, nodes, row[i := Entry(key, value, freek, freev)])
  {
    node.key, node.value, node.freekey, node.freevalue := key, value, freek, freev;
    forall j | 0 <= j < |nodes|
      ensures nodes[j].Pair() == row[i := Entry(key, value, freek, freev)][j] && nodes[j].next == NodeAt(nodes, j + 1)
    {
      assert old(nodes[j].Pair()) == row[j] && old(nodes[j].next) == NodeAt(nodes, j + 1);
    }
  }

  lemma {:induction false} Pop<K, V>(node: Node<K, V>, nodes: seq<Node<K, V>>, row: Row<K, V>)
    requires nodes != [] && Linked(node, nodes, row)
    ensures Linked(node.next, nodes[..0] + nodes[1..], row[..0] + row[1..])
  {
    forall i | 0 <= i < |nodes| - 1
      ensures nodes[1..][i].Pair() == row[1..][i] && nodes[1..][i].next == NodeAt(nodes[1..], i + 1)
    {
      LinkedAt(node, nodes, row, i + 1);
    }
    assert nodes[..0] + nodes[1..] == nodes[1..] && row[..0] + row[1..] == row[1..];
    LinkedAt(node, nodes, row, 0);
  }

  // The node behind prev is taken out of its chain.
  method Skip<K, V>(prev: Node<K, V>, to_del: Node<K, V>, ghost head: Node?<K, V>, ghost nodes: seq<Node<K, V>>, ghost row: Row<K, V>, ghost i: nat)
    requires Linked(head, nodes, row) && 0 < i < |nodes| && nodes[i - 1] == prev && nodes[i] == to_del
    requires forall j :: 0 <= j < |nodes| && j != i - 1 ==> nodes[j] != prev
    modifies prev
    ensures Linked(head, nodes[..i] + nodes[i + 1..], row[..i] + row[i + 1..])
  {
    LinkedAt(head, nodes, row, i);
    prev.next := to_del.next;
    ghost var nodes', row' := nodes[..i] + nodes[i + 1..], row[..i] + row[i + 1..];
    forall j | 0 <= j < |nodes'|
      ensures nodes'[j].Pair() == row'[j] && nodes'[j].next == NodeAt(nodes', j + 1)
    {
      var k := if j < i then j else j + 1;
      assert nodes'[j] == nodes[k] && row'[j] == row[k];
      assert old(nodes[k].Pair()) == row[k] && old(nodes[k].next) == NodeAt(nodes, k + 1);
    }
  }

  // One unfolding of put.
  lemma {:induction false} PutStep<K(!new), V(!new)>(hash: K -> int, load: real, s: State<K, V>, e: Entry<K, V>)
    requires |s.rows| > 0 && load > 0.0
    ensures var b := Home(hash, e.key.data, |s.rows|);
      var i := Find(s.rows[b], e.key.data);
      var s' := s.(rows := s.rows[b := [e] + s.rows[b]]);
      HashSpec.Put(hash, load, s, e) ==
        if i < |s.rows[b]| then Replace(s, b, i, e)
        else if Total(s'.rows) > Threshold(|s'.rows|, load) then HashSpec.Rehash(hash, load, s')
        else s'
  {
  }

  lemma {:induction false} FindIs<K(!new), V(!new)>(row: Row<K, V>, key: K, i: nat)
    requires i <= |row| && (forall j :: 0 <= j < i ==> row[j].key.data != key)
    requires i < |row| ==> row[i].key.data == key
    ensures Find(row, key) == i
  {
  }

  lemma {:induction false} DistinctRow<K(!new), V(!new)>(rows: seq<Row<K, V>>, b: nat)
    requires b < |rows| && Distinct(Flatten(rows))
    ensures Distinct(rows[b])
  {
    FlattenUpdate(rows, b, rows[b]);
    var left := Flatten(rows[..b]);
    forall i, j | 0 <= i < j < |rows[b]|
      ensures rows[b][i].key.data != rows[b][j].key.data
    {
      assert rows[b][i] == Flatten(rows)[|left| + i] && rows[b][j] == Flatten(rows)[|left| + j];
    }
  }
}
