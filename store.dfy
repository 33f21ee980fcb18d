/**
 An in-memory stand-in for the key-value table: items addressed by a
 (partition key, sort key) pair, a put that overwrites whatever is stored at
 the item's key, and a scan of one partition by sort-key prefix (the
 `begins_with(SK, :sk)` key condition).
 */
module Store {

  datatype Option<T> = None | Some(value: T)

  /** An attribute value: string, number, list or map. */
  datatype Value =
    | S(s: string)
    | N(n: int)
    | L(elems: seq<Value>)
    | M(fields: map<string, Value>)

  datatype Key = Key(pk: string, sk: string)

  /**
   A record: its key attributes (`PK`, `SK`) and the remaining attributes by
   name. Every record a put stores carries both key attributes.
   */
  datatype Item = Item(key: Key, attrs: map<string, Value>)

  type Table = map<Key, Item>

  /** Table invariant: every stored item names the key it is stored under. */
  predicate Stored(t: Table) {
    forall k :: k in t ==> t[k].key == k
  }

  /** No item of `t` lives in partition `pk`. */
  predicate PartitionEmpty(t: Table, pk: string) {
    forall k :: k in t ==> k.pk != pk
  }

  /** The keys a sequence of puts addresses. */
  function KeysOf(w: seq<Item>): set<Key> {
    set i | 0 <= i < |w| :: w[i].key
  }

  predicate DistinctKeys(w: seq<Item>) {
    forall i, j :: 0 <= i < j < |w| ==> w[i].key != w[j].key
  }

  /**
   The table after the puts `w`, issued in order: each put replaces the entry
   at its item's key (last write wins).
   */
  function Apply(t: Table, w: seq<Item>): Table
    decreases |w|
  {
    if w == [] then t
    else Apply(t, w[..|w| - 1])[w[|w| - 1].key := w[|w| - 1]]
  }

  lemma KeysOfSnoc(w: seq<Item>)
    requires w != []
    ensures KeysOf(w) == KeysOf(w[..|w| - 1]) + {w[|w| - 1].key}
  {
    var front := w[..|w| - 1];
    forall k | k in KeysOf(w) ensures k in KeysOf(front) + {w[|w| - 1].key} {
      var i :| 0 <= i < |w| && w[i].key == k;
      if i < |w| - 1 { assert front[i].key == k; }
    }
    forall k | k in KeysOf(front) ensures k in KeysOf(w) {
      var i :| 0 <= i < |front| && front[i].key == k;
      assert w[i].key == k;
    }
  }

  /** The keys present after the puts: the old ones and every key a put addressed. */
  lemma {:induction false} ApplyKeys(t: Table, w: seq<Item>)
    ensures Apply(t, w).Keys == t.Keys + KeysOf(w)
    decreases |w|
  {
    if w != [] {
      ApplyKeys(t, w[..|w| - 1]);
      KeysOfSnoc(w);
    }
  }

  /** Puts issued one batch after another compose. */
  lemma {:induction false} ApplyAppend(t: Table, a: seq<Item>, b: seq<Item>)
    ensures Apply(t, a + b) == Apply(Apply(t, a), b)
    decreases |b|
  {
    if b == [] {
      assert a + b == a;
    } else {
      var front := b[..|b| - 1];
      assert (a + b)[..|a + b| - 1] == a + front;
      ApplyAppend(t, a, front);
    }
  }

  /** A put of an item whose key no later put addresses is what remains at that key. */
  lemma {:induction false} LastWriteWins(t: Table, w: seq<Item>, i: nat)
    requires i < |w|
    requires forall j :: i < j < |w| ==> w[j].key != w[i].key
    ensures w[i].key in Apply(t, w) && Apply(t, w)[w[i].key] == w[i]
    decreases |w|
  {
    if i < |w| - 1 {
      var front := w[..|w| - 1];
      LastWriteWins(t, front, i);
    }
  }

  /** A key that no put addresses keeps its old entry, or stays absent. */
  lemma {:induction false} Untouched(t: Table, w: seq<Item>, k: Key)
    requires k !in KeysOf(w)
    ensures k in Apply(t, w) <==> k in t
    ensures k in t ==> Apply(t, w)[k] == t[k]
    decreases |w|
  {
    if w != [] {
      var front := w[..|w| - 1];
      KeysOfSnoc(w);
      Untouched(t, front, k);
    }
  }

  /** Applying puts overrides the old table with the entries the puts alone produce. */
  lemma {:induction false} ApplyOverrides(t: Table, w: seq<Item>)
    ensures Apply(t, w) == t + Apply(map[], w)
    decreases |w|
  {
    if w != [] {
      var front := w[..|w| - 1];
      ApplyOverrides(t, front);
    }
  }

  /** Repeating the same puts leaves the table as one round of them does. */
  lemma ApplyIdempotent(t: Table, w: seq<Item>)
    ensures Apply(Apply(t, w), w) == Apply(t, w)
  {
    ApplyOverrides(t, w);
    ApplyOverrides(Apply(t, w), w);
    var m := Apply(map[], w);
    assert (t + m) + m == t + m;
  }

  /** Puts keep the table invariant. */
  lemma {:induction false} ApplyStored(t: Table, w: seq<Item>)
    requires Stored(t)
    ensures Stored(Apply(t, w))
    decreases |w|
  {
    if w != [] {
      ApplyStored(t, w[..|w| - 1]);
    }
  }

  /** At most one key per put; exactly one when the puts address distinct keys. */
  lemma {:induction false} KeysOfSize(w: seq<Item>)
    ensures |KeysOf(w)| <= |w|
    ensures DistinctKeys(w) ==> |KeysOf(w)| == |w|
    decreases |w|
  {
    if w != [] {
      var front := w[..|w| - 1];
      var last := w[|w| - 1].key;
      KeysOfSize(front);
      KeysOfSnoc(w);
      if DistinctKeys(w) {
        forall i | 0 <= i < |front| ensures front[i].key != last {
          assert front[i].key == w[i].key;
        }
        assert last !in KeysOf(front);
      }
    }
  }

  /** The puts of `w` whose sort key starts with `p`, in order. */
  function Only(w: seq<Item>, p: string): (r: seq<Item>)
    ensures |r| <= |w|
    ensures forall i :: 0 <= i < |r| ==> p <= r[i].key.sk
    decreases |w|
  {
    if w == [] then []
    else
      var last := w[|w| - 1];
      Only(w[..|w| - 1], p) + (if p <= last.key.sk then [last] else [])
  }

  lemma {:induction false} OnlyAppend(a: seq<Item>, b: seq<Item>, p: string)
    ensures Only(a + b, p) == Only(a, p) + Only(b, p)
    decreases |b|
  {
    if b == [] {
      assert a + b == a;
    } else {
      assert (a + b)[..|a + b| - 1] == a + b[..|b| - 1];
      OnlyAppend(a, b[..|b| - 1], p);
    }
  }

  /**
   At a key whose sort key starts with `p`, the table depends only on the puts
   of that kind: the other puts address other keys.
   */
  lemma {:induction false} OnlyAgrees(t: Table, w: seq<Item>, p: string, k: Key)
    requires p <= k.sk
    ensures k in Apply(t, w) <==> k in Apply(t, Only(w, p))
    ensures k in Apply(t, w) ==> Apply(t, w)[k] == Apply(t, Only(w, p))[k]
    decreases |w|
  {
    if w != [] {
      var front := w[..|w| - 1];
      var last := w[|w| - 1];
      var kept := Only(front, p);
      OnlyAgrees(t, front, p, k);
      if p <= last.key.sk {
        assert Only(w, p) == kept + [last];
        ApplySnoc(t, kept, last);
      } else {
        assert Only(w, p) == kept;
      }
    }
  }

  lemma ApplySnoc(t: Table, w: seq<Item>, x: Item)
    ensures Apply(t, w + [x]) == Apply(t, w)[x.key := x]
  {
    assert (w + [x])[..|w|] == w;
  }

  /** Exactly the items stored in partition `pk` under a sort key starting with `prefix`. */
  ghost predicate ExactScan(t: Table, pk: string, prefix: string, r: set<Item>) {
    && (forall k :: k in t && k.pk == pk && prefix <= k.sk ==> t[k] in r)
    && (forall item :: item in r ==>
          exists k :: k in t && k.pk == pk && prefix <= k.sk && t[k] == item)
  }

  /** The keys of partition `pk` whose sort key starts with `prefix`. */
  function MatchingKeys(t: Table, pk: string, prefix: string): set<Key> {
    set k | k in t && k.pk == pk && prefix <= k.sk
  }

  /**
   A query with key condition `PK = pk AND begins_with(SK, prefix)`, read as
   one complete page; the result order is not modelled.
   */
  function Query(t: Table, pk: string, prefix: string): (r: set<Item>)
    ensures ExactScan(t, pk, prefix, r)
  {
    set k | k in MatchingKeys(t, pk, prefix) :: t[k]
  }

  /** No two stored keys share an item, so a scan returns one item per matching key. */
  lemma QuerySize(t: Table, pk: string, prefix: string)
    requires Stored(t)
    ensures |Query(t, pk, prefix)| == |MatchingKeys(t, pk, prefix)|
  {
    ImageSize(t, MatchingKeys(t, pk, prefix));
  }

  lemma {:induction false} ImageSize(t: Table, ks: set<Key>)
    requires Stored(t) && ks <= t.Keys
    ensures |set k | k in ks :: t[k]| == |ks|
    decreases ks
  {
    if ks != {} {
      var k :| k in ks;
      var rest := ks - {k};
      ImageSize(t, rest);
      var img := set x | x in ks :: t[x];
      var imgRest := set x | x in rest :: t[x];
      assert img == imgRest + {t[k]};
      forall x | x in rest ensures t[x] != t[k] {
        assert t[x].key == x && t[k].key == k;
      }
      assert t[k] !in imgRest;
    }
  }

  /** The table as a mutable object: one map from key to item, overwritten by each put. */
  class KeyValueTable {
    var items: Table

    ghost predicate Valid()
      reads this
    {
      Stored(items)
    }

    constructor ()
      ensures Valid() && items == map[]
    {
      items := map[];
    }

    /** put_item: store `item` at its key, replacing any earlier item there. */
    method PutItem(item: Item)
      requires Valid()
      modifies this
      ensures Valid()
      ensures items == old(items)[item.key := item]
    {
      items := items[item.key := item];
    }
  }
}
