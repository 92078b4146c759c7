/**
 * An insertion-ordered table: the model of a JavaScript `Map`. `keys` is the
 * iteration order and `vals` the entries. `set` on a key already present keeps
 * its place in the order; on a new key it appends; `delete` drops the key from
 * the order.
 */
module Tables {
  ghost predicate Distinct<K>(s: seq<K>) {
    forall i, j :: 0 <= i < j < |s| ==> s[i] != s[j]
  }

  /** The tail of a distinct sequence is distinct and lacks its head. */
  lemma DistinctTail<K>(s: seq<K>)
    requires Distinct(s) && s != []
    ensures Distinct(s[1..]) && s[0] !in s[1..]
    ensures forall k :: k in s[1..] ==> k in s && k != s[0]
  {
    forall i, j | 0 <= i < j < |s[1..]| ensures s[1..][i] != s[1..][j] {
      assert s[1..][i] == s[i + 1] && s[1..][j] == s[j + 1];
    }
    forall k | k in s[1..] ensures k in s && k != s[0] {
      var i :| 0 <= i < |s[1..]| && s[1..][i] == k;
      assert s[i + 1] == k;
    }
  }

  /** `s` with every occurrence of `k` taken out, the rest in order. */
  function Without<K(==,!new)>(s: seq<K>, k: K): (r: seq<K>)
    ensures forall x :: x in r <==> x in s && x != k
    ensures Distinct(s) ==> Distinct(r)
    ensures k !in s ==> r == s
    ensures Distinct(s) && k in s ==> |r| == |s| - 1
  {
    if s == [] then []
    else if s[0] == k then Without(s[1..], k)
    else
      assert Distinct(s) ==> s[0] !in s[1..] by {
        if Distinct(s) {
          forall j | 0 <= j < |s[1..]| ensures s[1..][j] != s[0] {
            assert s[1..][j] == s[j + 1];
          }
        }
      }
      [s[0]] + Without(s[1..], k)
  }

  datatype Table<K(==,!new), V> = Table(keys: seq<K>, vals: map<K, V>) {
    /** The order lists every key once, and exactly the keys of the entries. */
    ghost predicate Valid() {
      Distinct(keys) && forall k :: k in vals <==> k in keys
    }

    /** `Map.prototype.size`. */
    function Size(): nat {
      |keys|
    }

    /** `Map.prototype.set`. */
    function Put(k: K, v: V): (t: Table<K, V>)
      ensures t.vals == vals[k := v]
      ensures t.keys == if k in vals then keys else keys + [k]
      ensures Valid() ==> t.Valid()
    {
      if k in vals then Table(keys, vals[k := v]) else Table(keys + [k], vals[k := v])
    }

    /** `Map.prototype.delete`. */
    function Delete(k: K): (t: Table<K, V>)
      ensures t.vals == vals - {k}
      ensures t.keys == Without(keys, k)
      ensures Valid() ==> t.Valid()
      ensures Valid() && k in vals ==> t.Size() == Size() - 1
      ensures k !in vals && Valid() ==> t == this
    {
      Table(Without(keys, k), vals - {k})
    }

    /** `Array.from(map.values())`: the entries in iteration order. */
    function Values(): (vs: seq<V>)
      requires Valid()
      ensures |vs| == |keys|
      ensures forall i :: 0 <= i < |keys| ==> vs[i] == vals[keys[i]]
    {
      seq(|keys|, i requires 0 <= i < |keys| => vals[keys[i]])
    }
  }

  /** `vs` stored one `set` at a time under the consecutive keys `next`, `next + 1`, ... */
  function PutFrom<V>(t: Table<nat, V>, next: nat, vs: seq<V>): Table<nat, V>
    decreases |vs|
  {
    if vs == [] then t else PutFrom(t.Put(next, vs[0]), next + 1, vs[1..])
  }

  /** Storing nothing leaves the table as it was. */
  lemma PutFromNothing<V>(t: Table<nat, V>, next: nat, vs: seq<V>)
    requires |vs| == 0
    ensures PutFrom(t, next, vs) == t
  {
  }

  /** Storing under keys above every key present keeps the table valid and grows it by `|vs|`. */
  lemma {:induction false} PutFromValid<V>(t: Table<nat, V>, next: nat, vs: seq<V>)
    requires t.Valid() && forall k :: k in t.vals ==> k < next
    ensures PutFrom(t, next, vs).Valid() && PutFrom(t, next, vs).Size() == t.Size() + |vs|
    decreases |vs|
  {
    if vs != [] {
      var t1 := t.Put(next, vs[0]);
      assert next !in t.keys && t1.Size() == t.Size() + 1;
      assert forall k :: k in t1.vals ==> k < next + 1;
      PutFromValid(t1, next + 1, vs[1..]);
    }
  }

  /** The table gains exactly the keys `next` to `next + |vs| - 1`. */
  lemma {:induction false} PutFromKeys<V>(t: Table<nat, V>, next: nat, vs: seq<V>)
    ensures forall k :: k in PutFrom(t, next, vs).vals <==> k in t.vals || next <= k < next + |vs|
    decreases |vs|
  {
    if vs != [] {
      var t1 := t.Put(next, vs[0]);
      PutFromKeys(t1, next + 1, vs[1..]);
    }
  }

  /** Those keys are appended to the order: the keys present keep their places. */
  lemma {:induction false} PutFromOrder<V>(t: Table<nat, V>, next: nat, vs: seq<V>)
    ensures t.keys <= PutFrom(t, next, vs).keys
    decreases |vs|
  {
    if vs != [] {
      var t1 := t.Put(next, vs[0]);
      PutFromOrder(t1, next + 1, vs[1..]);
    }
  }

  /** Storing under keys above every key present keeps every entry the table had. */
  lemma {:induction false} PutFromKeeps<V>(t: Table<nat, V>, next: nat, vs: seq<V>)
    requires forall k :: k in t.vals ==> k < next
    ensures var r := PutFrom(t, next, vs);
      forall k :: k in t.vals ==> k in r.vals && r.vals[k] == t.vals[k]
    decreases |vs|
  {
    if vs != [] {
      var t1 := t.Put(next, vs[0]);
      var r := PutFrom(t1, next + 1, vs[1..]);
      assert PutFrom(t, next, vs) == r;
      assert forall k :: k in t1.vals ==> k < next + 1;
      PutFromKeeps(t1, next + 1, vs[1..]);
      forall k | k in t.vals ensures k in r.vals && r.vals[k] == t.vals[k] {
        assert k in t1.vals && t1.vals[k] == t.vals[k];
      }
    }
  }

  /** Afterwards `vs[k - next]` is stored under each new key `k`. */
  lemma {:induction false} PutFromStores<V>(t: Table<nat, V>, next: nat, vs: seq<V>)
    requires forall k :: k in t.vals ==> k < next
    ensures forall k :: next <= k < next + |vs| ==> k in PutFrom(t, next, vs).vals && PutFrom(t, next, vs).vals[k] == vs[k - next]
    decreases |vs|
  {
    if vs != [] {
      var t1 := t.Put(next, vs[0]);
      var r := PutFrom(t1, next + 1, vs[1..]);
      assert PutFrom(t, next, vs) == r;
      assert forall k :: k in t1.vals ==> k < next + 1;
      PutFromKeys(t1, next + 1, vs[1..]);
      forall k | next <= k < next + |vs| ensures k in r.vals && r.vals[k] == vs[k - next] {
        assert k in r.vals;
        if k == next {
          PutFromKeeps(t1, next + 1, vs[1..]);
          assert t1.vals[k] == vs[0];
        } else {
          PutFromStores(t1, next + 1, vs[1..]);
          assert r.vals[k] == vs[1..][k - (next + 1)];
        }
      }
    }
  }

  function Empty<K(==,!new), V>(): (t: Table<K, V>)
    ensures t.Valid() && t.Size() == 0
  {
    Table([], map[])
  }
}
