/**
 * The usage ledger `app_usage`: a Python dict from app name to accumulated
 * seconds. Python dicts remember insertion order (it decides ties in the
 * top-apps report), so the ledger is the key order plus the key-value map.
 */
module UsageLedger {

  datatype Ledger<K> = Ledger(order: seq<K>, secs: map<K, real>)
  {
    /** Keys are unique and `order` lists exactly the keys of `secs`. */
    ghost predicate Valid() {
      && (forall i, j :: 0 <= i < j < |order| ==> order[i] != order[j])
      && (forall k :: k in secs ==> k in order)
      && (forall k :: k in order ==> k in secs)
    }
  }

  /** One `(name, seconds)` pair of `app_usage.items()`. */
  datatype Item<K> = Item(name: K, secs: real)

  /** The empty ledger `{}`. */
  function Empty<K>(): Ledger<K> {
    Ledger([], map[])
  }

  /** `app_usage.get(name, 0)`: the entry of a key, 0 for a key never written. */
  function Get<K>(l: Ledger<K>, name: K): (r: real)
    ensures name in l.secs ==> r == l.secs[name]
    ensures name !in l.secs ==> r == 0.0
  {
    if name in l.secs then l.secs[name] else 0.0
  }

  /** `app_usage[name] = v`: an existing key keeps its place, a new key goes last. */
  function Put<K>(l: Ledger<K>, name: K, v: real): (r: Ledger<K>)
    requires l.Valid()
    ensures r.Valid()
    ensures r.secs == l.secs[name := v]
    ensures l.order <= r.order
  {
    if name in l.secs then Ledger(l.order, l.secs[name := v])
    else Ledger(l.order + [name], l.secs[name := v])
  }

  /** `app_usage[name] = app_usage.get(name, 0) + amount`. */
  function Credit<K>(l: Ledger<K>, name: K, amount: real): (r: Ledger<K>)
    requires l.Valid()
    ensures r.Valid()
    ensures name in r.secs && r.secs[name] == Get(l, name) + amount
    ensures l.order <= r.order
  {
    Put(l, name, Get(l, name) + amount)
  }

  /** Crediting raises `name`'s entry by `amount` (from 0 when absent) and leaves every other key as it was. */
  lemma CreditGet<K>(l: Ledger<K>, name: K, amount: real)
    requires l.Valid()
    ensures Get(Credit(l, name, amount), name) == Get(l, name) + amount
    ensures forall k :: k != name ==> Get(Credit(l, name, amount), k) == Get(l, k)
    ensures Credit(l, name, amount).secs.Keys == l.secs.Keys + {name}
    ensures Credit(l, name, amount).order == l.order + (if name in l.secs then [] else [name])
  {
  }

  /** Crediting a non-negative amount loses no key and lowers no entry. */
  lemma CreditGrows<K>(l: Ledger<K>, name: K, amount: real)
    requires l.Valid() && amount >= 0.0
    ensures Grows(l, Credit(l, name, amount))
    ensures NonNeg(l) ==> NonNeg(Credit(l, name, amount))
  {
    CreditGet(l, name, amount);
  }

  /** Every entry is non-negative. */
  ghost predicate NonNeg<K>(l: Ledger<K>) {
    forall k :: k in l.secs ==> l.secs[k] >= 0.0
  }

  /** No key of `a` is lost in `b` and no entry decreases. */
  ghost predicate Grows<K>(a: Ledger<K>, b: Ledger<K>) {
    forall k :: k in a.secs ==> k in b.secs && a.secs[k] <= b.secs[k]
  }

  lemma GrowsTransitive<K>(a: Ledger<K>, b: Ledger<K>, c: Ledger<K>)
    requires Grows(a, b) && Grows(b, c)
    ensures Grows(a, c)
  {
  }

  /** Sum of the values of the keys `ks`. */
  function SumOf<K>(ks: seq<K>, m: map<K, real>): real
    requires forall k :: k in ks ==> k in m
  {
    if ks == [] then 0.0 else m[ks[0]] + SumOf(ks[1..], m)
  }

  /** Total seconds held by the ledger. */
  function Total<K>(l: Ledger<K>): real
    requires l.Valid()
  {
    SumOf(l.order, l.secs)
  }

  lemma {:induction false} SumOfAppend<K>(ks: seq<K>, k: K, m: map<K, real>)
    requires forall x :: x in ks ==> x in m
    requires k in m
    ensures SumOf(ks + [k], m) == SumOf(ks, m) + m[k]
  {
    if ks != [] {
      assert (ks + [k])[1..] == ks[1..] + [k];
      SumOfAppend(ks[1..], k, m);
    }
  }

  lemma {:induction false} SumOfUpdate<K>(ks: seq<K>, m: map<K, real>, k: K, v: real)
    requires forall x :: x in ks ==> x in m
    requires forall i, j :: 0 <= i < j < |ks| ==> ks[i] != ks[j]
    ensures SumOf(ks, m[k := v]) == SumOf(ks, m) + (if k in ks then v - m[k] else 0.0)
  {
    if ks != [] {
      assert forall i, j :: 0 <= i < j < |ks[1..]| ==> ks[1..][i] != ks[1..][j] by {
        forall i, j | 0 <= i < j < |ks[1..]| ensures ks[1..][i] != ks[1..][j] {
          assert ks[1..][i] == ks[i + 1] && ks[1..][j] == ks[j + 1];
        }
      }
      SumOfUpdate(ks[1..], m, k, v);
      if ks[0] == k {
        assert k !in ks[1..] by {
          forall j | 0 <= j < |ks[1..]| ensures ks[1..][j] != k {
            assert ks[1..][j] == ks[j + 1];
          }
        }
      } else {
        assert k in ks <==> k in ks[1..];
      }
    }
  }

  /** Writing `v` under `name` changes the total by `v` minus the old entry. */
  lemma TotalPut<K>(l: Ledger<K>, name: K, v: real)
    requires l.Valid()
    ensures Total(Put(l, name, v)) == Total(l) - Get(l, name) + v
  {
    SumOfUpdate(l.order, l.secs, name, v);
    if name !in l.secs {
      SumOfAppend(l.order, name, l.secs[name := v]);
    }
  }

  /** Crediting `amount` raises the total by exactly `amount`. */
  lemma TotalCredit<K>(l: Ledger<K>, name: K, amount: real)
    requires l.Valid()
    ensures Total(Credit(l, name, amount)) == Total(l) + amount
  {
    TotalPut(l, name, Get(l, name) + amount);
  }

  /** `app_usage.items()`, in insertion order. */
  function Items<K>(l: Ledger<K>): (r: seq<Item<K>>)
    requires l.Valid()
    ensures |r| == |l.order|
    ensures forall i :: 0 <= i < |r| ==> r[i].name == l.order[i] && r[i].secs == l.secs[l.order[i]]
  {
    seq(|l.order|, i requires 0 <= i < |l.order| => Item(l.order[i], l.secs[l.order[i]]))
  }

  /** `app_usage.clear()`. */
  function Clear<K>(l: Ledger<K>): (r: Ledger<K>)
    ensures r.Valid() && r.secs == map[] && r.order == []
  {
    Empty()
  }

  /** Put each of `ks` in turn with its value from `m`. */
  function MergeKeys<K>(l: Ledger<K>, ks: seq<K>, m: map<K, real>): (r: Ledger<K>)
    requires l.Valid()
    requires forall k :: k in ks ==> k in m
    ensures r.Valid()
    ensures l.order <= r.order
    decreases |ks|
  {
    if ks == [] then l
    else MergeKeys(Put(l, ks[0], m[ks[0]]), ks[1..], m)
  }

  /** After the merge, the keys of `ks` hold their values from `m` and every other key is untouched. */
  lemma {:induction false} MergeKeysSecs<K(!new)>(l: Ledger<K>, ks: seq<K>, m: map<K, real>)
    requires l.Valid()
    requires forall k :: k in ks ==> k in m
    ensures forall k :: k in MergeKeys(l, ks, m).secs <==> k in l.secs || k in ks
    ensures forall k :: k in ks ==> MergeKeys(l, ks, m).secs[k] == m[k]
    ensures forall k :: k in l.secs && k !in ks ==> MergeKeys(l, ks, m).secs[k] == l.secs[k]
    decreases |ks|
  {
    if ks != [] {
      assert forall k :: k in ks <==> k == ks[0] || k in ks[1..];
      MergeKeysSecs(Put(l, ks[0], m[ks[0]]), ks[1..], m);
    }
  }

  /** `app_usage.update(loaded)`, over the ledger read from the file. */
  function Merge<K>(l: Ledger<K>, loaded: Ledger<K>): (r: Ledger<K>)
    requires l.Valid() && loaded.Valid()
    ensures r.Valid()
    ensures l.order <= r.order
  {
    MergeKeys(l, loaded.order, loaded.secs)
  }

  /**
   * Keys of the loaded ledger overwrite or extend; keys absent from it keep
   * their value (and, by `Merge`'s contract, their place).
   */
  lemma MergeSecs<K(!new)>(l: Ledger<K>, loaded: Ledger<K>)
    requires l.Valid() && loaded.Valid()
    ensures var r := Merge(l, loaded);
      && r.secs.Keys == l.secs.Keys + loaded.secs.Keys
      && (forall k :: k in loaded.secs ==> r.secs[k] == loaded.secs[k])
      && (forall k :: k in l.secs && k !in loaded.secs ==> r.secs[k] == l.secs[k])
  {
    MergeKeysSecs(l, loaded.order, loaded.secs);
    var r := Merge(l, loaded);
    forall k ensures k in r.secs.Keys <==> k in l.secs.Keys + loaded.secs.Keys {
      assert k in loaded.order <==> k in loaded.secs;
    }
    assert r.secs.Keys == l.secs.Keys + loaded.secs.Keys;
  }

  /** Merging keys that are all new appends them, in order. */
  lemma {:induction false} MergeKeysFresh<K>(l: Ledger<K>, ks: seq<K>, m: map<K, real>)
    requires l.Valid()
    requires forall i :: 0 <= i < |ks| ==> ks[i] in m && ks[i] !in l.secs
    requires forall i, j :: 0 <= i < j < |ks| ==> ks[i] != ks[j]
    ensures MergeKeys(l, ks, m).order == l.order + ks
    decreases |ks|
  {
    if ks != [] {
      var l' := Put(l, ks[0], m[ks[0]]);
      FreshTail(l, ks, m);
      MergeKeysFresh(l', ks[1..], m);
      ConsAppend(l.order, ks);
    }
  }

  /** The keys of `ks` that are not in `known`, in their order in `ks`. */
  function NewKeys<K>(ks: seq<K>, known: set<K>): (r: seq<K>)
    ensures |r| <= |ks|
    ensures forall i :: 0 <= i < |r| ==> r[i] in ks && r[i] !in known
    decreases |ks|
  {
    if ks == [] then []
    else if ks[0] in known then NewKeys(ks[1..], known)
    else [ks[0]] + NewKeys(ks[1..], known)
  }

  /** Knowing a key that `ks` does not hold changes nothing. */
  lemma {:induction false} NewKeysSkip<K>(ks: seq<K>, known: set<K>, x: K)
    requires x !in ks
    ensures NewKeys(ks, known + {x}) == NewKeys(ks, known)
    decreases |ks|
  {
    if ks != [] {
      assert x !in ks[1..];
      NewKeysSkip(ks[1..], known, x);
    }
  }

  /**
   * The key order after putting distinct keys one by one: the old keys in
   * their old order, then the keys that were new, in the order of `ks`.
   */
  lemma {:induction false} MergeKeysOrder<K>(l: Ledger<K>, ks: seq<K>, m: map<K, real>)
    requires l.Valid()
    requires forall k :: k in ks ==> k in m
    requires forall i, j :: 0 <= i < j < |ks| ==> ks[i] != ks[j]
    ensures MergeKeys(l, ks, m).order == l.order + NewKeys(ks, l.secs.Keys)
    decreases |ks|
  {
    if ks != [] {
      var x := ks[0];
      var rest := ks[1..];
      var l' := Put(l, x, m[x]);
      DistinctTail(ks);
      MergeKeysOrder(l', rest, m);
      assert NewKeys(rest, l'.secs.Keys) == NewKeys(rest, l.secs.Keys) by {
        assert l'.secs.Keys == l.secs.Keys + {x};
        NewKeysSkip(rest, l.secs.Keys, x);
      }
      PutNewKeys(l, ks, m[x]);
    }
  }

  /** Putting the head of `ks` moves it from the new keys onto the key order. */
  lemma PutNewKeys<K>(l: Ledger<K>, ks: seq<K>, v: real)
    requires l.Valid() && ks != []
    ensures Put(l, ks[0], v).order + NewKeys(ks[1..], l.secs.Keys) == l.order + NewKeys(ks, l.secs.Keys)
  {
    var x := ks[0];
    var added := NewKeys(ks[1..], l.secs.Keys);
    if x !in l.secs {
      assert NewKeys(ks, l.secs.Keys) == [x] + added;
      assert (l.order + [x]) + added == l.order + ([x] + added);
    }
  }

  /** The tail of a sequence of distinct keys is distinct and misses the head. */
  lemma DistinctTail<K>(ks: seq<K>)
    requires ks != []
    requires forall i, j :: 0 <= i < j < |ks| ==> ks[i] != ks[j]
    ensures forall i, j :: 0 <= i < j < |ks[1..]| ==> ks[1..][i] != ks[1..][j]
    ensures ks[0] !in ks[1..]
  {
    var rest := ks[1..];
    forall i, j | 0 <= i < j < |rest| ensures rest[i] != rest[j] {
      assert rest[i] == ks[i + 1] && rest[j] == ks[j + 1];
    }
    forall i | 0 <= i < |rest| ensures rest[i] != ks[0] {
      assert rest[i] == ks[i + 1];
    }
  }

  /**
   * Key order after `app_usage.update(loaded)`: the existing keys first, in
   * their order, then the loaded keys that were absent, in loaded order.
   */
  lemma MergeOrder<K>(l: Ledger<K>, loaded: Ledger<K>)
    requires l.Valid() && loaded.Valid()
    ensures Merge(l, loaded).order == l.order + NewKeys(loaded.order, l.secs.Keys)
  {
    MergeKeysOrder(l, loaded.order, loaded.secs);
  }

  lemma ConsAppend<T>(a: seq<T>, s: seq<T>)
    requires s != []
    ensures (a + [s[0]]) + s[1..] == a + s
  {
    assert [s[0]] + s[1..] == s;
  }

  /** After putting the first fresh key, the remaining keys are still fresh and distinct. */
  lemma FreshTail<K>(l: Ledger<K>, ks: seq<K>, m: map<K, real>)
    requires l.Valid() && ks != []
    requires forall i :: 0 <= i < |ks| ==> ks[i] in m && ks[i] !in l.secs
    requires forall i, j :: 0 <= i < j < |ks| ==> ks[i] != ks[j]
    ensures Put(l, ks[0], m[ks[0]]).order == l.order + [ks[0]]
    ensures forall i :: 0 <= i < |ks[1..]| ==> ks[1..][i] in m && ks[1..][i] !in Put(l, ks[0], m[ks[0]]).secs
    ensures forall i, j :: 0 <= i < j < |ks[1..]| ==> ks[1..][i] != ks[1..][j]
  {
    var rest := ks[1..];
    forall i | 0 <= i < |rest| ensures rest[i] != ks[0] {
      assert rest[i] == ks[i + 1];
    }
  }

  /** Loading a saved ledger into an empty one reproduces it exactly, order included. */
  lemma MergeIntoEmpty<K(!new)>(loaded: Ledger<K>)
    requires loaded.Valid()
    ensures Merge(Empty(), loaded) == loaded
  {
    var e: Ledger<K> := Empty();
    var r := Merge(e, loaded);
    MergeSecs(e, loaded);
    assert e.secs.Keys == {};
    assert r.secs.Keys == loaded.secs.Keys;
    SameMap(r.secs, loaded.secs);
    MergeKeysFresh(e, loaded.order, loaded.secs);
    assert r.order == [] + loaded.order;
  }

  lemma SameMap<K, V>(a: map<K, V>, b: map<K, V>)
    requires a.Keys == b.Keys
    requires forall k :: k in a ==> a[k] == b[k]
    ensures a == b
  {
  }

  /** Merging non-negative ledgers keeps every entry non-negative. */
  lemma MergeNonNeg<K(!new)>(l: Ledger<K>, loaded: Ledger<K>)
    requires l.Valid() && loaded.Valid()
    requires NonNeg(l) && NonNeg(loaded)
    ensures NonNeg(Merge(l, loaded))
  {
    MergeKeysSecs(l, loaded.order, loaded.secs);
  }
}
