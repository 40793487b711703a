/**
 * The report behind `get_top_apps`: ledger items sorted by seconds,
 * descending and stable (ties keep insertion order), cut to the limit with a
 * Python slice, and each entry turned into whole minutes with Python's
 * `round` (halves go to the even neighbour).
 */
module TopApps {
  import opened UsageLedger

  /** One `{"name": app, "timeUsed": minutes}` entry of the report. */
  datatype TopApp<K> = TopApp(name: K, timeUsed: int)

  /** Seconds never increase along `s`. */
  ghost predicate Descending<K>(s: seq<Item<K>>) {
    forall i, j :: 0 <= i < j < |s| ==> s[i].secs >= s[j].secs
  }

  /** The entries of `s` whose seconds equal `v`, in their order in `s`. */
  function Ties<K>(s: seq<Item<K>>, v: real): seq<Item<K>> {
    if s == [] then []
    else (if s[0].secs == v then [s[0]] else []) + Ties(s[1..], v)
  }

  /** Place `e` in front of the first entry of `t` whose seconds do not exceed its own. */
  function Insert<K>(e: Item<K>, t: seq<Item<K>>): (r: seq<Item<K>>)
    ensures |r| == |t| + 1
    ensures multiset(r) == multiset(t) + multiset{e}
  {
    if t == [] || t[0].secs <= e.secs then [e] + t
    else
      assert t == [t[0]] + t[1..];
      [t[0]] + Insert(e, t[1..])
  }

  /**
   * `sorted(items, key=lambda x: x[1], reverse=True)`: an insertion sort that
   * inserts each entry before the later ones it ties with, which is what a
   * stable descending sort does.
   */
  function SortDesc<K>(s: seq<Item<K>>): (r: seq<Item<K>>)
    ensures |r| == |s|
  {
    if s == [] then [] else Insert(s[0], SortDesc(s[1..]))
  }

  /** Inserting keeps every entry at or below a bound that `e` and `t` respect. */
  lemma {:induction false} InsertBounded<K>(e: Item<K>, t: seq<Item<K>>, b: real)
    requires e.secs <= b
    requires forall i :: 0 <= i < |t| ==> t[i].secs <= b
    ensures forall i :: 0 <= i < |Insert(e, t)| ==> Insert(e, t)[i].secs <= b
  {
    if t != [] && t[0].secs > e.secs {
      InsertBounded(e, t[1..], b);
    }
  }

  lemma {:induction false} InsertDescending<K>(e: Item<K>, t: seq<Item<K>>)
    requires Descending(t)
    ensures Descending(Insert(e, t))
  {
    if t != [] && t[0].secs > e.secs {
      InsertDescending(e, t[1..]);
      InsertBounded(e, t[1..], t[0].secs);
    }
  }

  /** The sorted report is in descending order of seconds. */
  lemma {:induction false} SortDescOrdered<K>(s: seq<Item<K>>)
    ensures Descending(SortDesc(s))
  {
    if s != [] {
      SortDescOrdered(s[1..]);
      InsertDescending(s[0], SortDesc(s[1..]));
    }
  }

  /** Sorting only rearranges: the same entries, each as often. */
  lemma {:induction false} SortDescPermutation<K>(s: seq<Item<K>>)
    ensures multiset(SortDesc(s)) == multiset(s)
  {
    if s != [] {
      SortDescPermutation(s[1..]);
      assert s == [s[0]] + s[1..];
    }
  }

  lemma {:induction false} TiesConcat<K>(a: seq<Item<K>>, b: seq<Item<K>>, v: real)
    ensures Ties(a + b, v) == Ties(a, v) + Ties(b, v)
  {
    if a == [] {
      assert a + b == b;
    } else {
      assert (a + b)[1..] == a[1..] + b;
      TiesConcat(a[1..], b, v);
    }
  }

  /** One step of `Ties` on a sequence with a known head. */
  lemma TiesCons<K>(x: Item<K>, t: seq<Item<K>>, v: real)
    ensures Ties([x] + t, v) == (if x.secs == v then [x] else []) + Ties(t, v)
  {
    assert ([x] + t)[1..] == t;
  }

  lemma {:induction false} TiesInsert<K>(e: Item<K>, t: seq<Item<K>>, v: real)
    ensures Ties(Insert(e, t), v) == (if e.secs == v then [e] else []) + Ties(t, v)
  {
    if t == [] || t[0].secs <= e.secs {
      TiesCons(e, t, v);
    } else {
      var rest := Insert(e, t[1..]);
      assert Insert(e, t) == [t[0]] + rest;
      TiesCons(t[0], rest, v);
      TiesInsert(e, t[1..], v);
      assert t == [t[0]] + t[1..];
      TiesCons(t[0], t[1..], v);
      // t[0] outranks e, so at most one of them ties with v
      if e.secs == v {
        assert t[0].secs != v;
      }
    }
  }

  /**
   * Stability: for every seconds value, the entries holding it come out in
   * the order they had going in (for the ledger, insertion order).
   */
  lemma {:induction false} SortDescStable<K>(s: seq<Item<K>>, v: real)
    ensures Ties(SortDesc(s), v) == Ties(s, v)
  {
    if s != [] {
      SortDescStable(s[1..], v);
      TiesInsert(s[0], SortDesc(s[1..]), v);
    }
  }

  /** `round(x)`: the nearest integer, a half going to the even neighbour. */
  function RoundHalfEven(x: real): (n: int)
    ensures -0.5 <= n as real - x <= 0.5
    ensures (n as real - x == 0.5 || x - n as real == 0.5) ==> n % 2 == 0
  {
    var f := x.Floor;
    var d := x - f as real;
    if d < 0.5 then f
    else if d > 0.5 then f + 1
    else if f % 2 == 0 then f
    else f + 1
  }

  /** `s[:limit]`: a negative limit drops that many entries from the end. */
  function Slice<T>(s: seq<T>, limit: int): (r: seq<T>)
    ensures r <= s
    ensures |r| == if limit >= 0 then (if limit < |s| then limit else |s|)
                   else (if |s| + limit > 0 then |s| + limit else 0)
  {
    if limit >= 0 then (if limit < |s| then s[..limit] else s)
    else (if |s| + limit > 0 then s[..|s| + limit] else [])
  }

  /** Seconds to whole minutes, as the report shows them. */
  function Minutes(secs: real): (n: int)
    ensures -0.5 <= n as real - secs / 60.0 <= 0.5
  {
    RoundHalfEven(secs / 60.0)
  }

  /** No two entries of `s` share a name. */
  ghost predicate DistinctNames<K>(s: seq<Item<K>>) {
    forall i, j :: 0 <= i < j < |s| ==> s[i].name != s[j].name
  }

  lemma {:induction false} InsertDistinct<K>(e: Item<K>, t: seq<Item<K>>)
    requires DistinctNames(t)
    requires forall j :: 0 <= j < |t| ==> t[j].name != e.name
    ensures DistinctNames(Insert(e, t))
  {
    if t != [] && t[0].secs > e.secs {
      var tail := Insert(e, t[1..]);
      assert DistinctNames(t[1..]) by {
        forall i, j | 0 <= i < j < |t[1..]| ensures t[1..][i].name != t[1..][j].name {
          assert t[1..][i] == t[i + 1] && t[1..][j] == t[j + 1];
        }
      }
      InsertDistinct(e, t[1..]);
      forall j | 0 <= j < |tail| ensures tail[j].name != t[0].name {
        assert tail[j] in multiset(t[1..]) + multiset{e};
        if tail[j] != e {
          var k :| 0 <= k < |t[1..]| && t[1..][k] == tail[j];
          assert t[k + 1] == tail[j];
        }
      }
      assert Insert(e, t) == [t[0]] + tail;
    }
  }

  /** Sorting entries with distinct names keeps them distinct. */
  lemma {:induction false} SortDescDistinct<K>(s: seq<Item<K>>)
    requires DistinctNames(s)
    ensures DistinctNames(SortDesc(s))
  {
    if s != [] {
      assert DistinctNames(s[1..]) by {
        forall i, j | 0 <= i < j < |s[1..]| ensures s[1..][i].name != s[1..][j].name {
          assert s[1..][i] == s[i + 1] && s[1..][j] == s[j + 1];
        }
      }
      SortDescDistinct(s[1..]);
      var t := SortDesc(s[1..]);
      SortDescPermutation(s[1..]);
      forall j | 0 <= j < |t| ensures t[j].name != s[0].name {
        assert t[j] in multiset(s[1..]);
        var k :| 0 <= k < |s[1..]| && s[1..][k] == t[j];
        assert s[k + 1] == t[j];
      }
      InsertDistinct(s[0], t);
    }
  }

  /**
   * The sorted items of a ledger are its entries: each names a key and
   * carries that key's seconds, and no key appears twice.
   */
  lemma SortedEntries<K>(l: Ledger<K>)
    requires l.Valid()
    ensures var sorted := SortDesc(Items(l));
      && DistinctNames(sorted)
      && forall i :: 0 <= i < |sorted| ==> sorted[i].name in l.secs && sorted[i].secs == l.secs[sorted[i].name]
  {
    var items := Items(l);
    var sorted := SortDesc(items);
    SortDescPermutation(items);
    SortDescDistinct(items);
    forall i | 0 <= i < |sorted| ensures sorted[i].name in l.secs && sorted[i].secs == l.secs[sorted[i].name] {
      assert sorted[i] in multiset(items);
      var k :| 0 <= k < |items| && items[k] == sorted[i];
    }
  }

  /**
   * What `get_top_apps(limit)` returns: the sorted items cut with
   * `[:limit]`, each as its name and whole minutes.
   */
  function Report<K>(l: Ledger<K>, limit: int): (r: seq<TopApp<K>>)
    requires l.Valid()
    ensures |r| <= |l.order|
    ensures limit >= 0 ==> |r| <= limit
  {
    var top := Slice(SortDesc(Items(l)), limit);
    seq(|top|, i requires 0 <= i < |top| => TopApp(top[i].name, Minutes(top[i].secs)))
  }

  /** The report has `min(limit, |ledger|)` entries, or drops `-limit` from the end for a negative limit. */
  lemma ReportLength<K>(l: Ledger<K>, limit: int)
    requires l.Valid()
    ensures |Report(l, limit)| == if limit >= 0 then (if limit < |l.order| then limit else |l.order|)
                                   else (if |l.order| + limit > 0 then |l.order| + limit else 0)
  {
  }

  /**
   * Every reported name is a distinct key of the ledger, and its minutes
   * are its seconds over 60 rounded to the nearest whole number.
   */
  lemma ReportEntries<K>(l: Ledger<K>, limit: int)
    requires l.Valid()
    ensures var r := Report(l, limit);
      && (forall i :: 0 <= i < |r| ==> r[i].name in l.secs)
      && (forall i, j :: 0 <= i < j < |r| ==> r[i].name != r[j].name)
      && (forall i :: 0 <= i < |r| ==> r[i].timeUsed == RoundHalfEven(l.secs[r[i].name] / 60.0))
  {
    var sorted := SortDesc(Items(l));
    SortedEntries(l);
    var r := Report(l, limit);
    assert forall i :: 0 <= i < |r| ==> r[i].name == sorted[i].name && r[i].timeUsed == Minutes(sorted[i].secs);
  }

  /** The report lists apps by seconds, most used first. */
  lemma ReportOrdered<K>(l: Ledger<K>, limit: int)
    requires l.Valid()
    ensures var r := Report(l, limit);
      forall i, j :: 0 <= i < j < |r| ==> r[i].name in l.secs && r[j].name in l.secs && l.secs[r[i].name] >= l.secs[r[j].name]
  {
    var sorted := SortDesc(Items(l));
    SortedEntries(l);
    SortDescOrdered(Items(l));
    var r := Report(l, limit);
    assert forall i :: 0 <= i < |r| ==> r[i].name == sorted[i].name;
  }

  /** After `app_usage.clear()` the report is empty, whatever the limit. */
  lemma ClearedReportEmpty<K>(l: Ledger<K>, limit: int)
    requires l.Valid()
    ensures Report(Clear(l), limit) == []
  {
  }

  /**
   * Ties in the report follow insertion order: for every seconds value, the
   * reported entries holding it are the first ledger entries holding it, in
   * the order the ledger gained them. The report's names are those entries'.
   */
  lemma ReportTies<K>(l: Ledger<K>, limit: int, v: real)
    requires l.Valid()
    ensures var top := Slice(SortDesc(Items(l)), limit);
      && Ties(top, v) <= Ties(Items(l), v)
      && |Report(l, limit)| == |top|
      && forall i :: 0 <= i < |top| ==> Report(l, limit)[i].name == top[i].name
  {
    var sorted := SortDesc(Items(l));
    var top := Slice(sorted, limit);
    var rest := sorted[|top|..];
    assert sorted == top + rest;
    TiesConcat(top, rest, v);
    SortDescStable(Items(l), v);
  }

  /** A key left out of the report has no more seconds than any app in it. */
  lemma ReportKeepsLargest<K>(l: Ledger<K>, limit: int, k: K)
    requires l.Valid()
    requires k in l.secs
    requires forall i :: 0 <= i < |Report(l, limit)| ==> Report(l, limit)[i].name != k
    ensures forall i :: 0 <= i < |Report(l, limit)| ==> Report(l, limit)[i].name in l.secs && l.secs[k] <= l.secs[Report(l, limit)[i].name]
  {
    var items := Items(l);
    var sorted := SortDesc(items);
    var r := Report(l, limit);
    SortedEntries(l);
    SortDescOrdered(items);
    SortDescPermutation(items);
    var p :| 0 <= p < |l.order| && l.order[p] == k;
    assert items[p] == Item(k, l.secs[k]);
    assert items[p] in multiset(sorted);
    var q :| 0 <= q < |sorted| && sorted[q] == items[p];
    assert forall i :: 0 <= i < |r| ==> r[i].name == sorted[i].name;
    assert sorted[q].name == k;
    assert q >= |r|;
  }
}
