/**
 * Partitioning a sequence by a string key, as the `reduce` into a
 * `Record<string, …>` in `groupByDate` and in the exercise summary's
 * per-type histogram does: one group per key that occurs, items kept in
 * input order, and group sizes adding up to the input length.
 */
module Grouping {

  /** Some item of `xs` has key `k`. */
  predicate HasKey<T>(xs: seq<T>, key: T -> string, k: string)
  {
    exists i :: 0 <= i < |xs| && key(xs[i]) == k
  }

  predicate Distinct(ks: seq<string>)
  {
    forall i, j :: 0 <= i < j < |ks| ==> ks[i] != ks[j]
  }

  /** The items of `xs` whose key is `k`, in input order. */
  function Select<T>(xs: seq<T>, key: T -> string, k: string): (r: seq<T>)
    ensures |r| <= |xs|
    ensures forall j :: 0 <= j < |r| ==> key(r[j]) == k
    ensures |r| > 0 <==> HasKey(xs, key, k)
  {
    if |xs| == 0 then []
    else
      var p, x := xs[..|xs| - 1], xs[|xs| - 1];
      assert HasKey(xs, key, k) <==> HasKey(p, key, k) || key(x) == k by {
        assert forall i :: 0 <= i < |p| ==> p[i] == xs[i];
      }
      Select(p, key, k) + (if key(x) == k then [x] else [])
  }

  /** Appending one item extends exactly the selection for that item's key. */
  lemma SelectSnoc<T>(p: seq<T>, x: T, key: T -> string, k: string)
    ensures Select(p + [x], key, k) == Select(p, key, k) + (if key(x) == k then [x] else [])
  {
    assert (p + [x])[..|p|] == p;
  }

  /** An item is selected under `k` exactly when it occurs in `xs` with key `k`. */
  lemma {:induction false} SelectMembers<T>(xs: seq<T>, key: T -> string, k: string, y: T)
    ensures y in Select(xs, key, k) <==> y in xs && key(y) == k
  {
    if |xs| > 0 {
      var p, x := xs[..|xs| - 1], xs[|xs| - 1];
      assert xs == p + [x];
      SelectMembers(p, key, k, y);
      SelectSnoc(p, x, key, k);
    }
  }

  /** Selecting from a concatenation selects from each part, in order. */
  lemma {:induction false} SelectAppend<T>(xs: seq<T>, ys: seq<T>, key: T -> string, k: string)
    ensures Select(xs + ys, key, k) == Select(xs, key, k) + Select(ys, key, k)
  {
    if |ys| == 0 {
      assert xs + ys == xs;
    } else {
      var q, y := ys[..|ys| - 1], ys[|ys| - 1];
      assert xs + ys == (xs + q) + [y];
      assert ys == q + [y];
      SelectAppend(xs, q, key, k);
      SelectSnoc(xs + q, y, key, k);
      SelectSnoc(q, y, key, k);
    }
  }

  /** The groups: each key that occurs, mapped to the items carrying it. */
  function GroupBy<T>(xs: seq<T>, key: T -> string): (m: map<string, seq<T>>)
    ensures forall k :: k in m <==> HasKey(xs, key, k)
    ensures forall k :: k in m ==> m[k] == Select(xs, key, k) && |m[k]| > 0
  {
    if |xs| == 0 then map[]
    else
      var p, x := xs[..|xs| - 1], xs[|xs| - 1];
      var m := GroupBy(p, key);
      assert xs == p + [x];
      GroupStep(p, x, key, m);
      m[key(x) := (if key(x) in m then m[key(x)] else []) + [x]]
  }

  /** Adding one item to the groups of `p` gives the groups of `p + [x]`. */
  lemma GroupStep<T>(p: seq<T>, x: T, key: T -> string, m: map<string, seq<T>>)
    requires forall k :: k in m <==> HasKey(p, key, k)
    requires forall k :: k in m ==> m[k] == Select(p, key, k) && |m[k]| > 0
    ensures var r := m[key(x) := (if key(x) in m then m[key(x)] else []) + [x]];
      && (forall k :: k in r <==> HasKey(p + [x], key, k))
      && (forall k :: k in r ==> r[k] == Select(p + [x], key, k) && |r[k]| > 0)
  {
    forall k ensures HasKey(p + [x], key, k) <==> HasKey(p, key, k) || key(x) == k {
      HasKeySnoc(p, x, key, k);
    }
    forall k { SelectSnoc(p, x, key, k); }
  }

  /** Appending one item adds exactly that item's key to the keys that occur. */
  lemma HasKeySnoc<T>(p: seq<T>, x: T, key: T -> string, k: string)
    ensures HasKey(p + [x], key, k) <==> HasKey(p, key, k) || key(x) == k
  {
    if HasKey(p, key, k) {
      var i :| 0 <= i < |p| && key(p[i]) == k;
      assert (p + [x])[i] == p[i];
    }
    if key(x) == k {
      assert (p + [x])[|p|] == x;
    }
  }

  /** A group of a concatenation is that key's group of the first part followed by its group of the second. */
  lemma GroupByAppend<T>(a: seq<T>, b: seq<T>, key: T -> string, k: string)
    requires HasKey(a, key, k) && HasKey(b, key, k)
    ensures k in GroupBy(a, key) && k in GroupBy(b, key)
    ensures k in GroupBy(a + b, key)
    ensures GroupBy(a + b, key)[k] == GroupBy(a, key)[k] + GroupBy(b, key)[k]
  {
    SelectAppend(a, b, key, k);
    assert HasKey(a + b, key, k) by {
      var i :| 0 <= i < |a| && key(a[i]) == k;
      assert (a + b)[i] == a[i];
    }
  }

  /** The per-key counts: each key that occurs, mapped to how many items carry it. */
  function CountBy<T>(xs: seq<T>, key: T -> string): (m: map<string, nat>)
    ensures forall k :: k in m <==> HasKey(xs, key, k)
    ensures forall k :: k in m ==> m[k] == |Select(xs, key, k)| && m[k] > 0
  {
    if |xs| == 0 then map[]
    else
      var p, x := xs[..|xs| - 1], xs[|xs| - 1];
      var m := CountBy(p, key);
      assert xs == p + [x];
      CountStep(p, x, key, m);
      m[key(x) := (if key(x) in m then m[key(x)] else 0) + 1]
  }

  /** Adding one item to the counts of `p` gives the counts of `p + [x]`. */
  lemma CountStep<T>(p: seq<T>, x: T, key: T -> string, m: map<string, nat>)
    requires forall k :: k in m <==> HasKey(p, key, k)
    requires forall k :: k in m ==> m[k] == |Select(p, key, k)| && m[k] > 0
    ensures var r := m[key(x) := (if key(x) in m then m[key(x)] else 0) + 1];
      && (forall k :: k in r <==> HasKey(p + [x], key, k))
      && (forall k :: k in r ==> r[k] == |Select(p + [x], key, k)| && r[k] > 0)
  {
    forall k ensures HasKey(p + [x], key, k) <==> HasKey(p, key, k) || key(x) == k {
      HasKeySnoc(p, x, key, k);
    }
    forall k { SelectSnoc(p, x, key, k); }
  }

  /** The keys that occur, each once, in order of first occurrence. */
  function DistinctKeys<T>(xs: seq<T>, key: T -> string): (ks: seq<string>)
    ensures Distinct(ks)
    ensures forall k :: k in ks <==> HasKey(xs, key, k)
  {
    if |xs| == 0 then []
    else
      var p, x := xs[..|xs| - 1], xs[|xs| - 1];
      assert forall i :: 0 <= i < |p| ==> p[i] == xs[i];
      var ks := DistinctKeys(p, key);
      if key(x) in ks then ks else ks + [key(x)]
  }

  /** The total size of the groups named by `ks`. */
  function SelectedTotal<T>(xs: seq<T>, key: T -> string, ks: seq<string>): nat
  {
    if |ks| == 0 then 0
    else SelectedTotal(xs, key, ks[..|ks| - 1]) + |Select(xs, key, ks[|ks| - 1])|
  }

  /** Appending one item adds one to the total exactly when its key is named. */
  lemma {:induction false} SelectedTotalAppendItem<T>(p: seq<T>, x: T, key: T -> string, ks: seq<string>)
    requires Distinct(ks)
    ensures SelectedTotal(p + [x], key, ks) == SelectedTotal(p, key, ks) + (if key(x) in ks then 1 else 0)
  {
    if |ks| > 0 {
      var q, k := ks[..|ks| - 1], ks[|ks| - 1];
      assert Distinct(q);
      SelectedTotalAppendItem(p, x, key, q);
      assert (p + [x])[..|p|] == p;
      assert key(x) in ks <==> key(x) in q || key(x) == k;
      assert !(key(x) in q && key(x) == k);
    }
  }

  /** Every item lands in exactly one group, so group sizes sum to the input length. */
  lemma {:induction false} GroupSizesSum<T>(xs: seq<T>, key: T -> string)
    ensures SelectedTotal(xs, key, DistinctKeys(xs, key)) == |xs|
  {
    if |xs| > 0 {
      var p, x := xs[..|xs| - 1], xs[|xs| - 1];
      assert xs == p + [x];
      var ks := DistinctKeys(p, key);
      GroupSizesSum(p, key);
      SelectedTotalAppendItem(p, x, key, ks);
      if key(x) !in ks {
        assert !HasKey(p, key, key(x));
        assert Select(p, key, key(x)) == [];
        assert (ks + [key(x)])[..|ks|] == ks;
        assert DistinctKeys(xs, key) == ks + [key(x)];
      }
    }
  }
}
