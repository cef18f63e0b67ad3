/**
 * The list updates the record pages apply to their local state after a
 * successful write: prepend a new record, drop the records with an id, and
 * swap in an edited record by id. Generic over the record type, given the
 * record's id.
 */
module ListUpdates {

  /** `[x, ...xs]`: the new record goes first, the old list follows unchanged. */
  function Prepend<T>(x: T, xs: seq<T>): (r: seq<T>)
    ensures |r| == |xs| + 1 && r[0] == x && r[1..] == xs
  {
    [x] + xs
  }

  /** No record of `xs` carries `id`. */
  predicate IdAbsent<T>(xs: seq<T>, idOf: T -> string, id: string)
  {
    forall j :: 0 <= j < |xs| ==> idOf(xs[j]) != id
  }

  /** `xs.filter(x => x.id !== id)`: the records whose id differs, in order. */
  function RemoveById<T>(xs: seq<T>, idOf: T -> string, id: string): (r: seq<T>)
    ensures |r| <= |xs|
    ensures IdAbsent(r, idOf, id)
  {
    if |xs| == 0 then []
    else
      var x := xs[|xs| - 1];
      RemoveById(xs[..|xs| - 1], idOf, id) + (if idOf(x) != id then [x] else [])
  }

  /** A record survives removal exactly when it was there and carries another id. */
  lemma {:induction false} RemoveMembers<T>(xs: seq<T>, idOf: T -> string, id: string, y: T)
    ensures y in RemoveById(xs, idOf, id) <==> y in xs && idOf(y) != id
  {
    if |xs| > 0 {
      var p, x := xs[..|xs| - 1], xs[|xs| - 1];
      assert xs == p + [x];
      RemoveMembers(p, idOf, id, y);
    }
  }

  /** Removal works record by record, so it distributes over concatenation. */
  lemma {:induction false} RemoveAppend<T>(a: seq<T>, b: seq<T>, idOf: T -> string, id: string)
    ensures RemoveById(a + b, idOf, id) == RemoveById(a, idOf, id) + RemoveById(b, idOf, id)
  {
    if |b| == 0 {
      assert a + b == a;
    } else {
      var q := b[..|b| - 1];
      assert (a + b)[..|a + b| - 1] == a + q;
      RemoveAppend(a, q, idOf, id);
    }
  }

  /** Removing an id no record carries leaves the list as it was. */
  lemma {:induction false} RemoveAbsent<T>(xs: seq<T>, idOf: T -> string, id: string)
    requires IdAbsent(xs, idOf, id)
    ensures RemoveById(xs, idOf, id) == xs
  {
    if |xs| > 0 {
      var p := xs[..|xs| - 1];
      assert IdAbsent(p, idOf, id);
      RemoveAbsent(p, idOf, id);
      assert xs == p + [xs[|xs| - 1]];
    }
  }

  /** Deleting twice is deleting once. */
  lemma RemoveIdempotent<T>(xs: seq<T>, idOf: T -> string, id: string)
    ensures RemoveById(RemoveById(xs, idOf, id), idOf, id) == RemoveById(xs, idOf, id)
  {
    RemoveAbsent(RemoveById(xs, idOf, id), idOf, id);
  }

  /** `xs.map(x => x.id === y.id ? y : x)`: every record with `y`'s id becomes `y`. */
  function ReplaceById<T>(xs: seq<T>, idOf: T -> string, y: T): (r: seq<T>)
    ensures |r| == |xs|
    ensures forall j :: 0 <= j < |xs| ==> idOf(r[j]) == idOf(xs[j])
  {
    if |xs| == 0 then []
    else
      var x := xs[|xs| - 1];
      ReplaceById(xs[..|xs| - 1], idOf, y) + [if idOf(x) == idOf(y) then y else x]
  }

  /** Position by position, a record is swapped for `y` exactly when it carries `y`'s id. */
  lemma {:induction false} ReplaceAt<T>(xs: seq<T>, idOf: T -> string, y: T, j: int)
    requires 0 <= j < |xs|
    ensures ReplaceById(xs, idOf, y)[j] == if idOf(xs[j]) == idOf(y) then y else xs[j]
  {
    if j < |xs| - 1 {
      ReplaceAt(xs[..|xs| - 1], idOf, y, j);
    }
  }

  /** Updating a record whose id is not in the list changes nothing. */
  lemma ReplaceAbsent<T>(xs: seq<T>, idOf: T -> string, y: T)
    requires IdAbsent(xs, idOf, idOf(y))
    ensures ReplaceById(xs, idOf, y) == xs
  {
    forall j | 0 <= j < |xs| ensures ReplaceById(xs, idOf, y)[j] == xs[j] {
      ReplaceAt(xs, idOf, y, j);
    }
  }

  /** Applying the same update twice is applying it once. */
  lemma ReplaceIdempotent<T>(xs: seq<T>, idOf: T -> string, y: T)
    ensures ReplaceById(ReplaceById(xs, idOf, y), idOf, y) == ReplaceById(xs, idOf, y)
  {
    var r := ReplaceById(xs, idOf, y);
    forall j | 0 <= j < |xs| ensures ReplaceById(r, idOf, y)[j] == r[j] {
      ReplaceAt(r, idOf, y, j);
      ReplaceAt(xs, idOf, y, j);
    }
  }

  /** Deleting after an update is the same as deleting straight away: the update touches only that id. */
  lemma {:induction false} RemoveAfterReplace<T>(xs: seq<T>, idOf: T -> string, y: T)
    ensures RemoveById(ReplaceById(xs, idOf, y), idOf, idOf(y)) == RemoveById(xs, idOf, idOf(y))
  {
    if |xs| > 0 {
      var p, x := xs[..|xs| - 1], xs[|xs| - 1];
      var rp := ReplaceById(p, idOf, y);
      var x' := if idOf(x) == idOf(y) then y else x;
      assert ReplaceById(xs, idOf, y) == rp + [x'];
      assert (rp + [x'])[..|rp + [x']| - 1] == rp;
      RemoveAfterReplace(p, idOf, y);
    }
  }
}
