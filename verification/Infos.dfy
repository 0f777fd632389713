/** The lists that hold what is known of each descriptor (Tools/gdomap.c:465-619). */
module Infos {
  import opened Wrappers

  datatype Info<T> = Info(s: nat, value: T)

  // The first entry for a descriptor, as all the searches find it.
  function Index<T>(xs: seq<Info<T>>, s: nat): (i: nat)
    ensures i <= |xs| && (i < |xs| ==> xs[i].s == s) && forall k :: 0 <= k < i ==> xs[k].s != s
  {
    if xs == [] || xs[0].s == s then 0 else 1 + Index(xs[1..], s)
  }

  function Get<T>(xs: seq<Info<T>>, s: nat): Option<T> {
    var i := Index(xs, s);
    if i < |xs| then Some(xs[i].value) else None
  }

  // The list with the entry for s changed, or made at the end.
  function Put<T>(xs: seq<Info<T>>, s: nat, v: T): seq<Info<T>> {
    var i := Index(xs, s);
    if i < |xs| then xs[i := Info(s, v)] else xs + [Info(s, v)]
  }

  // The list without the entry for s; the later ones move down.
  function Del<T>(xs: seq<Info<T>>, s: nat): seq<Info<T>> {
    var i := Index(xs, s);
    if i < |xs| then xs[..i] + xs[i + 1..] else xs
  }

  /** No descriptor has two entries. */
  ghost predicate Unique<T>(xs: seq<Info<T>>) {
    forall i, j :: 0 <= i < j < |xs| ==> xs[i].s != xs[j].s
  }

  lemma IndexIs<T>(xs: seq<Info<T>>, s: nat, i: nat)
    requires i <= |xs| && (i < |xs| ==> xs[i].s == s) && forall k :: 0 <= k < i ==> xs[k].s != s
    ensures Index(xs, s) == i
  {
    var j := Index(xs, s);
    assert j < i ==> j < |xs|;
  }

  /** Changing one entry changes no other. */
  lemma PutGet<T>(xs: seq<Info<T>>, s: nat, v: T, t: nat)
    ensures Get(Put(xs, s, v), t) == if t == s then Some(v) else Get(xs, t)
  {
    var ys, i := Put(xs, s, v), Index(xs, s);
    assert forall k :: 0 <= k < |xs| && k != i ==> ys[k] == xs[k];
    assert ys[i] == Info(s, v);
    if t == s {
      IndexIs(ys, s, i);
    } else {
      var j := Index(xs, t);
      IndexIs(ys, t, if j < |xs| then j else |ys|);
    }
  }

  lemma PutUnique<T>(xs: seq<Info<T>>, s: nat, v: T)
    requires Unique(xs)
    ensures Unique(Put(xs, s, v))
  {
    var ys, i := Put(xs, s, v), Index(xs, s);
    assert forall k :: 0 <= k < |xs| ==> ys[k].s == xs[k].s;
  }

  /** Removing one entry removes no other. */
  lemma DelGet<T>(xs: seq<Info<T>>, s: nat, t: nat)
    requires Unique(xs)
    ensures Get(Del(xs, s), t) == if t == s then None else Get(xs, t)
  {
    var ys, i := Del(xs, s), Index(xs, s);
    if i < |xs| {
      assert forall k :: 0 <= k < |ys| ==> ys[k] == xs[if k < i then k else k + 1];
      if t == s {
        IndexIs(ys, s, |ys|);
      } else {
        var j := Index(xs, t);
        assert j < |xs| ==> j != i;
        IndexIs(ys, t, if j < i then j else j - 1);
      }
    }
  }

  lemma DelUnique<T>(xs: seq<Info<T>>, s: nat)
    requires Unique(xs)
    ensures Unique(Del(xs, s))
  {
    var ys, i := Del(xs, s), Index(xs, s);
    assert i < |xs| ==> forall k :: 0 <= k < |ys| ==> ys[k] == xs[if k < i then k else k + 1];
  }

  // What removing does, with the entry found or not.
  lemma DelAll<T>(xs: seq<Info<T>>, s: nat)
    requires Unique(xs)
    ensures Unique(Del(xs, s)) && forall t :: Get(Del(xs, s), t) == if t == s then None else Get(xs, t)
    ensures var i := Index(xs, s); Del(xs, s) == if i < |xs| then xs[..i] + xs[i + 1..] else xs
  {
    forall t
      ensures Get(Del(xs, s), t) == if t == s then None else Get(xs, t)
    {
      DelGet(xs, s, t);
    }
    DelUnique(xs, s);
  }

  // The loop in getRInfo, delRInfo, getWInfo and delWInfo.
  method Find<T>(xs: seq<Info<T>>, s: nat) returns (i: nat)
    ensures i == Index(xs, s)
  {
    i := 0;
    while i < |xs| && xs[i].s != s
      invariant i <= |xs| && forall k :: 0 <= k < i ==> xs[k].s != s
    {
      i := i + 1;
    }
    IndexIs(xs, s, i);
  }
}
