/** Moving the elements of an array by one place, as the name map and the list of
    servers do to insert and remove. */
module Shifting {
  /** Elements from i on move up; the place at i is free. */
  method ShiftUp<T>(a: array<T>, i: nat, used: nat)
    requires i <= used < a.Length
    modifies a
    ensures a[..i] == old(a[..i]) && a[i + 1..used + 1] == old(a[i..used])
  {
    var j := used;
    while j > i
      invariant i <= j <= used
      invariant a[..j] == old(a[..j]) && a[j + 1..used + 1] == old(a[j..used])
    {
      a[j] := a[j - 1];
      j := j - 1;
    }
  }

  /** Elements after i move down over it. */
  method ShiftDown<T>(a: array<T>, i: nat, used: nat)
    requires i < used <= a.Length
    modifies a
    ensures a[..used - 1] == old(a[..i]) + old(a[i + 1..used])
  {
    var j := i + 1;
    while j < used
      invariant i < j <= used
      invariant a[..j - 1] == old(a[..i]) + old(a[i + 1..j])
      invariant a[j..used] == old(a[j..used])
    {
      assert a[j] == a[j..used][0] == old(a[j]);
      a[j - 1] := a[j];
      j := j + 1;
    }
  }
}
