/** The two shifting loops that the array map and the array map pool have in common. */
module ArrayShift {

  /** Moves `a[index..len]` one slot up, over `a[len]`. */
  method ShiftUp<T>(a: array<T>, index: nat, len: nat)
    requires index <= len < a.Length
    modifies a
    ensures a[..index] == old(a[..index]) && a[index + 1..len + 1] == old(a[index..len])
    ensures a[len + 1..] == old(a[len + 1..])
  {
    ghost var was := a[..];
    var i := len;
    while i > index
      invariant index <= i <= len
      invariant forall j :: 0 <= j < i || len < j < a.Length ==> a[j] == was[j]
      invariant forall j :: i < j <= len ==> a[j] == was[j - 1]
    {
      a[i] := a[i - 1];
      i := i - 1;
    }
    assert a[..index] == was[..index] && a[index + 1..len + 1] == was[index..len] && a[len + 1..] == was[len + 1..];
  }

  /** Moves `a[index + 1..len]` one slot down, over `a[index]`. */
  method ShiftDown<T>(a: array<T>, index: nat, len: nat)
    requires index < len <= a.Length
    modifies a
    ensures a[..index] == old(a[..index]) && a[index..len - 1] == old(a[index + 1..len])
    ensures a[len..] == old(a[len..])
  {
    ghost var was := a[..];
    var i := index;
    while i < len - 1
      invariant index <= i < len
      invariant forall j :: 0 <= j < index || i < j < a.Length ==> a[j] == was[j]
      invariant forall j :: index <= j < i ==> a[j] == was[j + 1]
    {
      a[i] := a[i + 1];
      i := i + 1;
    }
    assert a[..index] == was[..index] && a[index..len - 1] == was[index + 1..len] && a[len..] == was[len..];
  }
}
