/** JavaScript's `Array.prototype.splice` on a list of components, as the
    mutators of the name type use it (`splice(i, 0, c)` to insert,
    `splice(i, 1)` to remove), and the index assignment `a[i] = x`. */
module JsArray {

  /** The start position JavaScript computes from a requested index: a
      negative index counts from the end, and both ends are clamped. */
  function SpliceStart(len: nat, start: int): (k: nat)
    ensures k <= len
    ensures 0 <= start <= len ==> k == start
  {
    if start < 0 then (if len + start < 0 then 0 else len + start)
    else if start > len then len
    else start
  }

  /** `a.splice(start, deleteCount, ...items)`, as the array it leaves. */
  function Splice<T>(a: seq<T>, start: int, deleteCount: int, items: seq<T>): (r: seq<T>)
    ensures |items| <= |r| <= |a| + |items|
    ensures deleteCount <= 0 ==> |r| == |a| + |items|
    ensures deleteCount >= |a| && start <= -|a| ==> r == items
  {
    var k := SpliceStart(|a|, start);
    var del := if deleteCount < 0 then 0 else if deleteCount > |a| - k then |a| - k else deleteCount;
    a[..k] + items + a[k + del..]
  }

  /** Inserting at a position inside the array puts `x` exactly there and
      shifts the rest one place up. */
  lemma SpliceInsert<T>(a: seq<T>, i: int, x: T)
    requires 0 <= i <= |a|
    ensures Splice(a, i, 0, [x]) == a[..i] + [x] + a[i..]
    ensures |Splice(a, i, 0, [x])| == |a| + 1
    ensures Splice(a, i, 0, [x])[i] == x
  {
  }

  /** Removing at a valid index drops exactly that element. */
  lemma SpliceRemove<T>(a: seq<T>, i: int)
    requires 0 <= i < |a|
    ensures Splice(a, i, 1, []) == a[..i] + a[i + 1..]
    ensures |Splice(a, i, 1, []) | == |a| - 1
  {
  }

  /** Out of range, an insertion lands at the nearer end and a removal
      changes nothing past the end. */
  lemma SpliceOutOfRange<T>(a: seq<T>, i: int, x: T)
    ensures i > |a| ==> Splice(a, i, 0, [x]) == a + [x] && Splice(a, i, 1, []) == a
    ensures i < -|a| ==> Splice(a, i, 0, [x]) == [x] + a
  {
    if i > |a| {
      assert a[..|a|] == a;
    }
    if i < -|a| {
      assert a[..0] == [] && a[0..] == a;
    }
  }

  /** `a[i] = x` for an index inside the array or just past its end: the
      element at `i` becomes `x`, and at `i == |a|` the array grows by
      one. */
  function Assign<T>(a: seq<T>, i: int, x: T): (r: seq<T>)
    requires 0 <= i <= |a|
    ensures |r| == if i < |a| then |a| else |a| + 1
    ensures r[i] == x
    ensures forall j :: 0 <= j < |a| && j != i ==> r[j] == a[j]
  {
    if i < |a| then a[i := x] else a + [x]
  }

  /** Assigning just past the end is the same as `push`, that is, as
      inserting at the end. */
  lemma AssignPastEnd<T>(a: seq<T>, x: T)
    ensures Assign(a, |a|, x) == a + [x] == Splice(a, |a|, 0, [x])
  {
    assert a[..|a|] == a && a[|a|..] == [];
  }
}
