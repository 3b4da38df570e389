/** Go's slices: the first cells of an array that other slices may share, the rest of it being capacity. */
module Slices {
  datatype Slice<T> = Slice(cells: array<T>, len: nat)

  /** v is the value of s. */
  predicate Holds<T(==)>(s: Slice<T>, v: seq<T>)
    reads s.cells
  {
    s.len <= s.cells.Length && s.cells[..s.len] == v
  }

  /** append: in place where there is capacity, seen by whoever shares the array; else into a new array of whatever capacity. */
  method Append<T(==)>(s: Slice<T>, x: T, ghost v: seq<T>) returns (t: Slice<T>)
    requires Holds(s, v)
    modifies s.cells
    ensures Holds(t, v + [x])
    ensures if s.len < s.cells.Length then t.cells == s.cells else fresh(t.cells)
    ensures forall k :: 0 <= k < s.cells.Length && k != s.len ==> s.cells[k] == old(s.cells[k])
  {
    if s.len < s.cells.Length {
      s.cells[s.len] := x;
      assert s.cells[..s.len + 1] == v + [x];
      return Slice(s.cells, s.len + 1);
    }
    var room :| 0 <= room;
    var cells := new T[s.len + 1 + room](k requires 0 <= k reads s.cells => if k < s.cells.Length then s.cells[k] else x);
    assert cells[..s.len + 1] == v + [x];
    t := Slice(cells, s.len + 1);
  }

  /** append to nil, element by element: the values in an array of their own. */
  method Copied<T(==)>(s: Slice<T>, ghost v: seq<T>) returns (t: Slice<T>)
    requires Holds(s, v)
    ensures fresh(t.cells) && Holds(t, v)
  {
    if s.len == 0 {
      var none := new T[0];
      return Slice(none, 0);
    }
    var room :| 0 <= room;
    var cells := new T[s.len + room](k requires 0 <= k && 0 < s.len <= s.cells.Length reads s.cells => s.cells[if k < s.len then k else 0]);
    assert cells[..s.len] == v;
    t := Slice(cells, s.len);
  }
}
