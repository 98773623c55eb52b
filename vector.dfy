/**
 * The growable array `Vector<T>` of the lcdf library: a buffer `l` of
 * capacity `cap`, of which the first `n` elements are live.
 *
 * Allocation may fail in the original (`new unsigned char[]` returning
 * null); every operation that may allocate takes `memoryAvailable`, which
 * says whether the allocator grants the request.
 */
module LcdfVector {

  class Vector<T(0)> {
    var l: array<T>
    var n: int
    var cap: int

    ghost predicate Valid()
      reads this
    {
      0 <= n <= cap && cap == l.Length
    }

    /** The live elements. */
    ghost function Contents(): seq<T>
      reads this, l
      requires Valid()
    {
      l[..n]
    }

    /** The capacity `reserve(want)` aims for: a negative request doubles. */
    static function Target(want: int, cap: int): int
    {
      if want >= 0 then want else if cap > 0 then cap * 2 else 4
    }

    /** The copy constructor: start empty, then copy-assign from `o`. */
    constructor Copy(o: Vector<T>, memoryAvailable: bool)
      requires o.Valid()
      ensures Valid() && o.Contents() == old(o.Contents())
      ensures o.n <= 0 || memoryAvailable ==> Contents() == o.Contents()
      ensures !(o.n <= 0 || memoryAvailable) ==> Contents() == []
    {
      l := new T[0];
      n := 0;
      cap := 0;
      new;
      CopyAssign(o, memoryAvailable);
    }

    /** `operator=`: self-assignment is a no-op; otherwise the old elements
      * are dropped and `o`'s are copied in if room can be reserved. */
    method CopyAssign(o: Vector<T>, memoryAvailable: bool)
      requires Valid() && o.Valid()
      modifies this, l
      ensures Valid()
      ensures o == this ==> n == old(n) && cap == old(cap) && Contents() == old(Contents())
      ensures o != this ==> o.n == old(o.n) && o.l == old(o.l) && o.Contents() == old(o.Contents())
      ensures o != this && (old(o.n) <= old(cap) || memoryAvailable) ==> Contents() == old(o.Contents())
      ensures o != this && !(old(o.n) <= old(cap) || memoryAvailable) ==> Contents() == []
    {
      if o != this {
        ghost var src := o.l[..o.n];
        n := 0;
        var ok := Reserve(o.n, memoryAvailable);
        if ok {
          n := o.n;
          var i := 0;
          while i < n
            invariant 0 <= i <= n == o.n <= cap == l.Length
            invariant o.l == old(o.l) && o.n == old(o.n)
            invariant forall j :: 0 <= j < i ==> l[j] == src[j]
            invariant forall j :: i <= j < o.n ==> o.l[j] == src[j]
            modifies l
          {
            l[i] := o.l[i];
            i := i + 1;
          }
          assert l[..n] == src;
        }
      }
    }

    /** `assign(n, e)`: empty the vector, then grow it with copies of `e`. */
    method Assign(count: int, e: T, memoryAvailable: bool)
      requires Valid() && count >= 0
      modifies this, l
      ensures Valid()
      ensures count <= old(cap) || memoryAvailable ==> Contents() == seq(count, _ => e)
      ensures !(count <= old(cap) || memoryAvailable) ==> Contents() == []
    {
      Resize(0, e, memoryAvailable);
      Resize(count, e, memoryAvailable);
    }

    /** `reserve(want)`: make room for at least `Target(want, cap)` elements;
      * nothing changes when the capacity already suffices or allocation fails. */
    method Reserve(want: int, memoryAvailable: bool) returns (ok: bool)
      requires Valid()
      modifies this
      ensures Valid() && n == old(n) && Contents() == old(Contents())
      ensures ok <==> Target(want, old(cap)) <= old(cap) || memoryAvailable
      ensures ok ==> cap >= Target(want, old(cap))
      ensures Target(want, old(cap)) <= old(cap) || !ok ==> l == old(l) && cap == old(cap)
      ensures ok && Target(want, old(cap)) > old(cap) ==> fresh(l) && cap == Target(want, old(cap))
    {
      var w := want;
      if w < 0 {
        w := if cap > 0 then cap * 2 else 4;
      }
      if w <= cap {
        return true;
      }
      if !memoryAvailable {
        return false;
      }
      ghost var was := l[..n];
      var nl := new T[w];
      var i := 0;
      while i < n
        invariant 0 <= i <= n <= l.Length < w == nl.Length
        invariant |was| == n && l[..n] == was
        invariant forall j :: 0 <= j < i ==> nl[j] == was[j]
      {
        nl[i] := l[i];
        i := i + 1;
      }
      assert nl[..n] == was;
      l := nl;
      cap := w;
      ok := true;
    }

    /** `shrink(nn)`: drop the elements from index `nn` on, if there are any. */
    method Shrink(nn: int)
      requires Valid() && nn >= 0
      modifies this
      ensures Valid() && l == old(l) && cap == old(cap)
      ensures nn < old(n) ==> n == nn && Contents() == old(Contents())[..nn]
      ensures nn >= old(n) ==> n == old(n) && Contents() == old(Contents())
    {
      if nn < n {
        n := nn;
      }
    }

    /** `resize(nn, e)`: truncate to `nn` or pad with copies of `e`; nothing
      * happens when `nn` exceeds the capacity and allocation fails. */
    method Resize(nn: int, e: T, memoryAvailable: bool)
      requires Valid() && nn >= 0
      modifies this, l
      ensures Valid() && (l == old(l) || fresh(l))
      ensures nn <= old(cap) ==> l == old(l) && cap == old(cap)
      ensures nn <= old(cap) || memoryAvailable ==>
        n == nn &&
        (forall i :: 0 <= i < nn && i < old(n) ==> Contents()[i] == old(Contents())[i]) &&
        (forall i :: old(n) <= i < nn ==> Contents()[i] == e)
      ensures !(nn <= old(cap) || memoryAvailable) ==> n == old(n) && Contents() == old(Contents())
    {
      var ok := nn <= cap;
      if !ok {
        ok := Reserve(nn, memoryAvailable);
      }
      if ok {
        ghost var was := l[..n];
        var i := n;
        while i < nn
          invariant n <= i <= nn || (nn < n && i == n)
          invariant nn <= cap == l.Length
          invariant forall j :: 0 <= j < n ==> l[j] == was[j]
          invariant forall j :: n <= j < i ==> l[j] == e
          modifies l
        {
          l[i] := e;
          i := i + 1;
        }
        n := nn;
      }
    }

    /** `swap(o)`: exchange buffers, lengths and capacities. */
    method Swap(o: Vector<T>)
      modifies this, o
      ensures l == old(o.l) && n == old(o.n) && cap == old(o.cap)
      ensures o.l == old(l) && o.n == old(n) && o.cap == old(cap)
    {
      var tl, tn, tc := l, n, cap;
      l, n, cap := o.l, o.n, o.cap;
      o.l, o.n, o.cap := tl, tn, tc;
    }
  }
}
