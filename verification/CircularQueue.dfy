/** A ring buffer of fixed size that behaves as a bounded double-ended queue. */
module CircularQueue {
  import opened Bytes

  /** The slot `steps` places after `base`, around the ring. */
  function Slot(base: nat, steps: nat, size: nat): (s: nat)
    requires base < size && steps <= size
    ensures s < size
  {
    if base + steps < size then base + steps else base + steps - size
  }

  /** The items from `base` on, around the ring. */
  function Window<T>(ring: seq<T>, base: nat, count: nat): (s: seq<T>)
    requires base < |ring| && count <= |ring|
    ensures |s| == count
  {
    seq(count, i requires 0 <= i < count => ring[Slot(base, i, |ring|)])
  }

  class Queue<T(0)> {
    const buff: array<T>
    var baseIn: nat
    var count: nat

    ghost predicate Valid()
      reads this
    {
      buff.Length > 0 && baseIn < buff.Length && count <= buff.Length
    }

    ghost function Contents(): seq<T>
      requires Valid()
      reads this, buff
    {
      Window(buff[..], baseIn, count)
    }

    constructor (size: nat)
      requires size > 0
      ensures Valid() && fresh(buff) && buff.Length == size && Contents() == []
    {
      buff := new T[size];
      baseIn, count := 0, 0;
    }

    method IsEmpty() returns (r: bool)
      requires Valid()
      ensures r <==> Contents() == []
    {
      r := count == 0;
    }

    method IsFull() returns (r: bool)
      requires Valid()
      ensures r <==> |Contents()| == buff.Length
    {
      r := count == buff.Length;
    }

    /** The wait for an item is left out: either there is one now or there is none. */
    method Front() returns (r: Option<T>)
      requires Valid()
      ensures r == if Contents() == [] then None else Some(Contents()[0])
    {
      if count == 0 {
        return None;
      }
      return Some(buff[baseIn]);
    }

    method Rear() returns (r: Option<T>)
      requires Valid()
      ensures r == if Contents() == [] then None else Some(Contents()[|Contents()| - 1])
    {
      if count == 0 {
        return None;
      }
      ModuloIsSlot(baseIn, count - 1, buff.Length);
      return Some(buff[(baseIn + count - 1) % buff.Length]);
    }

    method PopFront() returns (ok: bool)
      requires Valid()
      modifies this
      ensures Valid() && ok == (old(Contents()) != [])
      ensures Contents() == if ok then old(Contents())[1..] else old(Contents())
    {
      if count == 0 {
        return false;
      }
      WindowTail(buff[..], baseIn, count);
      ModuloIsSlot(baseIn, 1, buff.Length);
      baseIn := (baseIn + 1) % buff.Length;
      count := count - 1;
      return true;
    }

    method PopBack() returns (ok: bool)
      requires Valid()
      modifies this
      ensures Valid() && ok == (old(Contents()) != [])
      ensures Contents() == if ok then old(Contents())[..|old(Contents())| - 1] else old(Contents())
    {
      if count == 0 {
        return false;
      }
      count := count - 1;
      return true;
    }

    method Clear()
      requires Valid()
      modifies this
      ensures Valid() && Contents() == []
    {
      count := 0;
    }

    method PushBack(val: T) returns (ok: bool)
      requires Valid()
      modifies this, buff
      ensures Valid() && ok == (|old(Contents())| < buff.Length)
      ensures Contents() == if ok then old(Contents()) + [val] else old(Contents())
    {
      if count == buff.Length {
        return false;
      }
      WindowSnoc(buff[..], baseIn, count, val);
      ModuloIsSlot(baseIn, count, buff.Length);
      ghost var before := buff[..];
      buff[(baseIn + count) % buff.Length] := val;
      assert buff[..] == before[Slot(baseIn, count, buff.Length) := val];
      count := count + 1;
      return true;
    }

    method PushFront(val: T) returns (ok: bool)
      requires Valid()
      modifies this, buff
      ensures Valid() && ok == (|old(Contents())| < buff.Length)
      ensures Contents() == if ok then [val] + old(Contents()) else old(Contents())
    {
      if count == buff.Length {
        return false;
      }
      WindowCons(buff[..], baseIn, count, val);
      ModuloIsSlot(baseIn, buff.Length - 1, buff.Length);
      ghost var before := buff[..];
      baseIn := (baseIn - 1 + buff.Length) % buff.Length;
      buff[baseIn] := val;
      assert buff[..] == before[baseIn := val];
      count := count + 1;
      return true;
    }
  }

  // ---------- the ring's arithmetic ----------

  lemma ModuloIsSlot(base: nat, steps: nat, size: nat)
    requires base < size && steps <= size
    ensures (base + steps) % size == Slot(base, steps, size)
  {
    var n := base + steps;
    var q := n / size;
    var r := n % size;
    assert n == q * size + r;
    if n >= size {
      QuotientIsOne(n, q, r, size);
    }
  }

  lemma QuotientIsOne(n: nat, q: nat, r: nat, m: nat)
    requires n == q * m + r && r < m && m <= n < 2 * m
    ensures r == n - m
  {
    MultipleBounds(q, m);
  }

  lemma MultipleBounds(q: nat, m: nat)
    ensures q == 0 ==> q * m == 0
    ensures q == 1 ==> q * m == m
    ensures q >= 2 ==> q * m >= 2 * m
  {
    if q >= 2 {
      assert q * m == (q - 2) * m + 2 * m;
    }
  }

  lemma WindowTail<T>(ring: seq<T>, base: nat, count: nat)
    requires base < |ring| && 0 < count <= |ring|
    ensures Window(ring, Slot(base, 1, |ring|), count - 1) == Window(ring, base, count)[1..]
  {
  }

  lemma WindowSnoc<T>(ring: seq<T>, base: nat, count: nat, val: T)
    requires base < |ring| && count < |ring|
    ensures Window(ring[Slot(base, count, |ring|) := val], base, count + 1) == Window(ring, base, count) + [val]
  {
  }

  lemma WindowCons<T>(ring: seq<T>, base: nat, count: nat, val: T)
    requires base < |ring| && count < |ring|
    ensures var front := Slot(base, |ring| - 1, |ring|);
            Window(ring[front := val], front, count + 1) == [val] + Window(ring, base, count)
  {
  }
}
