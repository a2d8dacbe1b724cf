/**
  The fixed-capacity circular buffer of integer samples. Storage `buf` of
  `size` slots is allocated once and zero-filled; `begin` is the oldest
  element, `end` the next write slot, and `wrap` tells a full buffer from an
  empty one when the two cursors meet. The logical contents, `Contents()`,
  are the `Count()` slots that follow `begin`, modulo `size`.
 */
module RingBuffers {
  import opened RingWindow

  /** Copies `src` into `dst` from slot `at` on (the model of `memcpy`); no other slot changes. */
  method CopyInto(dst: array<int>, at: nat, src: seq<int>)
    requires at + |src| <= dst.Length
    modifies dst
    ensures dst[..] == old(dst[..])[..at] + src + old(dst[..])[at + |src|..]
  {
    ghost var before := dst[..];
    forall i | 0 <= i < |src| {
      dst[at + i] := src[i];
    }
    ghost var after := dst[..];
    ghost var spliced := before[..at] + src + before[at + |src|..];
    forall i | 0 <= i < |after|
      ensures after[i] == spliced[i]
    {
      if at <= i < at + |src| {
        assert after[at + (i - at)] == src[i - at];
      }
    }
  }

  class RingBuffer {
    const buf: array<int>
    const size: nat
    var begin: nat
    var end: nat
    var wrap: bool

    /** The object invariant: storage of `size` slots and consistent cursors. */
    ghost predicate Valid()
      reads this
    {
      buf.Length == size && Cursors(size, begin, end, wrap)
    }

    /** The logical window: the oldest element first. */
    ghost function Contents(): (c: seq<int>)
      reads this, buf
      requires Valid()
      ensures |c| == Count()
    {
      Window(buf[..], begin, Count())
    }

    /** A buffer with room for `size` elements, all slots zero. */
    constructor (size: nat)
      ensures Valid() && fresh(buf)
      ensures this.size == size && buf[..] == seq(size, _ => 0)
      ensures begin == 0 && end == 0 && !wrap
      ensures Count() == 0 && Contents() == []
    {
      this.size := size;
      begin, end, wrap := 0, 0, false;
      buf := new int[size](_ => 0);
    }

    /** The number of elements held. */
    function Count(): (n: nat)
      reads this
      requires Valid()
      ensures n <= size
      ensures n == 0 <==> begin == end && !wrap
      ensures size > 0 ==> (wrap <==> n == size)
    {
      Occupancy(size, begin, end, wrap)
    }

    /** The number of unused slots. */
    function GetFree(): (f: nat)
      reads this
      requires Valid()
      ensures f <= size && f + Count() == size
      ensures size > 0 ==> (f == 0 <==> wrap)
    {
      size - Count()
    }

    /**
      Advances `end` as if `n` elements had been copied in, clamped to the
      free space; the slots taken over join the contents as they are.
     */
    method Produce(n: nat) returns (k: nat)
      requires Valid()
      modifies this`end, this`wrap
      ensures Valid()
      ensures k == Min(n, old(GetFree()))
      ensures begin == old(begin) && buf[..] == old(buf[..])
      ensures end == if k == 0 then old(end) else (old(end) + k) % size
      ensures k == 0 ==> wrap == old(wrap)
      ensures Count() == old(Count()) + k
      ensures Contents() == old(Contents()) + Window(buf[..], old(end), k)
    {
      ghost var c0, e0, s, before := Count(), end, buf[..], Contents();
      OccupancyCursor(size, begin, end, wrap);
      k := Min(n, GetFree());
      if k == 0 {
        assert Window(s, e0, 0) == [];
        return;
      }
      assert e0 == (begin + c0) % size && before == Window(s, begin, c0);
      var firstChunk := Min(k, size - end);
      end := (end + firstChunk) % size;
      if firstChunk < k {
        var secondChunk := k - firstChunk;
        end := (end + secondChunk) % size;
      }
      assert end == (e0 + k) % size by {
        TwoRuns(size, e0, k);
      }
      if begin == end {
        wrap := true;
      }
      AfterExtend(s, c0, e0, k);
    }

    /** Logical erase: empties the buffer by consuming its whole count; storage is untouched. */
    method Reset()
      requires Valid()
      modifies this`begin, this`wrap
      ensures Valid()
      ensures begin == end == old(end) && !wrap && buf[..] == old(buf[..])
      ensures Count() == 0 && Contents() == []
    {
      var _ := Consume(Count());
    }

    /**
      Advances `begin` as if `n` elements had been copied out, clamped to the
      count; the oldest `k` elements leave the contents.
     */
    method Consume(n: nat) returns (k: nat)
      requires Valid()
      modifies this`begin, this`wrap
      ensures Valid()
      ensures k == Min(n, old(Count()))
      ensures end == old(end) && buf[..] == old(buf[..])
      ensures begin == if k == 0 then old(begin) else (old(begin) + k) % size
      ensures wrap == (old(wrap) && k == 0)
      ensures Count() == old(Count()) - k
      ensures Contents() == old(Contents())[k..]
    {
      ghost var c0, b0 := Count(), begin;
      OccupancyCursor(size, begin, end, wrap);
      k := Min(n, Count());
      if k == 0 {
        return;
      }
      if wrap {
        wrap := false;
      }
      var firstChunk := Min(k, size - begin);
      begin := (begin + firstChunk) % size;
      if firstChunk < k {
        var secondChunk := k - firstChunk;
        begin := (begin + secondChunk) % size;
      }
      assert begin == (b0 + k) % size by {
        TwoRuns(size, b0, k);
      }
      AfterDrop(b0, c0, k);
    }

    /**
      Copies up to `n` elements of `data` in at `end`, clamped to the free
      space, in two runs when the copy crosses the physical end of storage;
      the copied elements join the contents and no other slot changes.
     */
    method Write(data: seq<int>, n: nat) returns (k: nat)
      requires Valid()
      requires n <= |data|
      modifies this`end, this`wrap, buf
      ensures Valid()
      ensures k == Min(n, old(GetFree()))
      ensures begin == old(begin)
      ensures end == if k == 0 then old(end) else (old(end) + k) % size
      ensures buf[..] == Overwrite(old(buf[..]), old(end), data[..k])
      ensures Count() == old(Count()) + k
      ensures Contents() == old(Contents()) + data[..k]
    {
      ghost var c0, e0, s := Count(), end, buf[..];
      OccupancyCursor(size, begin, end, wrap);
      k := Min(n, GetFree());
      if k == 0 {
        assert buf[..] == Overwrite(s, e0, []);
        return;
      }
      CopyRuns(data[..k]);
      if begin == end {
        wrap := true;
      }
      AfterStore(s, c0, data[..k]);
    }

    /**
      The copying part of Write: stores `d` at `end`, first up to the
      physical end of storage and then from slot 0, moving `end` past it.
     */
    method CopyRuns(d: seq<int>)
      requires buf.Length == size && end < size && 0 < |d| <= size
      modifies this`end, buf
      ensures end == (old(end) + |d|) % size
      ensures buf[..] == Overwrite(old(buf[..]), old(end), d)
    {
      ghost var e0, s := end, buf[..];
      var firstChunk := Min(|d|, size - end);
      WriteRun(d[..firstChunk]);
      ghost var m := buf[..];
      if firstChunk < |d| {
        var secondChunk := |d| - firstChunk;
        assert end == 0 by { Wrapped(e0 + firstChunk, size); }
        WriteRun(d[firstChunk..]);
        assert end == (e0 + |d|) % size by {
          Wrapped(secondChunk, size);
          Wrapped(e0 + |d|, size);
        }
      }
      WriteRuns(s, e0, d, firstChunk, m, buf[..]);
    }

    /**
      One `memcpy` of Write: stores `run` from slot `end` on and moves `end`
      past it.
     */
    method WriteRun(run: seq<int>)
      requires buf.Length == size && end < size && end + |run| <= size
      modifies this`end, buf
      ensures end == (old(end) + |run|) % size
      ensures buf[..] == old(buf[..])[..old(end)] + run + old(buf[..])[old(end) + |run|..]
    {
      CopyInto(buf, end, run);
      end := (end + |run|) % size;
    }

    /**
      Copies up to `n` of the oldest elements out into `dest`, clamped to the
      count, in two runs when the window crosses the physical end of storage;
      those elements leave the contents and the rest of `dest` is untouched.
     */
    method Read(dest: array<int>, n: nat) returns (k: nat)
      requires Valid()
      requires dest != buf && n <= dest.Length
      modifies this`begin, this`wrap, dest
      ensures Valid()
      ensures k == Min(n, old(Count()))
      ensures end == old(end) && buf[..] == old(buf[..])
      ensures begin == if k == 0 then old(begin) else (old(begin) + k) % size
      ensures wrap == (old(wrap) && k == 0)
      ensures dest[..k] == old(Contents())[..k]
      ensures dest[k..] == old(dest[k..])
      ensures Count() == old(Count()) - k
      ensures Contents() == old(Contents())[k..]
    {
      ghost var c0, b0 := Count(), begin;
      OccupancyCursor(size, begin, end, wrap);
      k := Min(n, Count());
      if k == 0 {
        return;
      }
      if wrap {
        wrap := false;
      }
      CopyOutRuns(dest, k);
      AfterDrop(b0, c0, k);
      WindowSplit(buf[..], b0, k, c0 - k);
    }

    /**
      The copying part of Read: copies the `k` slots from `begin` into the
      front of `dest`, first up to the physical end of storage and then from
      slot 0, moving `begin` past them.
     */
    method CopyOutRuns(dest: array<int>, k: nat)
      requires buf.Length == size && begin < size && 0 < k <= size
      requires dest != buf && k <= dest.Length
      modifies this`begin, dest
      ensures begin == (old(begin) + k) % size
      ensures dest[..k] == Window(buf[..], old(begin), k)
      ensures dest[k..] == old(dest[k..])
    {
      ghost var b0, t, s := begin, dest[..], buf[..];
      var firstChunk := Min(k, size - begin);
      ReadRun(dest, 0, firstChunk);
      ghost var t1 := dest[..];
      if firstChunk < k {
        var secondChunk := k - firstChunk;
        assert begin == 0 by { Wrapped(b0 + firstChunk, size); }
        ReadRun(dest, firstChunk, secondChunk);
        assert begin == (b0 + k) % size by {
          Wrapped(secondChunk, size);
          Wrapped(b0 + k, size);
        }
      }
      ReadRuns(s, b0, k, firstChunk, t, t1, dest[..]);
    }

    /**
      One `memcpy` of Read: copies the `len` slots from `begin` into `dest`
      from slot `at` on and moves `begin` past them.
     */
    method ReadRun(dest: array<int>, at: nat, len: nat)
      requires buf.Length == size && begin < size && 0 < len && begin + len <= size
      requires dest != buf && at + len <= dest.Length
      modifies this`begin, dest
      ensures begin == (old(begin) + len) % size && buf[..] == old(buf[..])
      ensures dest[..] == old(dest[..])[..at] + old(buf[..])[old(begin)..old(begin) + len] + old(dest[..])[at + len..]
    {
      CopyInto(dest, at, buf[begin..begin + len]);
      begin := (begin + len) % size;
    }

    /**
      Places one value after the newest element; on a full buffer the oldest
      element is consumed first, so the push always succeeds.
     */
    method Push(v: int)
      requires Valid() && size > 0
      modifies this`begin, this`end, this`wrap, buf
      ensures Valid()
      ensures buf[..] == old(buf[..])[old(end) := v]
      ensures end == (old(end) + 1) % size
      ensures begin == if old(Count()) == size then (old(begin) + 1) % size else old(begin)
      ensures Count() == Min(old(Count()) + 1, size)
      ensures Contents() == (if old(Count()) < size then old(Contents()) else old(Contents())[1..]) + [v]
    {
      ghost var b0, e0, c0, before := begin, end, Count(), Contents();
      if Count() == size {
        var _ := Consume(1);
      }
      ghost var c1, e1, s, mid := Count(), end, buf[..], Contents();
      OccupancyCursor(size, begin, end, wrap);
      assert e1 == e0 && mid == if c0 < size then before else before[1..];
      var firstChunk := Min(1, size - end);
      assert firstChunk == 1;
      buf[end] := v;
      end := (end + firstChunk) % size;
      if begin == end {
        wrap := true;
      }
      assert buf[..] == Overwrite(s, e1, [v]) by {
        OverwriteOne(s, e1, v);
      }
      AfterStore(s, c1, [v]);
    }

    /**
      The slot `end` as the buffer reads it: the next slot to be written, not
      the newest element. Once the buffer is full it is the oldest element.
     */
    method GetMostRecent() returns (r: int)
      requires Valid() && size > 0
      ensures r == buf[end]
      ensures Count() == size ==> r == Contents()[0]
    {
      r := buf[end];
      Wrapped(begin, size);
    }

    /** The newest element: the slot just before `end`. */
    method MostRecent() returns (r: int)
      requires Valid() && Count() > 0
      ensures r == Contents()[Count() - 1]
    {
      r := buf[(end + size - 1) % size];
      Wrapped(begin + Count() - 1, size);
      Wrapped(end + size - 1, size);
    }

    /**
      The number of elements equal to `v`, scanned the way the buffer does:
      the iterator steps to `(iterator + size - 1) % Count()`. It never
      exceeds the count, and on a full buffer it is the number of
      occurrences of `v` in the contents.
     */
    method CountValue(v: int) returns (cnt: nat)
      requires Valid()
      ensures cnt == ScanCount(buf[..], begin, Count(), Count(), v)
      ensures cnt <= Count()
      ensures Count() == size ==> cnt == multiset(Contents())[v]
    {
      var it: nat := begin;
      cnt := 0;
      var currCnt := Count();
      for i := 0 to currCnt
        invariant cnt + ScanCount(buf[..], it, currCnt, currCnt - i, v)
               == ScanCount(buf[..], begin, currCnt, currCnt, v)
      {
        it := (it + size - 1) % currCnt;
        if buf[it] == v {
          cnt := cnt + 1;
        }
      }
      if currCnt == size && size > 0 {
        ScanFull(buf[..], begin, v);
        WindowRotation(buf[..], begin);
      }
    }

    /** CountValue with the value zero, as a loop of its own. */
    method ZeroCount() returns (zeros: nat)
      requires Valid()
      ensures zeros == ScanCount(buf[..], begin, Count(), Count(), 0)
      ensures zeros <= Count()
      ensures Count() == size ==> zeros == multiset(Contents())[0]
    {
      var it: nat := begin;
      zeros := 0;
      var currCnt := Count();
      for i := 0 to currCnt
        invariant zeros + ScanCount(buf[..], it, currCnt, currCnt - i, 0)
               == ScanCount(buf[..], begin, currCnt, currCnt, 0)
      {
        it := (it + size - 1) % currCnt;
        if buf[it] == 0 {
          zeros := zeros + 1;
        }
      }
      if currCnt == size && size > 0 {
        ScanFull(buf[..], begin, 0);
        WindowRotation(buf[..], begin);
      }
    }

    /** The number of elements of the contents equal to `v`, walking the window from `begin`. */
    method CountValueInWindow(v: int) returns (cnt: nat)
      requires Valid()
      ensures cnt == multiset(Contents())[v]
    {
      cnt := 0;
      var currCnt := Count();
      ghost var c := Contents();
      for i := 0 to currCnt
        invariant cnt == multiset(c[..i])[v]
      {
        var slot := Slot(size, begin, i);
        assert c[..i + 1] == c[..i] + [buf[slot]];
        if buf[slot] == v {
          cnt := cnt + 1;
        }
      }
      assert c[..currCnt] == c;
    }

    /**
      The state after `k` of the `c0` elements from `b0` were dropped:
      `begin` moved `k` slots on and `wrap` is clear. Then the buffer is
      valid, holds `c0 - k` elements, and its contents are the old ones
      without the first `k`.
     */
    lemma AfterDrop(b0: nat, c0: nat, k: nat)
      requires buf.Length == size && b0 < size && 0 < k <= c0 <= size
      requires begin == (b0 + k) % size && end == (b0 + c0) % size && !wrap
      ensures Valid() && Count() == c0 - k
      ensures Contents() == Window(buf[..], b0, c0)[k..]
    {
      Shrink(size, b0, c0, k);
      OccupancyOfCursor(size, begin, c0 - k);
      WindowSplit(buf[..], b0, k, c0 - k);
    }

    /**
      The state after `k` more slots joined the `c0` elements of storage `s`
      after `begin`: `end` moved on from `e0`, the slot after those
      elements, by `k`, and `wrap` was raised if `end` met `begin`. Then the
      buffer is valid, holds `c0 + k` elements, and its contents are the old
      ones followed by the `k` slots that joined.
     */
    lemma AfterExtend(s: seq<int>, c0: nat, e0: nat, k: nat)
      requires buf.Length == size && begin < size && 0 < k && c0 + k <= size && buf[..] == s
      requires e0 == (begin + c0) % size && end == (e0 + k) % size && wrap == (begin == end)
      ensures Valid() && Count() == c0 + k
      ensures Contents() == Window(s, begin, c0) + Window(s, e0, k)
    {
      Extend(size, begin, c0, k);
      OccupancyOfCursor(size, begin, c0 + k);
      WindowSplit(s, begin, c0, k);
    }

    /**
      The state after a store: `d` was stored right behind the `c0` elements
      of the old storage `s`, `end` moved past it and `wrap` was raised if
      `end` met `begin`. Then the buffer is valid, holds `c0 + |d|`
      elements, and its contents are the old ones followed by `d`.
     */
    lemma AfterStore(s: seq<int>, c0: nat, d: seq<int>)
      requires buf.Length == size == |s| && begin < size && 0 < |d| && c0 + |d| <= size
      requires end == ((begin + c0) % size + |d|) % size && wrap == (begin == end)
      requires buf[..] == Overwrite(s, (begin + c0) % size, d)
      ensures Valid() && Count() == c0 + |d|
      ensures Contents() == Window(s, begin, c0) + d
    {
      Extend(size, begin, c0, |d|);
      OccupancyOfCursor(size, begin, c0 + |d|);
      WindowAppend(s, begin, c0, d);
    }
  }
}
