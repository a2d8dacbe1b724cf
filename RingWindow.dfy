/**
  Index arithmetic of a circular buffer of capacity `size`, stated on values.

  A buffer state is a pair of cursors `begin` (oldest element) and `end`
  (next write slot) plus a `wrap` flag that tells a full buffer from an empty
  one when the cursors meet. The logical contents are the `count` slots that
  follow `begin`, modulo `size`.
 */
module RingWindow {

  function Min(a: nat, b: nat): nat
  {
    if a <= b then a else b
  }

  /** Reduction of a value below twice the modulus. */
  lemma Wrapped(x: nat, m: nat)
    requires 0 < m && x < 2 * m
    ensures x % m == if x < m then x else x - m
  {
    if x < m {
      assert x == 0 * m + x;
    } else {
      assert x == 1 * m + (x - m);
    }
  }

  /** Reduction of a negative value above minus the modulus. */
  lemma WrappedBelow(x: int, m: nat)
    requires 0 < m && 0 <= x + m && x < 0
    ensures x % m == x + m
  {
    assert x == -1 * m + (x + m);
  }

  /** The cursor invariant of the buffer. */
  ghost predicate Cursors(size: nat, begin: nat, end: nat, wrap: bool)
  {
    && (size == 0 ==> begin == 0 && end == 0 && !wrap)
    && (size > 0 ==> begin < size && end < size)
    && (wrap ==> begin == end)
  }

  /**
    The number of elements held, computed from the cursors the way the
    buffer's `count()` does.
   */
  function Occupancy(size: nat, begin: nat, end: nat, wrap: bool): (n: nat)
    requires Cursors(size, begin, end, wrap)
    ensures n <= size
    ensures n == 0 <==> begin == end && !wrap
    ensures size > 0 ==> (wrap <==> n == size)
  {
    if end == begin then
      (if wrap then size else 0)
    else if end > begin then
      end - begin
    else
      size + end - begin
  }

  /**
    The count read back through the cursors: the end cursor lies that many
    slots after the begin cursor, and without the wrap flag the count is
    the distance from begin to end modulo `size`.
   */
  lemma OccupancyCursor(size: nat, begin: nat, end: nat, wrap: bool)
    requires Cursors(size, begin, end, wrap)
    ensures size > 0 ==> end == (begin + Occupancy(size, begin, end, wrap)) % size
    ensures size > 0 && !wrap ==> Occupancy(size, begin, end, wrap) == (end - begin) % size
  {
    if end == begin {
      if size > 0 {
        Wrapped(begin, size);
        Wrapped(begin + size, size);
      }
    } else if end > begin {
      Wrapped(begin + (end - begin), size);
      Wrapped(end - begin, size);
    } else {
      Wrapped(begin + (size + end - begin), size);
      WrappedBelow(end - begin, size);
    }
  }

  /**
    Converse of Occupancy: a state reached by placing `n` elements after
    `begin` (end cursor `(begin + n) % size`, flag set exactly when full)
    satisfies the cursor invariant and holds exactly `n` elements.
   */
  lemma OccupancyOfCursor(size: nat, begin: nat, n: nat)
    requires begin < size && n <= size
    ensures Cursors(size, begin, (begin + n) % size, n == size)
    ensures Occupancy(size, begin, (begin + n) % size, n == size) == n
  {
    Wrapped(begin + n, size);
  }

  /**
    Moving a cursor `k` slots on in two runs, as the buffer does (first up to
    the physical end of storage, then from slot 0), lands where a single
    step of `k` modulo `size` does.
   */
  lemma TwoRuns(size: nat, x: nat, k: nat)
    requires x < size && k <= size
    ensures var first := Min(k, size - x);
            var y := (x + first) % size;
            (if first < k then (y + (k - first)) % size else y) == (x + k) % size
  {
    var first := Min(k, size - x);
    Wrapped(x + first, size);
    Wrapped(x + k, size);
    if first < k {
      Wrapped(k - first, size);
    }
  }

  /**
    Cursor facts about `k` more elements after the `c` that follow `b`: the
    end cursor moves on by `k`, and it meets `b` again exactly when the
    buffer becomes full.
   */
  lemma Extend(size: nat, b: nat, c: nat, k: nat)
    requires b < size && c + k <= size
    ensures ((b + c) % size + k) % size == (b + c + k) % size
    ensures 0 < c + k ==> ((b + c + k) % size == b <==> c + k == size)
  {
    Wrapped(b + c, size);
    Wrapped((b + c) % size + k, size);
    Wrapped(b + c + k, size);
  }

  /** Dropping `k` of the `c` elements after `b`: the rest follow `(b + k) % size` and end where they did. */
  lemma Shrink(size: nat, b: nat, c: nat, k: nat)
    requires b < size && k <= c <= size
    ensures ((b + k) % size + (c - k)) % size == (b + c) % size
  {
    Wrapped(b + k, size);
    Wrapped((b + k) % size + (c - k), size);
    Wrapped(b + c, size);
  }

  /** The slot `i` places after `b`, wrapping past the end of `size` slots at most once. */
  function Slot(size: nat, b: nat, i: nat): (p: nat)
    requires b < size && i <= size
    ensures p < size
  {
    if b + i < size then b + i else b + i - size
  }

  /** Slot is the cursor arithmetic of the buffer: `(b + i) % size`. */
  lemma SlotIsMod(size: nat, b: nat, i: nat)
    requires b < size && i <= size
    ensures Slot(size, b, i) == (b + i) % size
  {
    Wrapped(b + i, size);
  }

  /** The `n` slots of `s` that follow `b`: slot `i` of it is `s[(b + i) % |s|]`. */
  function Window(s: seq<int>, b: nat, n: nat): seq<int>
    requires n <= |s| && (n > 0 ==> b < |s|)
  {
    seq(n, i requires 0 <= i < n => s[Slot(|s|, b, i)])
  }

  /** A window of `n + k` slots is the window of `n` slots followed by the `k` slots after it. */
  lemma {:induction false} WindowSplit(s: seq<int>, b: nat, n: nat, k: nat)
    requires b < |s| && n + k <= |s|
    ensures Window(s, b, n + k) == Window(s, b, n) + Window(s, (b + n) % |s|, k)
  {
    var L := |s|;
    var whole, front, back := Window(s, b, n + k), Window(s, b, n), Window(s, (b + n) % L, k);
    Wrapped(b + n, L);
    forall j | 0 <= j < k
      ensures whole[n + j] == back[j]
    {
      Wrapped((b + n) % L + j, L);
      Wrapped(b + n + j, L);
    }
    assert whole == front + back;
  }

  /**
    `s` with `d` stored in the `|d|` slots that follow and include `at`,
    modulo `|s|`; every other slot keeps its value.
   */
  function Overwrite(s: seq<int>, at: nat, d: seq<int>): seq<int>
    requires |d| <= |s| && (|s| > 0 ==> at < |s|)
  {
    seq(|s|, p requires 0 <= p < |s| =>
      var j := if p >= at then p - at else p + |s| - at;
      if j < |d| then d[j] else s[p])
  }

  /** A store that fits before the physical end of storage is a single run. */
  lemma {:induction false} OneRun(s: seq<int>, at: nat, d: seq<int>)
    requires at < |s| && at + |d| <= |s|
    ensures s[..at] + d + s[at + |d|..] == Overwrite(s, at, d)
  {
    var L, t := |s|, s[..at] + d + s[at + |d|..];
    forall p | 0 <= p < L
      ensures t[p] == Overwrite(s, at, d)[p]
    {
      Wrapped(p + L - at, L);
    }
  }

  /**
    A store that crosses the physical end of storage is two runs: the slots
    from `at` to the end, then the rest from slot 0.
   */
  lemma {:induction false} TwoRun(s: seq<int>, at: nat, d: seq<int>)
    requires at < |s| < at + |d| && |d| <= |s|
    ensures d[|s| - at..] + (s[..at] + d[..|s| - at])[|d| - (|s| - at)..] == Overwrite(s, at, d)
  {
    var L, f := |s|, |s| - at;
    var t := d[f..] + (s[..at] + d[..f])[|d| - f..];
    forall p | 0 <= p < L
      ensures t[p] == Overwrite(s, at, d)[p]
    {
      Wrapped(p + L - at, L);
    }
  }

  /**
    Storing `d` at `at` in runs: `m` is `s` after the run of the first `f`
    elements, `r` is `m` after the run of the rest from slot 0 (when the
    store wraps). Then `r` is `s` overwritten with `d` from `at`.
   */
  lemma WriteRuns(s: seq<int>, at: nat, d: seq<int>, f: nat, m: seq<int>, r: seq<int>)
    requires at < |s| && 0 < f <= |d| <= |s| && at + f <= |s|
    requires f < |d| ==> at + f == |s|
    requires m == s[..at] + d[..f] + s[at + f..]
    requires f == |d| ==> r == m
    requires f < |d| ==> r == m[..0] + d[f..] + m[0 + (|d| - f)..]
    ensures r == Overwrite(s, at, d)
  {
    if f < |d| {
      assert m == s[..at] + d[..|s| - at];
      TwoRun(s, at, d);
    } else {
      assert d[..f] == d;
      OneRun(s, at, d);
    }
  }

  /** Reading back the slots just overwritten gives the stored data. */
  lemma {:induction false} WindowOfOverwrite(s: seq<int>, at: nat, d: seq<int>)
    requires at < |s| && |d| <= |s|
    ensures Window(Overwrite(s, at, d), at, |d|) == d
  {
    var L := |s|;
    forall j | 0 <= j < |d|
      ensures Window(Overwrite(s, at, d), at, |d|)[j] == d[j]
    {
      var p := (at + j) % L;
      Wrapped(at + j, L);
      Wrapped(p + L - at, L);
    }
  }

  /** Overwriting the slots that follow a window leaves the window as it was. */
  lemma {:induction false} WindowBeforeOverwrite(s: seq<int>, b: nat, n: nat, d: seq<int>)
    requires b < |s| && n + |d| <= |s|
    ensures Window(Overwrite(s, (b + n) % |s|, d), b, n) == Window(s, b, n)
  {
    var L := |s|;
    var at := (b + n) % L;
    Wrapped(b + n, L);
    var before, after := Window(s, b, n), Window(Overwrite(s, at, d), b, n);
    forall i | 0 <= i < n
      ensures after[i] == before[i]
    {
      var p := (b + i) % L;
      Wrapped(b + i, L);
      Wrapped(p + L - at, L);
    }
  }

  /**
    Storing `d` in the slots that follow a window of `c` elements extends the
    window by exactly `d`.
   */
  lemma {:induction false} WindowAppend(s: seq<int>, b: nat, c: nat, d: seq<int>)
    requires b < |s| && c + |d| <= |s|
    ensures Window(Overwrite(s, (b + c) % |s|, d), b, c + |d|) == Window(s, b, c) + d
  {
    var at := (b + c) % |s|;
    WindowSplit(Overwrite(s, at, d), b, c, |d|);
    WindowBeforeOverwrite(s, b, c, d);
    Wrapped(b + c, |s|);
    WindowOfOverwrite(s, at, d);
  }

  /** Overwriting a single slot is an update of that slot. */
  lemma {:induction false} OverwriteOne(s: seq<int>, at: nat, v: int)
    requires at < |s|
    ensures Overwrite(s, at, [v]) == s[at := v]
  {
    var L := |s|;
    forall p | 0 <= p < L
      ensures Overwrite(s, at, [v])[p] == s[at := v][p]
    {
      Wrapped(p + L - at, L);
    }
  }

  /**
    Reading a window in runs: one run when it ends before the physical end
    of storage, otherwise the slots up to the end followed by those from
    slot 0.
   */
  lemma {:induction false} WindowRuns(s: seq<int>, b: nat, k: nat)
    requires b < |s| && k <= |s|
    ensures Window(s, b, k) == if b + k <= |s| then s[b..b + k] else s[b..|s|] + s[0..b + k - |s|]
  {
    var L := |s|;
    var r := if b + k <= L then s[b..b + k] else s[b..L] + s[0..b + k - L];
    forall i | 0 <= i < k
      ensures Window(s, b, k)[i] == r[i]
    {
      Wrapped(b + i, L);
    }
  }

  /**
    Reading a window of `k` slots from `b` out of storage `s` in runs: `t1`
    is `t` after the run of the first `f` slots, `t2` is `t1` after the run
    of the other `k - f` from slot 0 (when the window wraps). Then `t2`
    starts with the window and keeps the rest of `t`.
   */
  lemma {:induction false} ReadRuns(s: seq<int>, b: nat, k: nat, f: nat, t: seq<int>, t1: seq<int>, t2: seq<int>)
    requires b < |s| && 0 < f <= k <= |s| && k <= |t| && b + f <= |s|
    requires f < k ==> b + f == |s|
    requires t1 == t[..0] + s[b..b + f] + t[0 + f..]
    requires f == k ==> t2 == t1
    requires f < k ==> t2 == t1[..f] + s[0..0 + (k - f)] + t1[f + (k - f)..]
    ensures t2[..k] == Window(s, b, k) && t2[k..] == t[k..]
  {
    WindowRuns(s, b, k);
    if f < k {
      assert t1[..f] == s[b..|s|];
      assert t1[k..] == t[k..];
      assert t2[..k] == s[b..|s|] + s[0..b + k - |s|];
    } else {
      assert t2[..k] == s[b..b + k];
    }
  }

  /** A window over every slot is a rotation of the storage, so it holds the same elements. */
  lemma {:induction false} WindowRotation(s: seq<int>, b: nat)
    requires b < |s|
    ensures Window(s, b, |s|) == s[b..] + s[..b]
    ensures multiset(Window(s, b, |s|)) == multiset(s)
  {
    var L := |s|;
    forall i | 0 <= i < L
      ensures Window(s, b, L)[i] == (s[b..] + s[..b])[i]
    {
      Wrapped(b + i, L);
    }
    calc {
      multiset(s[b..] + s[..b]);
      multiset(s[b..]) + multiset(s[..b]);
      { assert s == s[..b] + s[b..]; }
      multiset(s);
    }
  }

  /**
    The statistics scan as the buffer's `zeroCount()`/`countValue()` write it:
    starting from iterator `it`, each of `steps` steps moves the iterator to
    `(it + |s| - 1) % c`, where `c` is the element count, and counts the slot
    it lands on when it holds `v`.
   */
  function ScanCount(s: seq<int>, it: nat, c: nat, steps: nat, v: int): (r: nat)
    requires c <= |s| && (steps > 0 ==> c > 0)
    ensures r <= steps
    decreases steps
  {
    if steps == 0 then 0
    else
      var next := (it + |s| - 1) % c;
      (if s[next] == v then 1 else 0) + ScanCount(s, next, c, steps - 1, v)
  }

  /** On a full buffer, a scan from `b` that stays above slot 0 counts the slots just below `b`. */
  lemma {:induction false} ScanBelow(s: seq<int>, b: nat, k: nat, v: int)
    requires k <= b <= |s|
    ensures ScanCount(s, b, |s|, k, v) == multiset(s[b - k..b])[v]
  {
    if k > 0 {
      var L := |s|;
      Wrapped(b + L - 1, L);
      ScanBelow(s, b - 1, k - 1, v);
      assert s[b - k..b] == s[b - k..b - 1] + [s[b - 1]];
    }
  }

  /** On a full buffer, a scan from `b` first counts `s[..b]` and then continues from slot 0. */
  lemma {:induction false} ScanPastZero(s: seq<int>, b: nat, k: nat, v: int)
    requires b <= k && b <= |s| && |s| > 0
    ensures ScanCount(s, b, |s|, k, v) == multiset(s[..b])[v] + ScanCount(s, 0, |s|, k - b, v)
  {
    if b > 0 {
      var L := |s|;
      Wrapped(b + L - 1, L);
      ScanPastZero(s, b - 1, k - 1, v);
      assert s[..b] == s[..b - 1] + [s[b - 1]];
    }
  }

  /** On a full buffer, a scan from slot 0 steps to slot `|s| - 1` first, as one from slot `|s|` does. */
  lemma ScanFromZero(s: seq<int>, k: nat, v: int)
    requires 0 < |s|
    ensures ScanCount(s, 0, |s|, k, v) == ScanCount(s, |s|, |s|, k, v)
  {
    var L := |s|;
    Wrapped(L - 1, L);
    Wrapped(L + L - 1, L);
  }

  /**
    On a full buffer the scan steps backwards through every slot exactly once,
    so it counts every occurrence of `v` in the storage.
   */
  lemma {:induction false} ScanFull(s: seq<int>, b: nat, v: int)
    requires b < |s|
    ensures ScanCount(s, b, |s|, |s|, v) == multiset(s)[v]
  {
    var L := |s|;
    ScanPastZero(s, b, L, v);
    ScanFromZero(s, L - b, v);
    ScanBelow(s, L, L - b, v);
    assert s == s[..b] + s[b..];
    assert s[L - (L - b)..L] == s[b..];
  }
}
