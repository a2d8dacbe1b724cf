/**
  Callers of the ring buffer: what its contracts let a caller conclude,
  including the two places where the buffer does not do what its
  documentation says.
 */
module RingBufferClients {
  import opened RingWindow
  import opened RingBuffers

  /**
    Writing `m` elements into an empty buffer with room for them and then
    reading `m` elements gives the data back unchanged, wherever the cursors
    stand (so also when the copy wraps past the physical end of storage).
   */
  method WriteThenRead(rb: RingBuffer, data: seq<int>, dest: array<int>) returns (written: nat, read: nat)
    requires rb.Valid() && rb.Count() == 0 && |data| <= rb.size
    requires dest != rb.buf && |data| <= dest.Length
    modifies rb, rb.buf, dest
    ensures written == read == |data|
    ensures dest[..|data|] == data
    ensures rb.Valid() && rb.Count() == 0
  {
    written := rb.Write(data, |data|);
    read := rb.Read(dest, |data|);
  }

  /** ZeroCount counts what CountValue(0) counts, on every buffer. */
  method ZeroCountIsCountValueOfZero(rb: RingBuffer) returns (zeros: nat, matches: nat)
    requires rb.Valid()
    ensures zeros == matches
  {
    zeros := rb.ZeroCount();
    matches := rb.CountValue(0);
  }

  /** Three pushes into a buffer of four: three elements, none of them zero. */
  method PushThreeIntoFour()
  {
    var rb := new RingBuffer(4);
    rb.Push(1);
    rb.Push(2);
    rb.Push(3);
    assert rb.Count() == 3 && rb.Contents() == [1, 2, 3];
    var zeros := rb.ZeroCount();
    assert rb.buf[..] == [1, 2, 3, 0];
    assert zeros == 0;
  }

  /** Four pushes into a buffer of three: the first value is evicted. */
  method PushFourIntoThree()
  {
    var rb := new RingBuffer(3);
    rb.Push(1);
    rb.Push(2);
    rb.Push(3);
    assert rb.Count() == 3 && rb.Contents() == [1, 2, 3];
    rb.Push(4);
    assert rb.Count() == 3 && rb.Contents() == [2, 3, 4];
  }

  /** Writing three values into a buffer of four and reading two of them back. */
  method WriteThreeReadTwo()
  {
    var rb := new RingBuffer(4);
    var written := rb.Write([10, 20, 30], 3);
    assert written == 3 && rb.Contents() == [10, 20, 30];
    var dest := new int[2];
    var read := rb.Read(dest, 2);
    assert read == 2 && dest[..] == dest[..2];
    assert [10, 20, 30][..2] == [10, 20];
    assert dest[..] == [10, 20];
    assert rb.Count() == 1 && rb.Contents() == [30];
  }

  /**
    The scan of CountValue misses part of the window when the buffer is not
    full: with contents [1, 2] in a buffer of three, the iterator
    `(iterator + 3 - 1) % 2` stays on slot 0, so the 2 is never seen.
   */
  method CountValueMissesWindow()
  {
    var rb := new RingBuffer(3);
    rb.Push(1);
    rb.Push(2);
    assert rb.buf[..] == [1, 2, 0] && rb.begin == 0 && rb.Count() == 2;
    ScanStaysOnSlotZero(1, 2);
    var scanned := rb.CountValue(2);
    assert scanned == 0;
    var inWindow := rb.CountValueInWindow(2);
    assert inWindow == 1;
  }

  /** The same for ZeroCount: with contents [5, 0] the zero in slot 1 is never seen. */
  method ZeroCountMissesWindow()
  {
    var rb := new RingBuffer(3);
    rb.Push(5);
    rb.Push(0);
    assert rb.buf[..] == [5, 0, 0] && rb.begin == 0 && rb.Count() == 2;
    ScanStaysOnSlotZero(5, 0);
    var zeros := rb.ZeroCount();
    assert zeros == 0;
    var inWindow := rb.CountValueInWindow(0);
    assert inWindow == 1;
  }

  /**
    The concrete scan behind the two examples above: over storage [a, b, 0]
    holding the two elements [a, b], both steps land on slot 0, so `b` is
    counted no times although it is in the window once.
   */
  lemma ScanStaysOnSlotZero(a: int, b: int)
    requires a != b
    ensures Window([a, b, 0], 0, 2) == [a, b]
    ensures multiset([a, b])[b] == 1
    ensures ScanCount([a, b, 0], 0, 2, 2, b) == 0
  {
    assert Window([a, b, 0], 0, 2)[1] == b;
    assert (0 + 3 - 1) % 2 == 0;
  }

  /**
    GetMostRecent reads the next write slot: after pushing 7 into an empty
    buffer of two it returns the untouched zero, while the newest element is 7.
   */
  method MostRecentIsNextSlot()
  {
    var rb := new RingBuffer(2);
    rb.Push(7);
    var atEnd := rb.GetMostRecent();
    assert atEnd == 0;
    var newest := rb.MostRecent();
    assert newest == 7;
  }
}
