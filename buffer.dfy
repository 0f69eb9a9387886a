/// The growable byte buffer of code/buffer/buffer.cpp: a vector of bytes
/// with a read cursor and a write cursor. Bytes in [readPos, writePos) are
/// readable, [writePos, size) is writable space and [0, readPos) is space
/// already consumed ("prependable") that compaction can reclaim.
module Buffers {
  import opened Kernel

  /// Default initial size of a Buffer (buffer.h:27).
  const DEFAULT_SIZE: nat := 1024

  /// Size of the on-stack overflow area of readFd (buffer.cpp:84).
  const STACK_AREA: nat := 65535

  /// n value-initialised (zero) bytes.
  function Zeroes(n: nat): (z: seq<char>)
    ensures |z| == n
    ensures forall i :: 0 <= i < n ==> z[i] == '\0'
  {
    seq(n, _ => '\0')
  }

  /// `buf` after std::vector::resize to a size n >= |buf|: the old bytes
  /// stay where they are and the new ones are zero.
  function Resized(buf: seq<char>, n: nat): (g: seq<char>)
    requires |buf| <= n
    ensures |g| == n && g[..|buf|] == buf
    ensures forall i :: |buf| <= i < n ==> g[i] == '\0'
  {
    buf + Zeroes(n - |buf|)
  }

  /// `buf` with `data` copied over it from index `at` on (std::copy).
  function Overwritten(buf: seq<char>, at: nat, data: seq<char>): (o: seq<char>)
    requires at + |data| <= |buf|
    ensures |o| == |buf|
    ensures o[at..at + |data|] == data
    ensures o[..at] == buf[..at] && o[at + |data|..] == buf[at + |data|..]
  {
    buf[..at] + data + buf[at + |data|..]
  }

  /// `buf` after the readable bytes buf[r..w] are copied to the front
  /// (the compaction branch of makeSpace); bytes from w - r on are untouched.
  function Compacted(buf: seq<char>, r: nat, w: nat): (c: seq<char>)
    requires r <= w <= |buf|
    ensures |c| == |buf|
    ensures c[..w - r] == buf[r..w]
    ensures c[w - r..] == buf[w - r..]
  {
    buf[r..w] + buf[w - r..]
  }

  /// Storage and cursors after makeSpace(len) (buffer.cpp:125-135): when the
  /// writable plus the prependable space falls short of len the vector grows
  /// to writePos + len + 1 without moving anything; otherwise the readable
  /// bytes move to the front and the size stays.
  function SpaceMade(buf: seq<char>, r: nat, w: nat, len: nat): (res: (seq<char>, nat, nat))
    requires r <= w <= |buf|
    ensures res.1 <= res.2 <= |res.0|
    ensures res.0[res.1..res.2] == buf[r..w]
    ensures |res.0| - res.2 >= len
    ensures (|buf| - w) + r >= len ==> res.1 == 0 && |res.0| == |buf|
    ensures (|buf| - w) + r < len ==>
              |res.0| == w + len + 1 && res.0[..|buf|] == buf && res.1 == r && res.2 == w
  {
    if (|buf| - w) + r < len then
      var g := Resized(buf, w + len + 1);
      assert g[r..w] == g[..|buf|][r..w];
      (g, r, w)
    else
      (Compacted(buf, r, w), 0, w - r)
  }

  class Buffer {
    var buffer: seq<char>
    var readPos: nat
    var writePos: nat

    /// The cursor invariant readPos <= writePos <= size.
    ghost predicate Valid()
      reads this
    {
      readPos <= writePos <= |buffer|
    }

    /// The readable region, from peek() up to beginWrite().
    function Readable(): seq<char>
      reads this
      requires Valid()
    {
      buffer[readPos..writePos]
    }

    /// Buffer(initBuffSize): a zeroed vector, both cursors at 0.
    constructor (initBuffSize: nat)
      ensures Valid() && buffer == Zeroes(initBuffSize)
      ensures readPos == 0 && writePos == 0 && Readable() == []
    {
      buffer := Zeroes(initBuffSize);
      readPos, writePos := 0, 0;
    }

    function ReadableBytes(): (n: nat)
      reads this
      requires Valid()
      ensures n == |Readable()|
    {
      writePos - readPos
    }

    function WritableBytes(): (n: nat)
      reads this
      requires Valid()
      ensures writePos + n == |buffer|
    {
      |buffer| - writePos
    }

    function PrependableBytes(): (n: nat)
      reads this
      requires Valid()
      ensures n + ReadableBytes() + WritableBytes() == |buffer|
    {
      readPos
    }

    /// The three views partition the storage: prependable, then readable,
    /// then writable.
    lemma CursorViews()
      requires Valid()
      ensures PrependableBytes() + ReadableBytes() + WritableBytes() == |buffer|
      ensures buffer == buffer[..PrependableBytes()] + Readable() + buffer[writePos..]
    {
      assert buffer == buffer[..readPos] + buffer[readPos..writePos] + buffer[writePos..];
    }

    /// retrieve(len): consumes the first len readable bytes.
    method Retrieve(len: nat)
      requires Valid() && len <= ReadableBytes()
      modifies this`readPos
      ensures Valid() && readPos == old(readPos) + len
      ensures Readable() == old(Readable())[len..]
    {
      readPos := readPos + len;
    }

    /// retrieveUntil(end), with `end` as an index into the storage: consumes
    /// exactly the bytes between peek() and end.
    method RetrieveUntil(end: nat)
      requires Valid() && readPos <= end <= writePos
      modifies this`readPos
      ensures Valid() && readPos == end
      ensures old(Readable()) == old(buffer[readPos..end]) + Readable()
    {
      Retrieve(end - readPos);
    }

    /// retrieveAll: zeroes the storage (bzero) and resets both cursors;
    /// the size is kept.
    method RetrieveAll()
      modifies this`buffer, this`readPos, this`writePos
      ensures Valid() && buffer == Zeroes(|old(buffer)|)
      ensures readPos == 0 && writePos == 0 && Readable() == []
    {
      buffer := Zeroes(|buffer|);
      readPos, writePos := 0, 0;
    }

    /// retrieveAllToStr: the readable bytes, leaving the buffer empty.
    method RetrieveAllToStr() returns (str: string)
      requires Valid()
      modifies this`buffer, this`readPos, this`writePos
      ensures str == old(Readable())
      ensures Valid() && Readable() == [] && |buffer| == |old(buffer)|
      ensures readPos == 0 && writePos == 0 && buffer == Zeroes(|old(buffer)|)
    {
      str := Readable();
      RetrieveAll();
    }

    /// hasWritten(len): commits len bytes already stored at beginWrite().
    method HasWritten(len: nat)
      requires Valid() && writePos + len <= |buffer|
      modifies this`writePos
      ensures Valid() && writePos == old(writePos) + len
      ensures Readable() == old(Readable()) + buffer[old(writePos)..writePos]
    {
      writePos := writePos + len;
    }

    /// makeSpace(len).
    method MakeSpace(len: nat)
      requires Valid()
      modifies this`buffer, this`readPos, this`writePos
      ensures Valid()
      ensures (buffer, readPos, writePos) == SpaceMade(old(buffer), old(readPos), old(writePos), len)
    {
      if WritableBytes() + PrependableBytes() < len {
        buffer := Resized(buffer, writePos + len + 1);
      } else {
        var readable := ReadableBytes();
        buffer := Compacted(buffer, readPos, writePos);
        readPos := 0;
        writePos := readPos + readable;
      }
    }

    /// ensureWriteable(len): afterwards at least len bytes are writable;
    /// makeSpace runs only when fewer were.
    method EnsureWriteable(len: nat)
      requires Valid()
      modifies this`buffer, this`readPos, this`writePos
      ensures Valid() && WritableBytes() >= len
      ensures Readable() == old(Readable())
      ensures old(WritableBytes()) >= len ==>
                buffer == old(buffer) && readPos == old(readPos) && writePos == old(writePos)
      ensures old(WritableBytes()) < len ==>
                (buffer, readPos, writePos) == SpaceMade(old(buffer), old(readPos), old(writePos), len)
    {
      if WritableBytes() < len {
        MakeSpace(len);
      }
    }

    /// append(str, len): the readable region gains exactly str at its end.
    method Append(str: seq<char>)
      requires Valid()
      modifies this`buffer, this`readPos, this`writePos
      ensures Valid()
      ensures Readable() == old(Readable()) + str
      ensures |str| == 0 ==>
                buffer == old(buffer) && readPos == old(readPos) && writePos == old(writePos)
    {
      EnsureWriteable(|str|);
      buffer := Overwritten(buffer, writePos, str);
      HasWritten(|str|);
    }

    /// append(const Buffer&): appends the other buffer's readable bytes.
    method AppendBuffer(other: Buffer)
      requires Valid() && other.Valid() && other != this
      modifies this`buffer, this`readPos, this`writePos
      ensures Valid()
      ensures Readable() == old(Readable()) + other.Readable()
    {
      Append(other.Readable());
    }

    /// readFd: one scatter read into the writable tail plus a 65535-byte
    /// stack area whose part that was filled is then appended.
    method ReadFd(fd: int, os: Os, saveErrno: int) returns (len: int, errno: int)
      requires Valid()
      modifies this`buffer, this`readPos, this`writePos, os`inbox
      ensures Valid()
      ensures len <= old(WritableBytes()) + STACK_AREA
      ensures len < 0 ==> 0 < errno <= MAX_ERRNO
      ensures len < 0 ==> buffer == old(buffer) && readPos == old(readPos) && writePos == old(writePos)
      ensures len < 0 ==> os.inbox == old(os.inbox)
      ensures len >= 0 ==> errno == saveErrno && len <= |old(os.Pending(fd))|
      ensures len >= 0 ==> Readable() == old(Readable()) + old(os.Pending(fd))[..len]
      ensures len >= 0 ==> os.Pending(fd) == old(os.Pending(fd))[len..]
    {
      var writeable := WritableBytes();
      var n, e, data := os.Readv(fd, writeable + STACK_AREA);
      len, errno := n, saveErrno;
      if len < 0 {
        errno := e;
      } else if len <= writeable {
        buffer := Overwritten(buffer, writePos, data);
        writePos := writePos + len;
      } else {
        buffer := Overwritten(buffer, writePos, data[..writeable]);
        assert Readable() + data[..writeable] == buffer[readPos..|buffer|];
        writePos := |buffer|;
        Append(data[writeable..]);
        assert data[..writeable] + data[writeable..] == data;
      }
    }

    /// writeFd: one write of the readable bytes; readPos advances by exactly
    /// the count the kernel took.
    method WriteFd(fd: int, os: Os, saveErrno: int) returns (len: int, errno: int)
      requires Valid()
      modifies this`readPos, os`outbox
      ensures Valid()
      ensures len < 0 ==> readPos == old(readPos) && os.outbox == old(os.outbox) && 0 < errno
      ensures len >= 0 ==> errno == saveErrno && len <= old(ReadableBytes())
      ensures len >= 0 ==> readPos == old(readPos) + len && Readable() == old(Readable())[len..]
      ensures len >= 0 ==> os.Sent(fd) == old(os.Sent(fd)) + old(Readable())[..len]
    {
      var n, e := os.Write(fd, Readable());
      len, errno := n, saveErrno;
      if len < 0 {
        errno := e;
        return;
      }
      readPos := readPos + len;
    }
  }
}
