/// One client connection of code/http/httpconn.cpp: a read buffer filled
/// from the socket, a request parsed out of it, a response written into the
/// write buffer, and a scatter write of two spans -- the header bytes still
/// in the write buffer and the rest of the memory-mapped file.
module HttpConns {
  import opened Kernel
  import opened Buffers
  import opened HttpRequests

  /// write() keeps going in level-triggered mode while more than this many
  /// bytes are left (httpconn.cpp:88).
  const WRITE_CHUNK: nat := 10240

  /// A struct iovec: a start address and a length.
  datatype IoVec = IoVec(base: int, len: nat)

  /// The bytes left in the two spans after a writev that took len of them
  /// (httpconn.cpp:76-87): past the header span, the file span advances by
  /// the excess and the header span is emptied; otherwise only the header
  /// span advances.
  function Drain(head: IoVec, file: IoVec, len: nat): (r: (IoVec, IoVec))
    requires len <= head.len + file.len
    ensures r.0.len + r.1.len + len == head.len + file.len
    ensures r.0.len <= head.len && r.1.len <= file.len
    ensures r.1.len < file.len ==> r.0.len == 0
    ensures len <= head.len ==> r.1 == file && r.0 == IoVec(head.base + len, head.len - len)
    ensures len > head.len ==> r.1.base == file.base + (len - head.len)
  {
    if len > head.len then
      (head.(len := 0), IoVec(file.base + (len - head.len), file.len - (len - head.len)))
    else
      (IoVec(head.base + len, head.len - len), file)
  }

  /// The statics of HttpConn (httpconn.h:49-51), shared by all connections.
  class ConnStatics {
    var userCount: int
    var isET: bool
    var srcDir: string

    constructor (srcDir: string)
      ensures userCount == 0 && !isET && this.srcDir == srcDir
    {
      userCount, isET, this.srcDir := 0, false, srcDir;
    }
  }

  /// The part of HttpResponse (httpresponse.h:21-63) that a connection
  /// sees: what init was given, and the file mapping that makeResponse
  /// leaves. How the response text and the mapping come about is not part
  /// of this model, so makeResponse chooses them freely.
  class HttpResponse {
    var code: int
    var keepAlive: bool
    var path: string
    var srcDir: string
    /// Address of the mapped file, 0 for a null pointer.
    var mmFile: int
    var mmFileLen: nat

    constructor ()
      ensures mmFile == 0
    {
      mmFile := 0;
    }

    /// init (httpresponse.h:33).
    method Init(srcDir: string, path: string, keepAlive: bool, code: int)
      modifies this
      ensures this.code == code && this.keepAlive == keepAlive
      ensures this.path == path && this.srcDir == srcDir
    {
      this.code, this.keepAlive, this.path, this.srcDir := code, keepAlive, path, srcDir;
    }

    /// makeResponse (httpresponse.h:39): appends the status line, the
    /// headers and any inline body to buff, and may map a file.
    method MakeResponse(buff: Buffer)
      requires buff.Valid()
      modifies this`mmFile, this`mmFileLen, buff`buffer, buff`readPos, buff`writePos
      ensures buff.Valid()
      ensures |old(buff.Readable())| <= |buff.Readable()|
      ensures buff.Readable()[..|old(buff.Readable())|] == old(buff.Readable())
    {
      var text: seq<char> :| true;
      buff.Append(text);
      var addr: int, len: nat :| true;
      mmFile, mmFileLen := addr, len;
    }

    /// unmapFile (httpresponse.h:44).
    method UnmapFile()
      modifies this`mmFile
      ensures mmFile == 0
    {
      mmFile := 0;
    }
  }

  class HttpConn {
    var fd: int
    var isClose: bool
    var iovCnt: int
    var iov0: IoVec
    var iov1: IoVec
    const readBuff: Buffer
    const writeBuff: Buffer
    const request: HttpRequest
    const response: HttpResponse
    const statics: ConnStatics

    /// The objects this connection owns.
    ghost function Repr(): set<object>
    {
      {this, readBuff, writeBuff, request, response}
    }

    ghost predicate Valid()
      reads this, readBuff, writeBuff
    {
      readBuff != writeBuff && readBuff.Valid() && writeBuff.Valid()
    }

    /// The state process() leaves for write(): one or two spans, the first
    /// within the write buffer's readable bytes.
    ghost predicate Ready()
      reads this, readBuff, writeBuff
    {
      Valid() && (iovCnt == 1 || iovCnt == 2) && iov0.len <= writeBuff.ReadableBytes()
    }

    /// toWriteBytes (httpconn.h:42-44): both spans, whatever iovCnt says.
    function ToWriteBytes(): nat
      reads this
    {
      iov0.len + iov1.len
    }

    /// The bytes writev is offered: the first iovCnt spans.
    function Offered(): (n: nat)
      reads this
      requires iovCnt == 1 || iovCnt == 2
      ensures n <= ToWriteBytes()
      ensures iovCnt == 2 ==> n == ToWriteBytes()
      ensures iovCnt == 1 ==> n == iov0.len
    {
      if iovCnt == 2 then iov0.len + iov1.len else iov0.len
    }

    /// isKeepAlive (httpconn.h:45-47).
    function IsKeepAlive(): (b: bool)
      reads request
      ensures b == KeepAlive(request.Snapshot())
    {
      request.IsKeepAlive()
    }

    /// HttpConn() (httpconn.cpp:7-11): closed, fd -1; the spans and their
    /// count are left uninitialised, so the model gives them no value.
    constructor (statics: ConnStatics)
      ensures Valid() && fd == -1 && isClose && this.statics == statics
      ensures fresh(readBuff) && fresh(writeBuff) && fresh(request) && fresh(response)
      ensures readBuff.Readable() == [] && writeBuff.Readable() == []
    {
      fd := -1;
      isClose := true;
      readBuff := new Buffer(DEFAULT_SIZE);
      writeBuff := new Buffer(DEFAULT_SIZE);
      request := new HttpRequest();
      response := new HttpResponse();
      this.statics := statics;
    }

    /// init (httpconn.cpp:17-26): counts the user, empties both buffers
    /// and opens the connection.
    method Init(fd: int)
      requires readBuff != writeBuff && fd > 0
      modifies this`fd, this`isClose, statics`userCount, readBuff, writeBuff
      ensures Valid() && this.fd == fd && !isClose
      ensures statics.userCount == old(statics.userCount) + 1
      ensures readBuff.Readable() == [] && writeBuff.Readable() == []
      ensures readBuff.buffer == Zeroes(|old(readBuff.buffer)|)
      ensures writeBuff.buffer == Zeroes(|old(writeBuff.buffer)|)
    {
      statics.userCount := statics.userCount + 1;
      this.fd := fd;
      writeBuff.RetrieveAll();
      readBuff.RetrieveAll();
      isClose := false;
    }

    /// close (httpconn.cpp:28-36): always unmaps the file; only an open
    /// connection is uncounted and has its descriptor closed, so closing
    /// twice counts once.
    method Close(os: Os)
      modifies response`mmFile, this`isClose, statics`userCount, os`closed, os`interest
      ensures response.mmFile == 0 && isClose
      ensures old(isClose) ==> statics.userCount == old(statics.userCount)
      ensures old(isClose) ==> os.closed == old(os.closed) && os.interest == old(os.interest)
      ensures !old(isClose) ==> statics.userCount == old(statics.userCount) - 1
      ensures !old(isClose) ==> os.closed == old(os.closed) + {fd}
      ensures !old(isClose) ==> os.interest == old(os.interest) - {fd}
    {
      response.UnmapFile();
      if !isClose {
        isClose := true;
        statics.userCount := statics.userCount - 1;
        os.Close(fd);
      }
    }

    /// read (httpconn.cpp:54-63): readFd once, or in edge-triggered mode
    /// until a call returns <= 0; the result is that of the last call.
    method Read(os: Os, saveErrno: int) returns (len: int, errno: int, ghost got: nat)
      requires Valid()
      modifies readBuff`buffer, readBuff`readPos, readBuff`writePos, os`inbox
      ensures Valid() && got <= |old(os.Pending(fd))|
      ensures readBuff.Readable() == old(readBuff.Readable()) + old(os.Pending(fd))[..got]
      ensures os.Pending(fd) == old(os.Pending(fd))[got..]
      ensures statics.isET ==> len <= 0
      ensures !statics.isET ==> (len >= 0 ==> got == len) && (len < 0 ==> got == 0)
      ensures len < 0 ==> 0 < errno <= MAX_ERRNO
      ensures len >= 0 ==> errno == saveErrno
    {
      len, errno, got := -1, saveErrno, 0;
      ghost var have, pending := readBuff.Readable(), os.Pending(fd);
      while true
        invariant Valid() && errno == saveErrno && got <= |pending|
        invariant readBuff.Readable() == have + pending[..got]
        invariant os.Pending(fd) == pending[got..]
        invariant !statics.isET ==> got == 0
        decreases |os.Pending(fd)|
      {
        len, errno := readBuff.ReadFd(fd, os, errno);
        if len <= 0 {
          break;
        }
        assert pending[..got] + pending[got..][..len] == pending[..got + len];
        got := got + len;
        if !statics.isET {
          break;
        }
      }
    }

    /// The span bookkeeping after a writev that took len > 0 bytes
    /// (httpconn.cpp:76-87): the spans become Drain's result, and the write
    /// buffer gives up exactly the header bytes that were sent -- all of them
    /// (retrieveAll) once the header span is passed.
    method Advance(len: nat, ghost orig: seq<char>, ghost skip: nat) returns (ghost dropped: nat)
      requires Ready() && 0 < len <= Offered()
      requires skip <= |orig| && writeBuff.Readable() == orig[skip..]
      modifies this`iov0, this`iov1, writeBuff`buffer, writeBuff`readPos, writeBuff`writePos
      ensures Ready()
      ensures (iov0, iov1) == Drain(old(iov0), old(iov1), len)
      ensures len <= old(iov0.len) ==> writeBuff.Readable() == old(writeBuff.Readable())[len..]
      ensures len > old(iov0.len) > 0 ==> writeBuff.Readable() == []
      ensures len > old(iov0.len) == 0 ==> writeBuff.Readable() == old(writeBuff.Readable())
      ensures old(iov0.len == writeBuff.ReadableBytes()) ==> iov0.len == writeBuff.ReadableBytes()
      ensures skip + dropped <= |orig| && writeBuff.Readable() == orig[skip + dropped..]
    {
      dropped := 0;
      if len > iov0.len {
        iov1 := IoVec(iov1.base + (len - iov0.len), iov1.len - (len - iov0.len));
        if iov0.len != 0 {
          dropped := writeBuff.ReadableBytes();
          writeBuff.RetrieveAll();
          iov0 := iov0.(len := 0);
        }
      } else {
        iov0 := IoVec(iov0.base + len, iov0.len - len);
        writeBuff.Retrieve(len);
        dropped := len;
      }
    }

    /// write (httpconn.cpp:65-90): writev of the offered spans, then
    /// Drain; the header bytes leave the write buffer as they are sent.
    /// The loop stops after a writev that returns <= 0 (saving errno), and
    /// otherwise repeats while in edge-triggered mode or while more than
    /// WRITE_CHUNK bytes are left. `sent` is the number of bytes the writev
    /// calls took in all, which is what the kernel counts for fd.
    method Write(os: Os, saveErrno: int) returns (len: int, errno: int, ghost sent: nat, ghost dropped: nat)
      requires Ready()
      modifies this`iov0, this`iov1, writeBuff`buffer, writeBuff`readPos, writeBuff`writePos, os`gathered
      ensures Ready() && iovCnt == old(iovCnt)
      ensures ToWriteBytes() + sent == old(ToWriteBytes())
      ensures os.Gathered(fd) == old(os.Gathered(fd)) + sent
      ensures forall d :: d != fd ==> os.Gathered(d) == old(os.Gathered(d))
      ensures len < 0 ==> 0 < errno <= MAX_ERRNO
      ensures len > 0 ==> errno == saveErrno && !statics.isET && ToWriteBytes() <= WRITE_CHUNK
      ensures iov1.len < old(iov1.len) ==> iov0.len == 0
      ensures iovCnt == 1 ==> iov1 == old(iov1)
      ensures |writeBuff.Readable()| <= |old(writeBuff.Readable())|
      ensures dropped <= |old(writeBuff.Readable())| && writeBuff.Readable() == old(writeBuff.Readable())[dropped..]
      ensures old(iov0.len == writeBuff.ReadableBytes()) ==> iov0.len == writeBuff.ReadableBytes()
    {
      len, errno, sent := -1, saveErrno, 0;
      ghost var orig := writeBuff.Readable();
      dropped := 0;
      while true
        invariant Ready() && iovCnt == old(iovCnt) && errno == saveErrno
        invariant ToWriteBytes() + sent == old(ToWriteBytes())
        invariant os.Gathered(fd) == old(os.Gathered(fd)) + sent
        invariant forall d :: d != fd ==> os.Gathered(d) == old(os.Gathered(d))
        invariant iov1.len < old(iov1.len) ==> iov0.len == 0
        invariant iov1.len <= old(iov1.len)
        invariant iovCnt == 1 ==> iov1 == old(iov1)
        invariant dropped <= |orig| && writeBuff.Readable() == orig[dropped..]
        invariant old(iov0.len == writeBuff.ReadableBytes()) ==> iov0.len == writeBuff.ReadableBytes()
        decreases ToWriteBytes()
      {
        var n, e := os.Writev(fd, Offered());
        len := n;
        if len <= 0 {
          errno := e;
          break;
        }
        if iov0.len + iov1.len == 0 {
          break;
        }
        ghost var k := Advance(len, orig, dropped);
        dropped := dropped + k;
        sent := sent + len;
        if !(statics.isET || ToWriteBytes() > WRITE_CHUNK) {
          break;
        }
      }
    }

    /// The end of process (httpconn.cpp:103-114): the response goes into
    /// the write buffer, the first span covers exactly its readable bytes,
    /// and the second span is set, with iovCnt 2, only for a mapped file
    /// that is not empty; otherwise it keeps whatever it held.
    method Respond()
      requires Valid()
      modifies response`mmFile, response`mmFileLen, writeBuff`buffer, writeBuff`readPos, writeBuff`writePos
      modifies this`iov0, this`iov1, this`iovCnt
      ensures Ready() && iov0 == IoVec(writeBuff.readPos, writeBuff.ReadableBytes())
      ensures |old(writeBuff.Readable())| <= |writeBuff.Readable()|
      ensures writeBuff.Readable()[..|old(writeBuff.Readable())|] == old(writeBuff.Readable())
      ensures response.mmFileLen > 0 && response.mmFile != 0 ==>
                iovCnt == 2 && iov1 == IoVec(response.mmFile, response.mmFileLen) &&
                ToWriteBytes() == writeBuff.ReadableBytes() + response.mmFileLen
      ensures !(response.mmFileLen > 0 && response.mmFile != 0) ==> iovCnt == 1 && iov1 == old(iov1)
    {
      response.MakeResponse(writeBuff);
      iov0 := IoVec(writeBuff.readPos, writeBuff.ReadableBytes());
      iovCnt := 1;
      if response.mmFileLen > 0 && response.mmFile != 0 {
        iov1 := IoVec(response.mmFile, response.mmFileLen);
        iovCnt := 2;
      }
    }

    /// process (httpconn.cpp:92-117): resets the request; with nothing to
    /// read it stops with false. Otherwise it parses, initialises the
    /// response with 200 and the request's keep-alive flag on success or
    /// with 400 and no keep-alive on failure, builds the response, points
    /// the first span at the write buffer's readable bytes and, only when a
    /// file is mapped and not empty, the second span at the file.
    method Process(verify: Verifier) returns (ok: bool)
      requires Valid()
      requires ParseSpec(InitRequest(), readBuff.Readable(), verify).Some?
      modifies request, response, readBuff`readPos, writeBuff`buffer, writeBuff`readPos, writeBuff`writePos
      modifies this`iov0, this`iov1, this`iovCnt
      ensures Valid() && readBuff.buffer == old(readBuff.buffer)
      ensures ok <==> old(readBuff.ReadableBytes()) > 0
      ensures !ok ==> request.Snapshot() == InitRequest() && readBuff.readPos == old(readBuff.readPos)
      ensures !ok ==> iovCnt == old(iovCnt) && iov0 == old(iov0) && iov1 == old(iov1)
      ensures !ok ==> unchanged(response, writeBuff)
      ensures ok ==> var p := ParseSpec(InitRequest(), old(readBuff.Readable()), verify).value;
                request.Snapshot() == p.req && readBuff.readPos == old(readBuff.readPos) + p.consumed &&
                response.code == (if p.ok then 200 else 400) &&
                response.keepAlive == (p.ok && KeepAlive(p.req)) &&
                response.path == p.req.path && response.srcDir == statics.srcDir
      ensures ok ==> Ready() && iov0 == IoVec(writeBuff.readPos, writeBuff.ReadableBytes())
      ensures ok ==> |old(writeBuff.Readable())| <= |writeBuff.Readable()|
      ensures ok ==> writeBuff.Readable()[..|old(writeBuff.Readable())|] == old(writeBuff.Readable())
      ensures ok && response.mmFileLen > 0 && response.mmFile != 0 ==>
                iovCnt == 2 && iov1 == IoVec(response.mmFile, response.mmFileLen) &&
                ToWriteBytes() == writeBuff.ReadableBytes() + response.mmFileLen
      ensures ok && !(response.mmFileLen > 0 && response.mmFile != 0) ==>
                iovCnt == 1 && iov1 == old(iov1)
    {
      request.Init();
      if readBuff.ReadableBytes() <= 0 {
        return false;
      }
      var parsed := request.Parse(readBuff, verify);
      if parsed {
        response.Init(statics.srcDir, request.path, request.IsKeepAlive(), 200);
      } else {
        response.Init(statics.srcDir, request.path, false, 400);
      }
      Respond();
      return true;
    }
  }
}
