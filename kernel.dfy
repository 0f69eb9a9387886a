/// The operating-system services that the server core calls: reading and
/// writing sockets, accepting connections, closing descriptors and the epoll
/// interest list. Whatever the kernel decides (how many bytes arrive, whether
/// a call fails) is chosen nondeterministically here, so callers may rely on
/// the contracts below and on nothing else.
module Kernel {

  /// errno value for "resource temporarily unavailable" (would block).
  const EAGAIN: int := 11

  /// Largest errno value the model lets a failing call report.
  const MAX_ERRNO: int := 4095

  // Event bits of <sys/epoll.h>.
  const EPOLLIN: bv32 := 0x0000_0001
  const EPOLLOUT: bv32 := 0x0000_0004
  const EPOLLERR: bv32 := 0x0000_0008
  const EPOLLHUP: bv32 := 0x0000_0010
  const EPOLLRDHUP: bv32 := 0x0000_2000
  const EPOLLONESHOT: bv32 := 0x4000_0000
  const EPOLLET: bv32 := 0x8000_0000

  /// The part of the kernel the server talks to.
  class Os {
    /// Bytes each peer has sent that the server has not read yet.
    var inbox: map<int, seq<char>>
    /// Bytes the server has handed to write(2) or send(2), per descriptor.
    var outbox: map<int, seq<char>>
    /// Descriptors of the connections waiting on the listening socket.
    var backlog: seq<int>
    /// The epoll interest list: descriptor to event mask.
    var interest: map<int, bv32>
    /// Descriptors the server has closed.
    var closed: set<int>
    /// How many bytes writev(2) has taken in all, per descriptor.
    var gathered: map<int, nat>

    constructor (pending: map<int, seq<char>>, waiting: seq<int>)
      ensures inbox == pending && backlog == waiting
      ensures outbox == map[] && interest == map[] && closed == {} && gathered == map[]
    {
      inbox, backlog := pending, waiting;
      outbox, interest, closed := map[], map[], {};
      gathered := map[];
    }

    function Pending(fd: int): seq<char>
      reads this
    {
      if fd in inbox then inbox[fd] else []
    }

    function Sent(fd: int): seq<char>
      reads this
    {
      if fd in outbox then outbox[fd] else []
    }

    function Gathered(fd: int): nat
      reads this
    {
      if fd in gathered then gathered[fd] else 0
    }

    /// readv(2) into iovecs of `capacity` bytes in all: a failure (-1 and
    /// an errno), or the next n bytes of the peer's stream, n <= capacity.
    method Readv(fd: int, capacity: nat) returns (n: int, errno: int, data: seq<char>)
      modifies this`inbox
      ensures -1 <= n <= capacity
      ensures n < 0 ==> 0 < errno <= MAX_ERRNO && data == [] && inbox == old(inbox)
      ensures n >= 0 ==> n <= |old(Pending(fd))| && data == old(Pending(fd))[..n]
      ensures n >= 0 ==> Pending(fd) == old(Pending(fd))[n..]
      ensures forall d :: d != fd ==> Pending(d) == old(Pending(d))
    {
      var pending := Pending(fd);
      var k: int :| -1 <= k <= capacity && k <= |pending|;
      n := k;
      if n < 0 {
        var e: int :| 0 < e <= MAX_ERRNO;
        errno, data := e, [];
      } else {
        errno, data := 0, pending[..n];
        inbox := inbox[fd := pending[n..]];
      }
    }

    /// write(2) or send(2) of `data`: a failure, or the first n bytes of it
    /// appended to what the peer receives.
    method Write(fd: int, data: seq<char>) returns (n: int, errno: int)
      modifies this`outbox
      ensures -1 <= n <= |data|
      ensures n < 0 ==> 0 < errno <= MAX_ERRNO && outbox == old(outbox)
      ensures n >= 0 ==> Sent(fd) == old(Sent(fd)) + data[..n]
      ensures forall d :: d != fd ==> Sent(d) == old(Sent(d))
    {
      var k: int :| -1 <= k <= |data|;
      n := k;
      if n < 0 {
        var e: int :| 0 < e <= MAX_ERRNO;
        errno := e;
      } else {
        errno := 0;
        outbox := outbox[fd := Sent(fd) + data[..n]];
      }
    }

    /// writev(2) over iovecs holding `total` bytes: a failure, or a count
    /// n <= total, added to the descriptor's count. The bytes themselves
    /// are not tracked.
    method Writev(fd: int, total: nat) returns (n: int, errno: int)
      modifies this`gathered
      ensures -1 <= n <= total
      ensures n < 0 ==> 0 < errno <= MAX_ERRNO && gathered == old(gathered)
      ensures n >= 0 ==> Gathered(fd) == old(Gathered(fd)) + n
      ensures forall d :: d != fd ==> Gathered(d) == old(Gathered(d))
    {
      var k: int :| -1 <= k <= total;
      n := k;
      if n < 0 {
        var e: int :| 0 < e <= MAX_ERRNO;
        errno := e;
      } else {
        errno := 0;
        gathered := gathered[fd := Gathered(fd) + n];
      }
    }

    /// accept(2) on the non-blocking listening socket: the next waiting
    /// connection, or -1 when none is waiting.
    method Accept() returns (fd: int)
      modifies this`backlog, this`closed
      ensures old(backlog) == [] ==> fd == -1 && backlog == [] && closed == old(closed)
      ensures old(backlog) != [] ==> fd == old(backlog)[0] && backlog == old(backlog)[1..]
      ensures old(backlog) != [] ==> closed == old(closed) - {fd}
    {
      if backlog == [] {
        fd := -1;
      } else {
        fd := backlog[0];
        backlog := backlog[1..];
        closed := closed - {fd};
      }
    }

    /// close(2); the kernel also drops the descriptor from the interest list.
    method Close(fd: int)
      modifies this`closed, this`interest
      ensures closed == old(closed) + {fd}
      ensures interest == old(interest) - {fd}
    {
      closed := closed + {fd};
      interest := interest - {fd};
    }

    /// epoll_ctl(EPOLL_CTL_ADD), through Epoller::addFd: refuses a negative
    /// descriptor and one already registered.
    method EpollAdd(fd: int, events: bv32) returns (ok: bool)
      modifies this`interest
      ensures ok <==> fd >= 0 && fd !in old(interest)
      ensures interest == if ok then old(interest)[fd := events] else old(interest)
    {
      ok := fd >= 0 && fd !in interest;
      if ok {
        interest := interest[fd := events];
      }
    }

    /// epoll_ctl(EPOLL_CTL_MOD), through Epoller::modFd: re-arms a
    /// registered descriptor with a new mask.
    method EpollMod(fd: int, events: bv32) returns (ok: bool)
      modifies this`interest
      ensures ok <==> fd >= 0 && fd in old(interest)
      ensures interest == if ok then old(interest)[fd := events] else old(interest)
    {
      ok := fd >= 0 && fd in interest;
      if ok {
        interest := interest[fd := events];
      }
    }

    /// epoll_ctl(EPOLL_CTL_DEL), through Epoller::delFd.
    method EpollDel(fd: int) returns (ok: bool)
      modifies this`interest
      ensures ok <==> fd >= 0 && fd in old(interest)
      ensures interest == if ok then old(interest) - {fd} else old(interest)
    {
      ok := fd >= 0 && fd in interest;
      if ok {
        interest := interest - {fd};
      }
    }
  }
}
