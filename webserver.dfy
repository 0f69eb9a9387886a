/// The reactor of code/server/webServer.cpp: epoll masks chosen from the
/// trigger mode, one round of the event loop routing each ready event, the
/// accept loop, and what happens to a connection after a read or a write.
/// The thread pool is a FIFO of tasks that the loop appends to; those tasks
/// themselves are OnRead and OnWrite.
module WebServers {
  import opened Kernel
  import opened Buffers
  import opened HttpRequests
  import opened HttpConns

  /// Most users the accept loop admits (webServer.h:51).
  const MAX_FD: int := 65536

  /// Event bits after which a connection is closed (webServer.cpp:90).
  const HANGUP: bv32 := EPOLLRDHUP | EPOLLHUP | EPOLLERR

  /// The listen mask initEventMode chooses (webServer.cpp:51-69): RDHUP,
  /// with ET in modes 2 and 3 and for any value other than 0, 1 and 2.
  function ListenMask(trigMode: int): (m: bv32)
    ensures m & EPOLLRDHUP != 0 && m & !(EPOLLRDHUP | EPOLLET) == 0
    ensures m & EPOLLET != 0 <==> trigMode != 0 && trigMode != 1
  {
    if trigMode == 0 || trigMode == 1 then EPOLLRDHUP else EPOLLRDHUP | EPOLLET
  }

  /// The connection mask initEventMode chooses (webServer.cpp:52-69):
  /// ONESHOT and RDHUP, with ET in modes 1 and 3 and for any value other
  /// than 0, 1 and 2.
  function ConnMask(trigMode: int): (m: bv32)
    ensures m & EPOLLONESHOT != 0 && m & EPOLLRDHUP != 0
    ensures m & !(EPOLLONESHOT | EPOLLRDHUP | EPOLLET) == 0
    ensures m & EPOLLET != 0 <==> trigMode != 0 && trigMode != 2
  {
    if trigMode == 0 || trigMode == 2 then EPOLLONESHOT | EPOLLRDHUP
    else EPOLLONESHOT | EPOLLRDHUP | EPOLLET
  }

  /// What the event loop does with one ready event (webServer.cpp:88-101).
  datatype Route = AcceptAll | Hangup | ReadTask | WriteTask | Unexpected

  function Dispatch(fd: int, listenFd: int, events: bv32): Route
  {
    if fd == listenFd then AcceptAll
    else if events & HANGUP != 0 then Hangup
    else if events & EPOLLIN != 0 then ReadTask
    else if events & EPOLLOUT != 0 then WriteTask
    else Unexpected
  }

  /// Each route is taken exactly when its condition holds: the listening
  /// socket first, then a hang-up or error, then IN, then OUT.
  lemma DispatchRoutes(fd: int, listenFd: int, events: bv32)
    ensures Dispatch(fd, listenFd, events) == AcceptAll <==> fd == listenFd
    ensures Dispatch(fd, listenFd, events) == Hangup <==> fd != listenFd && events & HANGUP != 0
    ensures Dispatch(fd, listenFd, events) == ReadTask <==>
              fd != listenFd && events & HANGUP == 0 && events & EPOLLIN != 0
    ensures Dispatch(fd, listenFd, events) == WriteTask <==>
              fd != listenFd && events & HANGUP == 0 && events & EPOLLIN == 0 && events & EPOLLOUT != 0
    ensures Dispatch(fd, listenFd, events) == Unexpected <==>
              fd != listenFd && events & (HANGUP | EPOLLIN | EPOLLOUT) == 0
  {
  }

  /// The routes whose branch asserts that the descriptor is a known user.
  predicate NeedsUser(r: Route) {
    r == Hangup || r == ReadTask || r == WriteTask
  }

  /// A ready event as epoll_wait reports it.
  datatype Event = Event(fd: int, events: bv32)

  /// A task handed to the thread pool: onRead or onWrite bound to a client.
  datatype Task = OnReadTask(client: HttpConn) | OnWriteTask(client: HttpConn)

  /// What one round appends to the pool for the ready events, in order.
  function Queued(ready: seq<Event>, listenFd: int, users: map<int, HttpConn>): (t: seq<Task>)
    requires forall i | 0 <= i < |ready| ::
               NeedsUser(Dispatch(ready[i].fd, listenFd, ready[i].events)) ==> ready[i].fd in users
    ensures |t| <= |ready|
    ensures forall i | 0 <= i < |t| :: t[i].client in users.Values
    decreases |ready|
  {
    if ready == [] then []
    else
      var e := ready[|ready| - 1];
      Queued(ready[..|ready| - 1], listenFd, users) + TaskFor(e, listenFd, users)
  }

  /// What one ready event hands to the pool (webServer.cpp:94-97):
  /// onRead for a read event, onWrite for a write event, none otherwise.
  function TaskFor(e: Event, listenFd: int, users: map<int, HttpConn>): (t: seq<Task>)
    requires NeedsUser(Dispatch(e.fd, listenFd, e.events)) ==> e.fd in users
    ensures |t| <= 1
    ensures |t| == 1 <==> Dispatch(e.fd, listenFd, e.events) in {ReadTask, WriteTask}
    ensures |t| == 1 ==> t[0].client == users[e.fd]
    ensures |t| == 1 ==> (t[0].OnReadTask? <==> Dispatch(e.fd, listenFd, e.events) == ReadTask)
  {
    match Dispatch(e.fd, listenFd, e.events)
    case ReadTask => [OnReadTask(users[e.fd])]
    case WriteTask => [OnWriteTask(users[e.fd])]
    case _ => []
  }

  /// The timeout start() passes to epoll_wait (webServer.cpp:75-84): the
  /// timer's next tick when timers are on, and otherwise the previous value,
  /// which starts at -1.
  function WaitTimeout(timeoutMS: int, previous: int, nextTick: int): (w: int)
    ensures timeoutMS > 0 ==> w == nextTick
    ensures timeoutMS <= 0 ==> w == previous
  {
    if timeoutMS > 0 then nextTick else previous
  }

  /// onRead's choice (webServer.cpp:173-177).
  datatype AfterRead = CloseAfterRead | ProcessInput

  function ReadOutcome(ret: int, errno: int): (o: AfterRead)
    ensures o == CloseAfterRead <==> ret <= 0 && errno != EAGAIN
    ensures ret > 0 ==> o == ProcessInput
    ensures errno == EAGAIN ==> o == ProcessInput
  {
    if ret <= 0 && errno != EAGAIN then CloseAfterRead else ProcessInput
  }

  /// The mask onProcess re-arms (webServer.cpp:180-186): OUT once a
  /// response is ready, IN to wait for more input.
  function ProcessMask(connEvent: bv32, processed: bool): bv32
  {
    if processed then connEvent | EPOLLOUT else connEvent | EPOLLIN
  }

  /// The re-armed mask keeps every bit of the connection mask but IN and OUT
  /// and adds OUT after a response, IN otherwise; for a mask without IN and
  /// OUT exactly one of the two is set.
  lemma ProcessMaskBits(connEvent: bv32, processed: bool)
    ensures ProcessMask(connEvent, processed) & !(EPOLLIN | EPOLLOUT) == connEvent & !(EPOLLIN | EPOLLOUT)
    ensures processed ==> ProcessMask(connEvent, processed) & EPOLLOUT != 0
    ensures !processed ==> ProcessMask(connEvent, processed) & EPOLLIN != 0
    ensures connEvent & (EPOLLIN | EPOLLOUT) == 0 ==>
              (ProcessMask(connEvent, processed) & EPOLLOUT != 0 <==> processed) &&
              (ProcessMask(connEvent, processed) & EPOLLIN != 0 <==> !processed)
  {
  }

  /// onWrite's choice (webServer.cpp:193-205).
  datatype AfterWrite = Reprocess | RearmOut | CloseAfterWrite

  function WriteOutcome(left: int, keepAlive: bool, ret: int, errno: int): (o: AfterWrite)
    ensures o == Reprocess <==> left == 0 && keepAlive
    ensures o == RearmOut <==> left != 0 && ret < 0 && errno == EAGAIN
    ensures o == CloseAfterWrite <==>
              (left == 0 && !keepAlive) || (left != 0 && (ret >= 0 || errno != EAGAIN))
  {
    if left == 0 then
      if keepAlive then Reprocess else CloseAfterWrite
    else if ret < 0 then
      if errno == EAGAIN then RearmOut else CloseAfterWrite
    else CloseAfterWrite
  }

  /// What the kernel has recorded as sent on fd, in an outbox map.
  function Output(outbox: map<int, seq<char>>, fd: int): seq<char>
  {
    if fd in outbox then outbox[fd] else []
  }

  /// The trace of sendError(fd, info) in the outbox: fd's output gains a
  /// prefix of info (send may take part of it, or fail and take nothing),
  /// and no other descriptor's output changes.
  ghost predicate ErrorSent(before: map<int, seq<char>>, after: map<int, seq<char>>, fd: int, info: string)
  {
    var was, now := Output(before, fd), Output(after, fd);
    |was| <= |now| <= |was| + |info| && now == was + info[..|now| - |was|] &&
    forall d :: d != fd ==> Output(after, d) == Output(before, d)
  }

  /// The interest list after Epoller::modFd(fd, mask).
  function Rearmed(interest: map<int, bv32>, fd: int, mask: bv32): (r: map<int, bv32>)
    ensures r.Keys == interest.Keys
    ensures fd >= 0 && fd in interest ==> r[fd] == mask
    ensures forall d | d in r && d != fd :: r[d] == interest[d]
  {
    if fd >= 0 && fd in interest then interest[fd := mask] else interest
  }

  /// The part of HeapTimer the server uses. The heap is not part of this
  /// model: the timer records, per descriptor, the last timeout the server
  /// asked for through add or adjust.
  class Timer {
    var armed: map<int, int>

    constructor ()
      ensures armed == map[]
    {
      armed := map[];
    }

    method Add(fd: int, timeout: int)
      modifies this
      ensures armed == old(armed)[fd := timeout]
    {
      armed := armed[fd := timeout];
    }

    method Adjust(fd: int, timeout: int)
      modifies this
      ensures armed == old(armed)[fd := timeout]
    {
      armed := armed[fd := timeout];
    }
  }

  class WebServer {
    const port: int
    const timeoutMS: int
    var isClose: bool
    var listenFd: int
    var listenEvent: bv32
    var connEvent: bv32
    var users: map<int, HttpConn>
    /// The thread pool's queue.
    var tasks: seq<Task>
    const os: Os
    const timer: Timer
    const statics: ConnStatics
    /// Objects the users own.
    ghost var Repr: set<object>

    /// Every user shares the statics, has two distinct buffers and owns
    /// objects in Repr, which holds nothing of the server's own.
    ghost predicate UsersOk()
      reads this
    {
      this !in Repr && os !in Repr && timer !in Repr && statics !in Repr &&
      forall fd | fd in users ::
        users[fd].readBuff != users[fd].writeBuff && users[fd].statics == statics && Owns(users[fd])
    }

    /// The objects of one user belong to Repr.
    ghost predicate Owns(c: HttpConn)
      reads this
    {
      c in Repr && c.readBuff in Repr && c.writeBuff in Repr && c.request in Repr && c.response in Repr
    }

    /// WebServer(...) (webServer.cpp:3-41), without the log, the SQL pool
    /// and the working directory: no users yet, the masks of trigMode, and
    /// closed when initSocket fails. sock and bound stand for the results
    /// of socket() and of the setsockopt/bind/listen calls.
    constructor (port: int, trigMode: int, timeoutMS: int, os: Os, statics: ConnStatics,
                 srcDir: string, sock: int, bound: bool)
      modifies os, statics
      ensures this.port == port && this.timeoutMS == timeoutMS
      ensures this.os == os && this.statics == statics && fresh(timer) && timer.armed == map[]
      ensures users == map[] && tasks == []
      ensures statics.userCount == 0 && statics.srcDir == srcDir
      ensures listenEvent == ListenMask(trigMode) && connEvent == ConnMask(trigMode)
      ensures statics.isET == (connEvent & EPOLLET != 0)
      ensures isClose <==> !(1024 <= port <= 65535 && sock >= 0 && bound && sock !in old(os.interest))
      ensures !isClose ==> listenFd == sock && os.interest == old(os.interest)[sock := listenEvent | EPOLLIN]
      ensures !(1024 <= port <= 65535) ==> os.interest == old(os.interest) && os.closed == old(os.closed)
    {
      this.port, this.timeoutMS := port, timeoutMS;
      isClose := false;
      this.os, this.statics := os, statics;
      timer := new Timer();
      users, tasks := map[], [];
      Repr := {};
      new;
      statics.userCount := 0;
      statics.srcDir := srcDir;
      InitEventMode(trigMode);
      var ok := InitSocket(sock, bound);
      if !ok {
        isClose := true;
      }
    }

    /// initEventMode (webServer.cpp:50-72).
    method InitEventMode(trigMode: int)
      modifies this`listenEvent, this`connEvent, statics`isET
      ensures listenEvent == ListenMask(trigMode) && connEvent == ConnMask(trigMode)
      ensures statics.isET == (connEvent & EPOLLET != 0)
    {
      var listen: bv32 := EPOLLRDHUP;
      var conn: bv32 := EPOLLONESHOT | EPOLLRDHUP;
      if trigMode == 1 {
        conn := conn | EPOLLET;
      } else if trigMode == 2 {
        listen := listen | EPOLLET;
      } else if trigMode != 0 {
        listen := listen | EPOLLET;
        conn := conn | EPOLLET;
      }
      listenEvent, connEvent := listen, conn;
      statics.isET := connEvent & EPOLLET != 0;
    }

    /// initSocket (webServer.cpp:208-270): a port outside [1024, 65535] is
    /// refused before any socket call; then the socket must exist, be set
    /// up (bound) and join the interest list with the listen mask and IN.
    /// Every failure after socket() closes it.
    method InitSocket(sock: int, bound: bool) returns (ok: bool)
      modifies this`listenFd, os`interest, os`closed
      ensures !(1024 <= port <= 65535) ==>
                listenFd == old(listenFd) && os.interest == old(os.interest) && os.closed == old(os.closed)
      ensures ok <==> 1024 <= port <= 65535 && sock >= 0 && bound && sock !in old(os.interest)
      ensures ok ==> listenFd == sock && os.interest == old(os.interest)[sock := listenEvent | EPOLLIN]
      ensures ok ==> os.closed == old(os.closed)
      ensures !ok && 1024 <= port <= 65535 && sock >= 0 ==>
                os.closed == old(os.closed) + {sock} && os.interest == old(os.interest) - {sock}
    {
      if port > 65535 || port < 1024 {
        return false;
      }
      listenFd := sock;
      if listenFd < 0 {
        return false;
      }
      if !bound {
        os.Close(listenFd);
        return false;
      }
      var added := os.EpollAdd(listenFd, listenEvent | EPOLLIN);
      if !added {
        os.Close(listenFd);
        return false;
      }
      return true;
    }

    /// sendError (webServer.cpp:106-113): one send of info, then close.
    method SendError(fd: int, info: string)
      requires fd > 0
      modifies os`outbox, os`closed, os`interest
      ensures ErrorSent(old(os.outbox), os.outbox, fd, info)
      ensures os.closed == old(os.closed) + {fd} && os.interest == old(os.interest) - {fd}
    {
      ghost var was := os.outbox;
      assert forall d :: Output(was, d) == os.Sent(d);
      var ret, e := os.Write(fd, info);
      os.Close(fd);
      assert forall d :: Output(os.outbox, d) == os.Sent(d);
    }

    /// closeConn (webServer.cpp:115-120): leaves the interest list, then
    /// HttpConn::close.
    method CloseConn(client: HttpConn)
      requires client.statics == statics
      modifies os`interest, os`closed, client`isClose, client.response`mmFile, statics`userCount
      ensures client.isClose && client.response.mmFile == 0
      ensures client.fd >= 0 ==> os.interest == old(os.interest) - {client.fd}
      ensures old(client.isClose) ==> statics.userCount == old(statics.userCount) && os.closed == old(os.closed)
      ensures !old(client.isClose) ==>
                statics.userCount == old(statics.userCount) - 1 && os.closed == old(os.closed) + {client.fd}
    {
      var deleted := os.EpollDel(client.fd);
      client.Close(os);
    }

    /// extentTime (webServer.cpp:161-166).
    method ExtentTime(client: HttpConn)
      modifies timer
      ensures timeoutMS > 0 ==> timer.armed == old(timer.armed)[client.fd := timeoutMS]
      ensures timeoutMS <= 0 ==> timer.armed == old(timer.armed)
    {
      if timeoutMS > 0 {
        timer.Adjust(client.fd, timeoutMS);
      }
    }

    /// dealRead (webServer.cpp:149-153).
    method DealRead(client: HttpConn)
      modifies timer, this`tasks
      ensures tasks == old(tasks) + [OnReadTask(client)]
      ensures timeoutMS > 0 ==> timer.armed == old(timer.armed)[client.fd := timeoutMS]
      ensures timeoutMS <= 0 ==> timer.armed == old(timer.armed)
    {
      ExtentTime(client);
      tasks := tasks + [OnReadTask(client)];
    }

    /// dealWrite (webServer.cpp:155-159).
    method DealWrite(client: HttpConn)
      modifies timer, this`tasks
      ensures tasks == old(tasks) + [OnWriteTask(client)]
      ensures timeoutMS > 0 ==> timer.armed == old(timer.armed)[client.fd := timeoutMS]
      ensures timeoutMS <= 0 ==> timer.armed == old(timer.armed)
    {
      ExtentTime(client);
      tasks := tasks + [OnWriteTask(client)];
    }

    /// m_users[fd] (webServer.cpp:124): the user for fd, created on first
    /// use.
    method UserSlot(fd: int) returns (client: HttpConn)
      requires UsersOk()
      modifies this`users, this`Repr
      ensures UsersOk() && fresh(Repr - old(Repr))
      ensures fd in old(users) ==> users == old(users) && client == old(users[fd])
      ensures fd !in old(users) ==> users == old(users)[fd := client] && fresh(client.Repr())
      ensures users[fd] == client && client.readBuff != client.writeBuff && client.statics == statics
    {
      if fd !in users {
        var conn := new HttpConn(statics);
        users := users[fd := conn];
        Repr := Repr + conn.Repr();
      }
      client := users[fd];
    }

    /// addClient (webServer.cpp:122-131): m_users[fd] is initialised; a
    /// timer is added when timers are on, and the descriptor joins the
    /// interest list with IN and the connection mask.
    method AddClient(fd: int)
      requires fd > 0 && UsersOk()
      modifies this`users, this`Repr, statics`userCount, timer, os`interest, Repr
      ensures UsersOk() && fresh(Repr - old(Repr))
      ensures fd in old(users) ==> users == old(users)
      ensures fd !in old(users) ==> fd in users && users == old(users)[fd := users[fd]]
      ensures users[fd].Valid() && users[fd].fd == fd && !users[fd].isClose
      ensures users[fd].readBuff.Readable() == [] && users[fd].writeBuff.Readable() == []
      ensures statics.userCount == old(statics.userCount) + 1
      ensures timeoutMS > 0 ==> timer.armed == old(timer.armed)[fd := timeoutMS]
      ensures timeoutMS <= 0 ==> timer.armed == old(timer.armed)
      ensures os.interest == if fd in old(os.interest) then old(os.interest)
                             else old(os.interest)[fd := EPOLLIN | connEvent]
    {
      var client := UserSlot(fd);
      client.Init(fd);
      Register(fd);
    }

    /// The rest of addClient (webServer.cpp:125-128): the timer, when
    /// timers are on, and the interest list.
    method Register(fd: int)
      requires fd > 0
      modifies timer, os`interest
      ensures timeoutMS > 0 ==> timer.armed == old(timer.armed)[fd := timeoutMS]
      ensures timeoutMS <= 0 ==> timer.armed == old(timer.armed)
      ensures os.interest == if fd in old(os.interest) then old(os.interest)
                             else old(os.interest)[fd := EPOLLIN | connEvent]
    {
      if timeoutMS > 0 {
        timer.Add(fd, timeoutMS);
      }
      var added := os.EpollAdd(fd, EPOLLIN | connEvent);
    }

    /// One pass of the do-while body of dealListen (webServer.cpp:137-145):
    /// accept; stop on a descriptor <= 0; refuse with "Server busy" when
    /// MAX_FD users are counted; otherwise addClient. `took` tells whether a
    /// connection was waiting.
    method AcceptOne() returns (fd: int, stop: bool, ghost took: bool)
      requires UsersOk()
      modifies this`users, this`Repr, statics`userCount, timer, os, Repr
      ensures UsersOk() && fresh(Repr - old(Repr))
      ensures took <==> old(os.backlog) != []
      ensures took ==> fd == old(os.backlog)[0] && os.backlog == old(os.backlog)[1..]
      ensures !took ==> fd == -1 && os.backlog == []
      ensures stop <==> fd <= 0 || old(statics.userCount) >= MAX_FD
      ensures stop ==> statics.userCount == old(statics.userCount) && Extends(old(users), users)
      ensures stop && fd > 0 ==> fd in os.closed
      ensures stop && fd > 0 ==> ErrorSent(old(os.outbox), os.outbox, fd, "Server busy")
      ensures !(stop && fd > 0) ==> os.outbox == old(os.outbox)
      ensures !stop ==> fd in users && statics.userCount == old(statics.userCount) + 1
      ensures !stop ==> Extends(old(users), users)
    {
      took := os.backlog != [];
      fd := os.Accept();
      if fd <= 0 {
        return fd, true, took;
      } else if statics.userCount >= MAX_FD {
        SendError(fd, "Server busy");
        return fd, true, took;
      }
      AddClient(fd);
      stop := false;
    }

    /// dealListen (webServer.cpp:133-147): accepts one connection in LT
    /// mode and keeps accepting in ET mode until accept fails or the server
    /// is full. `accepted` lists the descriptors accept returned, `refused`
    /// tells whether the last was turned away.
    method DealListen() returns (ghost accepted: seq<int>, ghost refused: bool)
      requires UsersOk()
      modifies this`users, this`Repr, statics`userCount, timer, os, Repr
      ensures UsersOk() && fresh(Repr - old(Repr))
      ensures |accepted| <= |old(os.backlog)|
      ensures accepted == old(os.backlog)[..|accepted|] && os.backlog == old(os.backlog)[|accepted|..]
      ensures listenEvent & EPOLLET == 0 ==> |accepted| <= 1
      ensures listenEvent & EPOLLET != 0 ==>
                os.backlog == [] || refused || (|accepted| > 0 && accepted[|accepted| - 1] <= 0)
      ensures refused ==> |accepted| > 0 && accepted[|accepted| - 1] > 0 && accepted[|accepted| - 1] in os.closed
      ensures refused ==> statics.userCount >= MAX_FD
      ensures refused ==> ErrorSent(old(os.outbox), os.outbox, accepted[|accepted| - 1], "Server busy")
      ensures !refused ==> os.outbox == old(os.outbox)
      ensures statics.userCount <= if old(statics.userCount) > MAX_FD then old(statics.userCount) else MAX_FD
      ensures Extends(old(users), users)
    {
      accepted, refused := [], false;
      while true
        invariant UsersOk() && fresh(Repr - old(Repr))
        invariant |accepted| <= |old(os.backlog)|
        invariant accepted == old(os.backlog)[..|accepted|] && os.backlog == old(os.backlog)[|accepted|..]
        invariant listenEvent & EPOLLET == 0 ==> accepted == []
        invariant Extends(old(users), users)
        invariant statics.userCount <= if old(statics.userCount) > MAX_FD then old(statics.userCount) else MAX_FD
        invariant os.outbox == old(os.outbox)
        decreases |os.backlog|
      {
        ghost var before := users;
        var fd, stop, took := AcceptOne();
        if took {
          TakeStep(old(os.backlog), |accepted|);
          accepted := accepted + [fd];
        }
        ExtendsTrans(old(users), before, users);
        if stop {
          refused := fd > 0;
          return;
        }
        if listenEvent & EPOLLET == 0 {
          return;
        }
      }
    }

    /// onProcess (webServer.cpp:180-186): re-arms OUT when process()
    /// produced a response and IN when there was nothing to read.
    method OnProcess(client: HttpConn, verify: Verifier)
      requires client.Valid() && ParseSpec(InitRequest(), client.readBuff.Readable(), verify).Some?
      modifies client`iov0, client`iov1, client`iovCnt, client.request, client.response
      modifies client.readBuff`readPos, client.writeBuff`buffer, client.writeBuff`readPos, client.writeBuff`writePos
      modifies os`interest
      ensures client.Valid()
      ensures old(client.readBuff.ReadableBytes()) > 0 ==> client.Ready()
      ensures os.interest ==
                Rearmed(old(os.interest), client.fd, ProcessMask(connEvent, old(client.readBuff.ReadableBytes()) > 0))
    {
      var processed := client.Process(verify);
      Rearm(client.fd, processed);
    }

    /// The modFd of onProcess (webServer.cpp:181-185): OUT after a
    /// response was made, IN otherwise.
    method Rearm(fd: int, processed: bool)
      modifies os`interest
      ensures os.interest == Rearmed(old(os.interest), fd, ProcessMask(connEvent, processed))
    {
      if processed {
        var ok := os.EpollMod(fd, connEvent | EPOLLOUT);
      } else {
        var ok := os.EpollMod(fd, connEvent | EPOLLIN);
      }
    }

    /// onRead (webServer.cpp:168-178): closes the connection when read
    /// returned <= 0 with an errno other than EAGAIN, and otherwise
    /// processes what arrived. `ret` and `err` are read's result and errno,
    /// `got` the bytes it took from the socket.
    method OnRead(client: HttpConn, verify: Verifier) returns (ghost ret: int, ghost err: int, ghost got: nat)
      requires client.Valid() && client.statics == statics
      requires ParsableAfterRead(client.readBuff.Readable(), os.Pending(client.fd), verify)
      modifies client`iov0, client`iov1, client`iovCnt, client`isClose, client.request, client.response
      modifies client.readBuff, client.writeBuff, os`inbox, os`interest, os`closed, statics`userCount
      ensures got <= |old(os.Pending(client.fd))|
      ensures os.Pending(client.fd) == old(os.Pending(client.fd))[got..]
      ensures ReadOutcome(ret, err) == CloseAfterRead ==>
                client.isClose && (client.fd >= 0 ==> os.interest == old(os.interest) - {client.fd}) &&
                (!old(client.isClose) ==> statics.userCount == old(statics.userCount) - 1)
      ensures ReadOutcome(ret, err) == ProcessInput ==>
                client.isClose == old(client.isClose) && statics.userCount == old(statics.userCount) &&
                os.interest == Rearmed(old(os.interest), client.fd,
                                       ProcessMask(connEvent, old(client.readBuff.ReadableBytes()) + got > 0))
    {
      var readErrno := 0;
      var n;
      n, readErrno, got := client.Read(os, readErrno);
      ret, err := n, readErrno;
      if n <= 0 && readErrno != EAGAIN {
        CloseConn(client);
        return;
      }
      ParsableAt(old(client.readBuff.Readable()), old(os.Pending(client.fd)), got, verify);
      OnProcess(client, verify);
    }

    /// onWrite (webServer.cpp:188-206): with nothing left to write a
    /// keep-alive connection is processed again; with bytes left a write
    /// that would block re-arms OUT; every other outcome closes. `ret` and
    /// `err` are write's result and errno, `left` is toWriteBytes after it.
    method OnWrite(client: HttpConn, verify: Verifier)
        returns (ghost ret: int, ghost err: int, ghost left: nat)
      requires client.Ready() && client.statics == statics
      requires ParseSpec(InitRequest(), client.readBuff.Readable(), verify).Some?
      modifies client`iov0, client`iov1, client`iovCnt, client`isClose, client.request, client.response
      modifies client.readBuff`readPos, client.writeBuff, os`interest, os`closed, os`gathered, statics`userCount
      ensures left <= old(client.ToWriteBytes())
      ensures left + (os.Gathered(client.fd) - old(os.Gathered(client.fd))) == old(client.ToWriteBytes())
      ensures WriteOutcome(left, old(client.IsKeepAlive()), ret, err) == CloseAfterWrite ==>
                client.isClose && (client.fd >= 0 ==> os.interest == old(os.interest) - {client.fd}) &&
                (!old(client.isClose) ==> statics.userCount == old(statics.userCount) - 1)
      ensures WriteOutcome(left, old(client.IsKeepAlive()), ret, err) == RearmOut ==>
                client.isClose == old(client.isClose) && statics.userCount == old(statics.userCount) &&
                os.interest == Rearmed(old(os.interest), client.fd, connEvent | EPOLLOUT)
      ensures WriteOutcome(left, old(client.IsKeepAlive()), ret, err) == Reprocess ==>
                client.isClose == old(client.isClose) && statics.userCount == old(statics.userCount) &&
                os.interest == Rearmed(old(os.interest), client.fd,
                                       ProcessMask(connEvent, old(client.readBuff.ReadableBytes()) > 0))
    {
      var writeErrno := 0;
      var n;
      ghost var sent, dropped;
      n, writeErrno, sent, dropped := client.Write(os, writeErrno);
      ret, err, left := n, writeErrno, client.ToWriteBytes();
      if client.ToWriteBytes() == 0 {
        if client.IsKeepAlive() {
          OnProcess(client, verify);
          return;
        }
      } else if n < 0 {
        if writeErrno == EAGAIN {
          var ok := os.EpollMod(client.fd, connEvent | EPOLLOUT);
          return;
        }
      }
      CloseConn(client);
    }

    /// One pass of start's loop (webServer.cpp:80-103): the timeout for
    /// epoll_wait, then each ready event routed by Dispatch. nextTick
    /// stands for getNextTick and ready for what epoll_wait reported.
    method Round(timeMS: int, nextTick: int, ready: seq<Event>) returns (waitMS: int)
      requires !isClose && UsersOk()
      requires forall i | 0 <= i < |ready| ::
                 NeedsUser(Dispatch(ready[i].fd, listenFd, ready[i].events)) ==> ready[i].fd in users
      modifies this`users, this`tasks, this`Repr, statics`userCount, timer, os, Repr
      ensures waitMS == WaitTimeout(timeoutMS, timeMS, nextTick)
      ensures UsersOk() && fresh(Repr - old(Repr)) && Extends(old(users), users)
      ensures tasks == old(tasks) + Queued(ready, old(listenFd), old(users))
    {
      waitMS := timeMS;
      if timeoutMS > 0 {
        waitMS := nextTick;
      }
      for i := 0 to |ready|
        invariant UsersOk() && fresh(Repr - old(Repr)) && Extends(old(users), users)
        invariant tasks == old(tasks) + Queued(ready[..i], listenFd, old(users))
      {
        QueuedStep(ready, i, listenFd, old(users));
        ghost var before := users;
        TaskForExtends(ready[i], listenFd, old(users), before);
        ghost var accepted, refused := DealEvent(ready[i]);
        ExtendsTrans(old(users), before, users);
        AppendAssoc(old(tasks), Queued(ready[..i], listenFd, old(users)), TaskFor(ready[i], listenFd, old(users)));
      }
      assert ready[..|ready|] == ready;
    }

    /// The body of start's event loop for one ready event
    /// (webServer.cpp:86-101), routed by Dispatch. The listening socket
    /// runs the accept loop (`accepted` and `refused` as DealListen gives
    /// them); a hang-up or error closes the user; a read or write event only
    /// queues its task; an unexpected event does nothing.
    method DealEvent(e: Event) returns (ghost accepted: seq<int>, ghost refused: bool)
      requires UsersOk() && (NeedsUser(Dispatch(e.fd, listenFd, e.events)) ==> e.fd in users)
      modifies this`users, this`tasks, this`Repr, statics`userCount, timer, os, Repr
      ensures UsersOk() && fresh(Repr - old(Repr)) && Extends(old(users), users)
      ensures tasks == old(tasks) + TaskFor(e, listenFd, old(users))
      ensures Dispatch(e.fd, listenFd, e.events) == AcceptAll ==>
                |accepted| <= |old(os.backlog)| && accepted == old(os.backlog)[..|accepted|] && os.backlog == old(os.backlog)[|accepted|..] &&
                (listenEvent & EPOLLET == 0 ==> |accepted| <= 1) &&
                (listenEvent & EPOLLET != 0 ==>
                   os.backlog == [] || refused || (|accepted| > 0 && accepted[|accepted| - 1] <= 0)) &&
                (refused ==> |accepted| > 0 && accepted[|accepted| - 1] in os.closed &&
                             ErrorSent(old(os.outbox), os.outbox, accepted[|accepted| - 1], "Server busy")) &&
                (!refused ==> os.outbox == old(os.outbox))
      ensures Dispatch(e.fd, listenFd, e.events) == Hangup ==>
                users == old(users) && users[e.fd].isClose &&
                (old(users[e.fd].fd) >= 0 ==> os.interest == old(os.interest) - {old(users[e.fd].fd)}) &&
                (!old(users[e.fd].isClose) ==> statics.userCount == old(statics.userCount) - 1)
      ensures Dispatch(e.fd, listenFd, e.events) in {ReadTask, WriteTask, Unexpected} ==>
                users == old(users) && statics.userCount == old(statics.userCount) && unchanged(os)
    {
      accepted, refused := [], false;
      var fd, events := e.fd, e.events;
      if fd == listenFd {
        accepted, refused := DealListen();
      } else if events & HANGUP != 0 {
        CloseConn(users[fd]);
      } else if events & EPOLLIN != 0 {
        DealRead(users[fd]);
      } else if events & EPOLLOUT != 0 {
        DealWrite(users[fd]);
      }
    }
  }

  /// `b` keeps every entry of `a`: new connections may be added, none is
  /// dropped or replaced (users are never erased from the map).
  ghost predicate Extends(a: map<int, HttpConn>, b: map<int, HttpConn>)
  {
    forall k | k in a :: k in b && b[k] == a[k]
  }

  /// Queued grows by one event's task at a time.
  lemma QueuedStep(ready: seq<Event>, i: nat, listenFd: int, users: map<int, HttpConn>)
    requires i < |ready|
    requires forall j | 0 <= j < |ready| ::
               NeedsUser(Dispatch(ready[j].fd, listenFd, ready[j].events)) ==> ready[j].fd in users
    ensures Queued(ready[..i + 1], listenFd, users) ==
              Queued(ready[..i], listenFd, users) + TaskFor(ready[i], listenFd, users)
  {
    assert ready[..i + 1][..i] == ready[..i];
  }

  /// An event's task does not change when users only gain entries.
  lemma TaskForExtends(e: Event, listenFd: int, a: map<int, HttpConn>, b: map<int, HttpConn>)
    requires Extends(a, b)
    requires NeedsUser(Dispatch(e.fd, listenFd, e.events)) ==> e.fd in a
    ensures TaskFor(e, listenFd, b) == TaskFor(e, listenFd, a)
  {
  }

  /// Taking one more element off the front of s[n..].
  lemma TakeStep<T>(s: seq<T>, n: nat)
    requires n < |s|
    ensures s[..n] + [s[n]] == s[..n + 1] && s[n..][0] == s[n] && s[n..][1..] == s[n + 1..]
  {
  }

  lemma AppendAssoc<T>(a: seq<T>, b: seq<T>, c: seq<T>)
    ensures (a + b) + c == a + (b + c)
  {
  }

  lemma ExtendsTrans(a: map<int, HttpConn>, b: map<int, HttpConn>, c: map<int, HttpConn>)
    requires Extends(a, b) && Extends(b, c)
    ensures Extends(a, c)
  {
  }

  /// For every amount read from `pending`, the parser's requirement holds
  /// (see ParseSpec: Some unless a form body ends in a cut-off escape).
  ghost predicate ParsableAfterRead(have: seq<char>, pending: seq<char>, verify: Verifier)
  {
    forall k | 0 <= k <= |pending| :: ParseSpec(InitRequest(), have + pending[..k], verify).Some?
  }

  lemma ParsableAt(have: seq<char>, pending: seq<char>, k: nat, verify: Verifier)
    requires ParsableAfterRead(have, pending, verify) && k <= |pending|
    ensures ParseSpec(InitRequest(), have + pending[..k], verify).Some?
  {
  }
}
