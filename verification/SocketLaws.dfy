/** What the socket calls keep over every run. */
module SocketLaws {
  import opened Basics
  import opened Ring
  import opened Sockets

  /** Socket `i` is in use and has a peer. */
  predicate Peered(ss: Table, i: nat)
    requires i < |ss|
  {
    ss[i].inUse && ss[i].peer >= 0
  }

  /** The peers form a symmetric matching of the open stream sockets, nobody being its own peer. */
  ghost predicate Matching(ss: Table) {
    forall i {:trigger Peered(ss, i)} :: 0 <= i < |ss| && Peered(ss, i) ==>
      var p := ss[i].peer; p < |ss| && p != i && ss[p].inUse && ss[p].peer == i && ss[i].kind == SOCK_STREAM
  }

  /** A successful connect of a matched table leaves it matched exactly when the client had no peer. */
  lemma ConnectMatches(ss: Table, fd: int, addr: Option<Addr>)
    requires Shaped(ss) && Matching(ss) && Connect(ss, fd, addr).1 == 0
    ensures Get(ss, fd).Some?
    ensures Matching(Connect(ss, fd, addr).0) <==> !Peered(ss, Get(ss, fd).value)
  {
    var c, k := Get(ss, fd).value, FindFree(ss);
    var t := Connect(ss, fd, addr).0;
    if Peered(ss, c) {
      var p := ss[c].peer;
      assert t[p].inUse && t[p].peer == c && Peered(t, p) && t[c].peer == k;
      assert !Matching(t);
    } else {
      forall i | 0 <= i < |t| && Peered(t, i)
        ensures var p := t[i].peer; p < |t| && p != i && t[p].inUse && t[p].peer == i && t[i].kind == SOCK_STREAM
      {
        if i != c && i != k {
          assert Peered(ss, i);
          assert ss[i].peer != c && ss[i].peer != k;
        }
      }
    }
  }

  /** A listening stream socket, descriptor 1, and another stream socket, descriptor 2. */
  function ListenerAndClient(owner: int): Table {
    var cleared := seq(MAX_SOCKETS, _ => Cleared());
    var one := Open(cleared, AF_INET, SOCK_STREAM, owner).0;
    Listen(Open(one, AF_INET, SOCK_STREAM, owner).0, 1).0
  }

  lemma ListenerAndClientIs(owner: int, ss: Table)
    requires ss == ListenerAndClient(owner)
    ensures Shaped(ss) && ss[0].inUse && ss[1].inUse && ss[0].state == Listening && ss[0].local == Addr(LOOPBACK, 0)
    ensures ss[0].kind == ss[1].kind == SOCK_STREAM && ss[0].peer == ss[1].peer == -1
    ensures forall i :: 2 <= i < MAX_SOCKETS ==> ss[i] == Cleared()
  {
    var cleared := seq(MAX_SOCKETS, _ => Cleared());
    assert FindFree(cleared) == 0;
    var one := Open(cleared, AF_INET, SOCK_STREAM, owner).0;
    assert one[0].inUse && FindFree(one) == 1;
  }

  /** From the cleared table: a socket that connects to the listener twice. Both calls succeed, the first
      leaves a matching and the second does not. */
  lemma ConnectTwice(owner: int)
    ensures var ss, to := ListenerAndClient(owner), Some(Addr(LOOPBACK, 0));
            && Shaped(ss) && Matching(ss)
            && var (t, first) := Connect(ss, 2, to);
               && first == 0 && Shaped(t) && Matching(t)
               && var (u, second) := Connect(t, 2, to); second == 0 && !Matching(u)
  {
    var ss, to := ListenerAndClient(owner), Some(Addr(LOOPBACK, 0));
    ListenerAndClientIs(owner, ss);
    var t := ConnectFirst(ss, to);
    ConnectMatches(ss, 2, to);
    assert t[0].inUse && t[1].inUse && t[2].inUse && !t[3].inUse;
    assert FindFree(t, 3) == 3 && FindFree(t, 2) == 3 && FindFree(t, 1) == 3 && FindListener(t, 0) == 0;
    ConnectMatches(t, 2, to);
  }

  lemma ConnectFirst(ss: Table, to: Option<Addr>) returns (t: Table)
    requires Shaped(ss) && to == Some(Addr(LOOPBACK, 0)) && ss[0].inUse
    requires ss[1].inUse && ss[0].state == Listening && ss[0].local == to.value
    requires ss[1].kind == SOCK_STREAM && forall i :: 2 <= i < MAX_SOCKETS ==> ss[i] == Cleared()
    ensures Connect(ss, 2, to) == (t, 0) && Shaped(t) && t[0].inUse && t[0].state == Listening && t[0].local == to.value
    ensures t[1].inUse && t[1].kind == SOCK_STREAM && t[1].peer == 2 && t[2].inUse && !t[3].inUse
  {
    assert FindListener(ss, 0) == 0;
    assert FindFree(ss, 2) == 2 && FindFree(ss, 1) == 2;
    t := Connect(ss, 2, to).0;
  }

  lemma CloseMatches(ss: Table, fd: int)
    requires Matching(ss)
    ensures Matching(Close(ss, fd).0)
  {
    var t := Close(ss, fd).0;
    forall i | 0 <= i < |t| && Peered(t, i)
      ensures var p := t[i].peer; p < |t| && p != i && t[p].inUse && t[p].peer == i && t[i].kind == SOCK_STREAM
    {
      assert Peered(ss, i) && Peered(ss, ss[i].peer);
      var c := Get(ss, fd);
      assert c.Some? && ss[c.value].peer >= 0 ==> Peered(ss, c.value);
    }
  }

  // ---------------------------------------------------------------------------------------
  // Runs
  // ---------------------------------------------------------------------------------------

  /** What was sent to a socket since it was opened and not refused, with the slot it came from,
      and how many of these have been received; and the descriptors that connects to it have made,
      and how many of these have been accepted. */
  datatype Sent = Sent(from: nat, msg: Msg)
  datatype Log = Log(sent: seq<Sent>, got: nat, made: seq<int>, taken: nat)

  const NEW_LOG := Log([], 0, [], 0)

  datatype World = World(ss: Table, logs: seq<Log>)

  datatype Op =
    | OpenOp(domain: int, kind: int, owner: int)
    | BindOp(fd: int, addr: Option<Addr>)
    | ListenOp(fd: int)
    | AcceptOp(fd: int)
    | ConnectOp(fd: int, addr: Option<Addr>)
    | SendOp(fd: int, buf: seq<bv8>, addr: Option<Addr>)
    | RecvOp(fd: int, len: nat)
    | CloseOp(fd: int)

  function Apply(ss: Table, op: Op): Table
    requires Shaped(ss)
  {
    match op
    case OpenOp(domain, kind, owner) => Open(ss, domain, kind, owner).0
    case BindOp(fd, addr) => Bind(ss, fd, addr).0
    case ListenOp(fd) => Listen(ss, fd).0
    case AcceptOp(fd) => Accept(ss, fd).0
    case ConnectOp(fd, addr) => Connect(ss, fd, addr).0
    case SendOp(fd, buf, addr) => SendTo(ss, fd, buf, addr).0
    case RecvOp(fd, len) => RecvFrom(ss, fd, len).0
    case CloseOp(fd) => Close(ss, fd).0
  }

  /** The unbounded log of a send: refused exactly while fifteen messages are waiting. */
  function Offer(log: Log, e: Sent): Log {
    if |log.sent| - log.got < CELLS - 1 then log.(sent := log.sent + [e]) else log
  }

  /** The unbounded log of a connect: not queued exactly while fifteen are waiting to be accepted. */
  function Knock(log: Log, fd: int): Log {
    if |log.made| - log.taken < CELLS - 1 then log.(made := log.made + [fd]) else log
  }

  /** The logs, kept without looking at any ring. */
  function Record(w: World, op: Op): seq<Log>
    requires Shaped(w.ss) && |w.logs| == |w.ss|
  {
    match op
    case OpenOp(domain, kind, owner) =>
      var fd := Open(w.ss, domain, kind, owner).1;
      if 1 <= fd <= |w.ss| then w.logs[fd - 1 := NEW_LOG] else w.logs
    case ConnectOp(fd, addr) =>
      if Connect(w.ss, fd, addr).1 != 0 then w.logs else
      var k, l := FindFree(w.ss), FindListener(w.ss, addr.value.port);
      w.logs[k := NEW_LOG][l := Knock(w.logs[l], k + 1)]
    case AcceptOp(fd) =>
      var i := Get(w.ss, fd);
      if i.None? || w.ss[i.value].state != Listening || w.logs[i.value].taken >= |w.logs[i.value].made| then w.logs
      else w.logs[i.value := w.logs[i.value].(taken := w.logs[i.value].taken + 1)]
    case SendOp(fd, buf, addr) =>
      var k := Target(w.ss, fd, addr);
      if k.None? then w.logs else
      var i := Get(w.ss, fd).value;
      w.logs[k.value := Offer(w.logs[k.value], Sent(i, Msg(Capped(buf), w.ss[i].local)))]
    case RecvOp(fd, len) =>
      var i := Get(w.ss, fd);
      if i.None? || w.logs[i.value].got >= |w.logs[i.value].sent| then w.logs
      else w.logs[i.value := w.logs[i.value].(got := w.logs[i.value].got + 1)]
    case CloseOp(fd) =>
      var i := Get(w.ss, fd);
      if i.None? then w.logs else w.logs[i.value := NEW_LOG]
    case _ => w.logs
  }

  function Step(w: World, op: Op): World
    requires Shaped(w.ss) && |w.logs| == |w.ss|
  {
    World(Apply(w.ss, op), Record(w, op))
  }

  /** The ring of messages holds what the log says is sent and not received. */
  ghost predicate QueueFaithful(s: Socket, log: Log)
    requires Valid(s.queue)
  {
    && log.got <= |log.sent| && |Contents(s.queue)| == |log.sent| - log.got
    && forall j :: 0 <= j < |Contents(s.queue)| ==> Contents(s.queue)[j] == log.sent[log.got + j].msg
  }

  /** The ring of connections holds what the log says is made and not accepted. */
  ghost predicate PendingFaithful(s: Socket, log: Log)
    requires Valid(s.pending)
  {
    && log.taken <= |log.made| && Contents(s.pending) == log.made[log.taken..]
    && forall j :: 0 <= j < |log.made| ==> log.made[j] > 0
  }

  ghost predicate Faithful(s: Socket, log: Log)
    requires Valid(s.queue) && Valid(s.pending)
  {
    QueueFaithful(s, log) && PendingFaithful(s, log)
  }

  ghost predicate Good(w: World) {
    && Shaped(w.ss) && Matching(w.ss) && |w.logs| == |w.ss|
    && forall i {:trigger w.logs[i]} :: 0 <= i < |w.ss| ==> Faithful(w.ss[i], w.logs[i])
  }

  /** Connect is called only on sockets without a peer. */
  predicate Allowed(w: World, op: Op)
    requires Shaped(w.ss)
  {
    op.ConnectOp? && Get(w.ss, op.fd).Some? ==> !Peered(w.ss, Get(w.ss, op.fd).value)
  }

  /** Only the peers, the use and the kind of sockets matter to the matching. */
  lemma SamePeers(ss: Table, t: Table)
    requires Matching(ss) && |t| == |ss|
    requires forall i :: 0 <= i < |ss| ==> t[i].inUse == ss[i].inUse && t[i].peer == ss[i].peer && t[i].kind == ss[i].kind
    ensures Matching(t)
  {
    forall i | 0 <= i < |t| && Peered(t, i)
      ensures var p := t[i].peer; p < |t| && p != i && t[p].inUse && t[p].peer == i && t[i].kind == SOCK_STREAM
    {
      assert Peered(ss, i);
    }
  }

  lemma OpenMatches(ss: Table, domain: int, kind: int, owner: int)
    requires Matching(ss)
    ensures Matching(Open(ss, domain, kind, owner).0)
  {
    var t := Open(ss, domain, kind, owner).0;
    forall i | 0 <= i < |t| && Peered(t, i)
      ensures var p := t[i].peer; p < |t| && p != i && t[p].inUse && t[p].peer == i && t[i].kind == SOCK_STREAM
    {
      assert Peered(ss, i);
    }
  }

  lemma StepMatches(ss: Table, op: Op)
    requires Shaped(ss) && Matching(ss)
    requires op.ConnectOp? && Get(ss, op.fd).Some? ==> !Peered(ss, Get(ss, op.fd).value)
    ensures Matching(Apply(ss, op))
  {
    match op {
      case OpenOp(domain, kind, owner) => OpenMatches(ss, domain, kind, owner);
      case ConnectOp(fd, addr) => if Connect(ss, fd, addr).1 == 0 { ConnectMatches(ss, fd, addr); }
      case CloseOp(fd) => CloseMatches(ss, fd);
      case _ => SamePeers(ss, Apply(ss, op));
    }
  }

  lemma OfferFaithful(s: Socket, log: Log, e: Sent)
    requires Valid(s.queue) && Valid(s.pending) && Faithful(s, log)
    ensures Valid(Enqueue(s.queue, e.msg)) && Faithful(s.(queue := Enqueue(s.queue, e.msg)), Offer(log, e))
  {
    EnqueueLaw(s.queue, e.msg);
  }

  lemma ReceiveFaithful(s: Socket, log: Log)
    requires Valid(s.queue) && Valid(s.pending) && Faithful(s, log)
    ensures s.queue.tail == s.queue.head <==> log.got == |log.sent|
    ensures s.queue.tail != s.queue.head ==>
              && s.queue.cells[s.queue.tail] == log.sent[log.got].msg
              && Valid(Dequeue(s.queue)) && Faithful(s.(queue := Dequeue(s.queue)), log.(got := log.got + 1))
  {
    DequeueLaw(s.queue);
    if s.queue.tail != s.queue.head {
      var q, d := Contents(s.queue), Contents(Dequeue(s.queue));
      assert q[0] == log.sent[log.got].msg;
      forall j | 0 <= j < |d| ensures d[j] == log.sent[log.got + 1 + j].msg { assert q[j + 1] == d[j]; }
    }
  }

  ghost predicate StepFaithful(w: World, op: Op)
    requires Good(w)
  {
    && Shaped(Apply(w.ss, op)) && |Record(w, op)| == |Apply(w.ss, op)|
    && forall i {:trigger Record(w, op)[i]} :: 0 <= i < |w.ss| ==> Faithful(Apply(w.ss, op)[i], Record(w, op)[i])
  }

  lemma SendFaithful(w: World, fd: int, buf: seq<bv8>, addr: Option<Addr>)
    requires Good(w)
    ensures StepFaithful(w, SendOp(fd, buf, addr))
  {
    var k := Target(w.ss, fd, addr);
    if k.Some? {
      var i := Get(w.ss, fd).value;
      OfferFaithful(w.ss[k.value], w.logs[k.value], Sent(i, Msg(Capped(buf), w.ss[i].local)));
    }
  }

  lemma RecvFaithful(w: World, fd: int, len: nat)
    requires Good(w)
    ensures StepFaithful(w, RecvOp(fd, len))
  {
    var i := Get(w.ss, fd);
    if i.Some? { ReceiveFaithful(w.ss[i.value], w.logs[i.value]); }
  }

  lemma KnockFaithful(s: Socket, log: Log, fd: int)
    requires Valid(s.queue) && Valid(s.pending) && Faithful(s, log) && fd > 0
    ensures Valid(Enqueue(s.pending, fd)) && Faithful(s.(pending := Enqueue(s.pending, fd)), Knock(log, fd))
  {
    EnqueueLaw(s.pending, fd);
    assert (log.made + [fd])[log.taken..] == log.made[log.taken..] + [fd];
  }

  lemma TakeFaithful(s: Socket, log: Log)
    requires Valid(s.queue) && Valid(s.pending) && Faithful(s, log)
    ensures s.pending.tail == s.pending.head <==> log.taken == |log.made|
    ensures s.pending.tail != s.pending.head ==>
              && s.pending.cells[s.pending.tail] == log.made[log.taken] > 0
              && Valid(Dequeue(s.pending)) && Faithful(s.(pending := Dequeue(s.pending)), log.(taken := log.taken + 1))
  {
    DequeueLaw(s.pending);
    if s.pending.tail != s.pending.head { assert log.made[log.taken..][1..] == log.made[log.taken + 1..]; }
  }

  lemma AcceptFaithful(w: World, fd: int)
    requires Good(w)
    ensures StepFaithful(w, AcceptOp(fd))
  {
    var i := Get(w.ss, fd);
    if i.Some? { TakeFaithful(w.ss[i.value], w.logs[i.value]); }
  }

  lemma ConnectFaithful(w: World, fd: int, addr: Option<Addr>)
    requires Good(w)
    ensures StepFaithful(w, ConnectOp(fd, addr))
  {
    if Connect(w.ss, fd, addr).1 == 0 {
      var l, k := FindListener(w.ss, addr.value.port), FindFree(w.ss);
      var t := Connect(w.ss, fd, addr).0;
      ConnectRings(w, fd, addr, t, l, k);
      RingsFaithful(w, t, l, k);
    }
  }

  /** The rings of a table: a new socket in slot `k`, and its descriptor waiting at socket `l`. */
  predicate RingsAfter(ss: Table, t: Table, l: nat, k: nat)
    requires Shaped(ss)
  {
    && |t| == |ss| && l < |t| && k < |t| && l != k
    && (forall i :: 0 <= i < |t| ==> t[i].queue == if i == k then EmptyQueue() else ss[i].queue)
    && (forall i :: 0 <= i < |t| ==>
          t[i].pending == if i == k then NonePending() else if i == l then Enqueue(ss[l].pending, k + 1) else ss[i].pending)
  }

  lemma RingsFaithful(w: World, t: Table, l: nat, k: nat)
    requires Good(w) && RingsAfter(w.ss, t, l, k)
    ensures Shaped(t)
    ensures var logs := w.logs[k := NEW_LOG][l := Knock(w.logs[l], k + 1)];
            forall i {:trigger logs[i]} :: 0 <= i < |t| ==> Faithful(t[i], logs[i])
  {
    assert Faithful(w.ss[l], w.logs[l]);
    KnockFaithful(w.ss[l], w.logs[l], k + 1);
    EnqueueLaw(w.ss[l].pending, k + 1);
    var logs := w.logs[k := NEW_LOG][l := Knock(w.logs[l], k + 1)];
    forall i | 0 <= i < |t| ensures Valid(t[i].queue) && Valid(t[i].pending) && Faithful(t[i], logs[i]) {
      if i != k { assert Faithful(w.ss[i], w.logs[i]); }
    }
  }

  /** A connect adds to the connections waiting at the listener, and empties the slot it fills. */
  lemma ConnectRings(w: World, fd: int, addr: Option<Addr>, t: Table, l: nat, k: nat)
    requires Good(w) && (t, 0) == Connect(w.ss, fd, addr) && l == FindListener(w.ss, addr.value.port) && k == FindFree(w.ss)
    ensures RingsAfter(w.ss, t, l, k)
  {
  }

  lemma StepShaped(w: World, op: Op)
    requires Good(w)
    ensures StepFaithful(w, op)
  {
    match op {
      case SendOp(fd, buf, addr) => SendFaithful(w, fd, buf, addr);
      case RecvOp(fd, len) => RecvFaithful(w, fd, len);
      case ConnectOp(fd, addr) => ConnectFaithful(w, fd, addr);
      case AcceptOp(fd) => AcceptFaithful(w, fd);
      case _ =>
    }
  }

  function Run(w: World, ops: seq<Op>): World
    requires Good(w) && RunAllowed(w, ops)
    decreases |ops|
  {
    if ops == [] then w else StepGood(w, ops[0]); Run(Step(w, ops[0]), ops[1..])
  }

  ghost predicate RunAllowed(w: World, ops: seq<Op>)
    requires Good(w)
    decreases |ops|
  {
    ops == [] || (Allowed(w, ops[0]) && (StepGood(w, ops[0]); RunAllowed(Step(w, ops[0]), ops[1..])))
  }

  /** Every call keeps the matching, and every ring what its log says. */
  lemma StepGood(w: World, op: Op)
    requires Good(w) && Allowed(w, op)
    ensures Good(Step(w, op))
  {
    StepMatches(w.ss, op);
    StepShaped(w, op);
  }

  lemma {:induction false} EveryRun(w: World, ops: seq<Op>)
    requires Good(w) && RunAllowed(w, ops)
    ensures Good(Run(w, ops))
    decreases |ops|
  {
    if ops != [] {
      StepGood(w, ops[0]);
      EveryRun(Step(w, ops[0]), ops[1..]);
    }
  }

  /** `net_init` */
  lemma StartGood()
    ensures Good(World(seq(MAX_SOCKETS, _ => Cleared()), seq(MAX_SOCKETS, _ => NEW_LOG)))
  {
  }

  /** A message sent on a stream socket goes to its peer and to nobody else: capped, behind those
      already there, and refused only if fifteen are waiting. */
  lemma StreamSend(w: World, fd: int, buf: seq<bv8>, addr: Option<Addr>)
    requires Good(w) && Get(w.ss, fd).Some? && w.ss[Get(w.ss, fd).value].kind == SOCK_STREAM
    ensures var i := Get(w.ss, fd).value;
            var (t, n) := SendTo(w.ss, fd, buf, addr);
            if w.ss[i].state == Connected && w.ss[i].peer >= 0 then
              var p := w.ss[i].peer;
              && p < |w.ss| && w.ss[p].peer == i && n == |Capped(buf)|
              && Record(w, SendOp(fd, buf, addr)) == w.logs[p := Offer(w.logs[p], Sent(i, Msg(Capped(buf), w.ss[i].local)))]
              && (forall j :: 0 <= j < |t| && j != p ==> t[j] == w.ss[j])
            else t == w.ss && n == -1
  {
    var i := Get(w.ss, fd).value;
    assert w.ss[i].peer >= 0 ==> Peered(w.ss, i);
  }

  /** What is received is the oldest message that was sent and not yet received, cut to the buffer. */
  lemma ReceiveOldest(w: World, fd: int, len: nat)
    requires Good(w) && Get(w.ss, fd).Some?
    ensures var log := w.logs[Get(w.ss, fd).value];
            var (t, r, from) := RecvFrom(w.ss, fd, len);
            if log.got == |log.sent| then r == Some([]) && from == None && t == w.ss else
            var m := log.sent[log.got].msg;
            r == Some(if len > |m.data| then m.data else m.data[..len]) && from == Some(m.src)
  {
    ReceiveFaithful(w.ss[Get(w.ss, fd).value], w.logs[Get(w.ss, fd).value]);
  }

  /** What is accepted is the oldest connection made and not yet accepted; the answer is -1 exactly if there
      is none or the socket does not listen. The address is that of the other side, if the socket that the
      connection made is still open. */
  lemma AcceptOldest(w: World, fd: int)
    requires Good(w)
    ensures var i, (t, r, from) := Get(w.ss, fd), Accept(w.ss, fd);
            if i.None? || w.ss[i.value].state != Listening || w.logs[i.value].taken == |w.logs[i.value].made|
            then r == -1 && from == None && t == w.ss
            else && r == w.logs[i.value].made[w.logs[i.value].taken] && r > 0
                 && from == (if r <= |w.ss| && w.ss[r - 1].inUse then Some(w.ss[r - 1].remote) else None)
                 && forall j :: 0 <= j < |w.ss| && j != i.value ==> t[j] == w.ss[j]
  {
    var i := Get(w.ss, fd);
    if i.Some? { TakeFaithful(w.ss[i.value], w.logs[i.value]); }
  }

  /** Socket `l` is the first that listens on the port. */
  predicate FirstListener(ss: Table, port: nat, l: nat) {
    && l < |ss| && ss[l].inUse && ss[l].state == Listening && ss[l].local.port == port
    && forall j :: 0 <= j < l ==> !(ss[j].inUse && ss[j].state == Listening && ss[j].local.port == port)
  }

  /** A connect that succeeds makes a socket that becomes the client's peer, and is logged under its descriptor
      with the first socket that listens on the port - unless fifteen are waiting there. */
  lemma ConnectLogs(w: World, fd: int, addr: Option<Addr>) returns (l: nat, d: int)
    requires Good(w) && Connect(w.ss, fd, addr).1 == 0
    ensures Get(w.ss, fd).Some? && addr.Some? && FirstListener(w.ss, addr.value.port, l) && 1 <= d <= |w.ss| && !w.ss[d - 1].inUse
    ensures var c, t := Get(w.ss, fd).value, Connect(w.ss, fd, addr).0;
            && t[c].peer == d - 1 && t[d - 1].peer == c && t[d - 1].inUse && t[c].state == t[d - 1].state == Connected
            && t[d - 1].owner == w.ss[l].owner && t[d - 1].local == w.ss[l].local && t[d - 1].remote == w.ss[c].local
            && t[c].remote == addr.value
    ensures var logs := Record(w, ConnectOp(fd, addr)); logs[l] == Knock(w.logs[l], d) && logs[d - 1] == NEW_LOG
  {
    l, d := FindListener(w.ss, addr.value.port), FindFree(w.ss) + 1;
    forall j | 0 <= j < l ensures !(w.ss[j].inUse && w.ss[j].state == Listening && w.ss[j].local.port == addr.value.port) {
      assert !Listens(w.ss[j], addr.value.port);
    }
  }
}
