/** The loopback sockets of src/net.c, on values: each call as a function of the socket table. */
module Sockets {
  import opened Basics
  import opened Ring

  const MAX_SOCKETS: nat := 32
  const MAX_PAYLOAD: nat := 1500
  const AF_INET: int := 2
  const SOCK_STREAM: int := 1
  const SOCK_DGRAM: int := 2
  const LOOPBACK: nat := 0x7F00_0001

  datatype State = Free | Bound | Listening | Connected

  datatype Addr = Addr(addr: nat, port: nat)

  datatype Msg = Msg(data: seq<bv8>, src: Addr)

  datatype Socket = Socket(inUse: bool, kind: int, state: State, local: Addr, remote: Addr, peer: int, owner: int,
                           queue: Ring<Msg>, pending: Ring<int>)

  type Table = seq<Socket>

  function EmptyQueue(): (r: Ring<Msg>)
    ensures Valid(r) && Contents(r) == []
  {
    Ring(seq(CELLS, _ => Msg([], Addr(0, 0))), 0, 0)
  }

  function NonePending(): (r: Ring<int>)
    ensures Valid(r) && Contents(r) == []
  {
    Ring(seq(CELLS, _ => 0), 0, 0)
  }

  /** A slot cleared by `memset`: not in use, and its peer number is 0, not -1. */
  function Cleared(): Socket {
    Socket(false, 0, Free, Addr(0, 0), Addr(0, 0), 0, 0, EmptyQueue(), NonePending())
  }

  predicate Shaped(ss: Table) {
    |ss| == MAX_SOCKETS && forall i :: 0 <= i < |ss| ==> Valid(ss[i].queue) && Valid(ss[i].pending)
  }

  /** `get_socket`: the slot of an open descriptor. */
  function Get(ss: Table, fd: int): (i: Option<nat>)
    ensures i.Some? ==> i.value < |ss| && ss[i.value].inUse && fd == i.value + 1
  {
    if 1 <= fd <= |ss| && ss[fd - 1].inUse then Some(fd - 1) else None
  }

  function FindFree(ss: Table, from: nat := 0): (k: nat)
    requires from <= |ss|
    ensures from <= k <= |ss| && (k < |ss| ==> !ss[k].inUse) && forall j :: from <= j < k ==> ss[j].inUse
    decreases |ss| - from
  {
    if from == |ss| || !ss[from].inUse then from else FindFree(ss, from + 1)
  }

  predicate Listens(s: Socket, port: nat) { s.inUse && s.state == Listening && s.local.port == port }

  function FindListener(ss: Table, port: nat, from: nat := 0): (k: nat)
    requires from <= |ss|
    ensures from <= k <= |ss| && (k < |ss| ==> Listens(ss[k], port)) && forall j :: from <= j < k ==> !Listens(ss[j], port)
    decreases |ss| - from
  {
    if from == |ss| || Listens(ss[from], port) then from else FindListener(ss, port, from + 1)
  }

  predicate Receives(s: Socket, port: nat) { s.inUse && s.kind == SOCK_DGRAM && s.local.port == port }

  function FindReceiver(ss: Table, port: nat, from: nat := 0): (k: nat)
    requires from <= |ss|
    ensures from <= k <= |ss| && (k < |ss| ==> Receives(ss[k], port)) && forall j :: from <= j < k ==> !Receives(ss[j], port)
    decreases |ss| - from
  {
    if from == |ss| || Receives(ss[from], port) then from else FindReceiver(ss, port, from + 1)
  }

  /** `alloc_socket` */
  function Opened(): Socket {
    Cleared().(inUse := true, peer := -1)
  }

  /** `net_socket` */
  function Open(ss: Table, domain: int, kind: int, owner: int): (Table, int) {
    var k := FindFree(ss);
    if domain != AF_INET || (kind != SOCK_STREAM && kind != SOCK_DGRAM) || k == |ss| then (ss, -1)
    else (ss[k := Opened().(kind := kind, state := Bound, local := Addr(LOOPBACK, 0), owner := owner)], k + 1)
  }

  /** `net_bind` */
  function Bind(ss: Table, fd: int, addr: Option<Addr>): (Table, int) {
    var i := Get(ss, fd);
    if i.None? || addr.None? then (ss, -1) else (ss[i.value := ss[i.value].(local := addr.value, state := Bound)], 0)
  }

  /** `net_listen` */
  function Listen(ss: Table, fd: int): (Table, int) {
    var i := Get(ss, fd);
    if i.None? || ss[i.value].kind != SOCK_STREAM then (ss, -1) else (ss[i.value := ss[i.value].(state := Listening)], 0)
  }

  /** `net_accept`: the descriptor, and the address of the other side if the socket is still open. */
  function Accept(ss: Table, fd: int): (Table, int, Option<Addr>)
    requires Shaped(ss)
  {
    var i := Get(ss, fd);
    if i.None? || ss[i.value].state != Listening then (ss, -1, None) else
    var p := ss[i.value].pending;
    if p.tail == p.head then (ss, -1, None) else
    var child := p.cells[p.tail];
    var t := ss[i.value := ss[i.value].(pending := Dequeue(p))];
    if child < 0 then (t, -1, None) else
    (t, child, if Get(t, child).Some? then Some(t[Get(t, child).value].remote) else None)
  }

  /** `net_connect` */
  function Connect(ss: Table, fd: int, addr: Option<Addr>): (Table, int)
    requires Shaped(ss)
  {
    var i := Get(ss, fd);
    if i.None? || ss[i.value].kind != SOCK_STREAM || addr.None? then (ss, -1) else
    var l := FindListener(ss, addr.value.port);
    if l == |ss| then (ss, -1) else
    var k := FindFree(ss);
    if k == |ss| then (ss, -1) else
    var server := Opened().(kind := SOCK_STREAM, state := Connected, local := ss[l].local, remote := ss[i.value].local,
                            peer := i.value, owner := ss[l].owner);
    var ss1 := ss[k := server][i.value := ss[i.value].(remote := addr.value, state := Connected, peer := k)];
    (ss1[l := ss1[l].(pending := Enqueue(ss1[l].pending, k + 1))], 0)
  }

  /** The slot `net_sendto` puts the message into, if any. */
  function Target(ss: Table, fd: int, addr: Option<Addr>): (k: Option<nat>)
    ensures k.Some? ==> k.value < |ss| && ss[k.value].inUse
  {
    var i := Get(ss, fd);
    if i.None? then None else
    var s := ss[i.value];
    if s.kind == SOCK_DGRAM then
      if addr.None? then None else
      var r := FindReceiver(ss, addr.value.port);
      if r < |ss| then Some(r) else None
    else if s.kind == SOCK_STREAM && s.state == Connected && 0 <= s.peer < |ss| && ss[s.peer].inUse then Some(s.peer)
    else None
  }

  function Capped(buf: seq<bv8>): (b: seq<bv8>)
    ensures |b| <= MAX_PAYLOAD && b <= buf && (|b| < MAX_PAYLOAD ==> b == buf)
  {
    if |buf| > MAX_PAYLOAD then buf[..MAX_PAYLOAD] else buf
  }

  /** `net_sendto`; a datagram nobody receives counts as sent. */
  function SendTo(ss: Table, fd: int, buf: seq<bv8>, addr: Option<Addr>): (Table, int)
    requires Shaped(ss)
  {
    var i, k := Get(ss, fd), Target(ss, fd, addr);
    if i.None? then (ss, -1)
    else if k.Some? then
      (ss[k.value := ss[k.value].(queue := Enqueue(ss[k.value].queue, Msg(Capped(buf), ss[i.value].local)))], |Capped(buf)|)
    else (ss, if ss[i.value].kind == SOCK_DGRAM && addr.Some? then |Capped(buf)| else -1)
  }

  /** `net_recvfrom` into a buffer of `len` bytes: the bytes copied, or None for an error, and where they
      came from if there were any. */
  function RecvFrom(ss: Table, fd: int, len: nat): (Table, Option<seq<bv8>>, Option<Addr>)
    requires Shaped(ss)
  {
    var i := Get(ss, fd);
    if i.None? then (ss, None, None) else
    var q := ss[i.value].queue;
    if q.tail == q.head then (ss, Some([]), None) else
    var m := q.cells[q.tail];
    (ss[i.value := ss[i.value].(queue := Dequeue(q))], Some(if len > |m.data| then m.data else m.data[..len]), Some(m.src))
  }

  /** `net_close` */
  function Close(ss: Table, fd: int): (Table, int) {
    var i := Get(ss, fd);
    if i.None? then (ss, -1) else
    var p := ss[i.value].peer;
    var ss1 := if 0 <= p < |ss| then ss[p := ss[p].(peer := -1)] else ss;
    (ss1[i.value := Cleared()], 0)
  }
}
