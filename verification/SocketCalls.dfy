/** When each socket call succeeds, and what it leaves in the table. */
module SocketCalls {
  import opened Basics
  import opened Ring
  import opened Sockets
  import opened SocketLaws

  /** The table is the same but for slot `k`. */
  predicate OnlySocket(ss: Table, t: Table, k: nat) {
    |t| == |ss| && forall j :: 0 <= j < |ss| && j != k ==> t[j] == ss[j]
  }

  /** Slot `k` is the lowest that is not in use. */
  predicate FirstFree(ss: Table, k: nat) {
    k < |ss| && !ss[k].inUse && forall j :: 0 <= j < k ==> ss[j].inUse
  }

  predicate AllUsed(ss: Table) {
    forall j :: 0 <= j < |ss| ==> ss[j].inUse
  }

  /** The descriptor is that of an open socket. */
  predicate IsOpen(ss: Table, fd: int) {
    1 <= fd <= |ss| && ss[fd - 1].inUse
  }

  /** `net_socket` is refused exactly for another family than 2, another type than 1 and 2, or a full table. A
      new socket has the lowest free slot, nothing queued, no peer, and the loopback address with port 0. */
  lemma OpenExact(ss: Table, domain: int, kind: int, owner: int)
    ensures var (t, fd) := Open(ss, domain, kind, owner);
            if domain != 2 || (kind != 1 && kind != 2) || AllUsed(ss) then t == ss && fd == -1
            else && fd >= 1 && FirstFree(ss, fd - 1) && OnlySocket(ss, t, fd - 1)
                 && var s := t[fd - 1];
                    && s.inUse && s.kind == kind && s.state == Bound && s.local == Addr(0x7F00_0001, 0) && s.peer == -1 && s.owner == owner
                    && Valid(s.queue) && Contents(s.queue) == [] && Valid(s.pending) && Contents(s.pending) == []
  {
  }

  lemma BindExact(ss: Table, fd: int, addr: Option<Addr>)
    ensures var (t, r) := Bind(ss, fd, addr);
            if IsOpen(ss, fd) && addr.Some?
            then r == 0 && OnlySocket(ss, t, fd - 1) && t[fd - 1] == ss[fd - 1].(local := addr.value, state := Bound)
            else r == -1 && t == ss
  {
  }

  /** Only stream sockets listen. */
  lemma ListenExact(ss: Table, fd: int)
    ensures var (t, r) := Listen(ss, fd);
            if IsOpen(ss, fd) && ss[fd - 1].kind == 1
            then r == 0 && OnlySocket(ss, t, fd - 1) && t[fd - 1] == ss[fd - 1].(state := Listening)
            else r == -1 && t == ss
  {
  }

  /** `net_connect` succeeds exactly on an open stream socket, given an address with a port on which somebody
      listens, while there is a free slot; otherwise nothing changes. */
  lemma ConnectExact(ss: Table, fd: int, addr: Option<Addr>)
    requires Sockets.Shaped(ss)
    ensures var (t, r) := Connect(ss, fd, addr);
            && (r == 0 <==> IsOpen(ss, fd) && ss[fd - 1].kind == 1 && addr.Some? && !AllUsed(ss)
                            && exists l: nat :: FirstListener(ss, addr.value.port, l))
            && (r != 0 ==> r == -1 && t == ss)
            && (r == 0 ==> |t| == |ss| && forall j :: 0 <= j < |ss| && ss[j].inUse && j != fd - 1 ==>
                             t[j] == ss[j].(pending := t[j].pending))
  {
    var i := Get(ss, fd);
    if i.Some? && addr.Some? {
      var l := FindListener(ss, addr.value.port);
      forall j | 0 <= j < l ensures !(ss[j].inUse && ss[j].state == Listening && ss[j].local.port == addr.value.port) {
        assert !Listens(ss[j], addr.value.port);
      }
      if l < |ss| { assert FirstListener(ss, addr.value.port, l); }
    }
  }

  /** Socket `k` is the first datagram socket with that port. */
  predicate FirstReceiver(ss: Table, port: nat, k: nat) {
    && k < |ss| && ss[k].inUse && ss[k].kind == 2 && ss[k].local.port == port
    && forall j :: 0 <= j < k ==> !(ss[j].inUse && ss[j].kind == 2 && ss[j].local.port == port)
  }

  /** The first 1500 bytes. */
  function Head(buf: seq<bv8>): seq<bv8> {
    if |buf| <= 1500 then buf else buf[..1500]
  }

  /** A datagram goes to the first datagram socket with the port, and counts as sent whether there is one or
      not; without an address it is refused. */
  lemma DatagramSend(w: World, fd: int, buf: seq<bv8>, addr: Option<Addr>) returns (k: Option<nat>)
    requires Good(w) && IsOpen(w.ss, fd) && w.ss[fd - 1].kind == 2
    ensures var (t, n) := SendTo(w.ss, fd, buf, addr);
            var logs := Record(w, SendOp(fd, buf, addr));
            if addr.None? then n == -1 && t == w.ss && logs == w.logs
            else && n == |Head(buf)|
                 && (k.Some? ==> FirstReceiver(w.ss, addr.value.port, k.value) && OnlySocket(w.ss, t, k.value)
                                 && logs == w.logs[k.value := Offer(w.logs[k.value], Sent(fd - 1, Msg(Head(buf), w.ss[fd - 1].local)))])
                 && (k.None? ==> (forall j: nat :: !FirstReceiver(w.ss, addr.value.port, j)) && t == w.ss && logs == w.logs)
  {
    k := None;
    if addr.Some? {
      var r := FindReceiver(w.ss, addr.value.port);
      forall j | 0 <= j < r ensures !(w.ss[j].inUse && w.ss[j].kind == 2 && w.ss[j].local.port == addr.value.port) {
        assert !Receives(w.ss[j], addr.value.port);
      }
      if r < |w.ss| { k := Some(r); }
    }
  }

  /** Closing frees the slot and leaves the peer without one; nothing else changes. */
  lemma CloseExact(ss: Table, fd: int)
    ensures var (t, r) := Close(ss, fd);
            if IsOpen(ss, fd)
            then && r == 0 && |t| == |ss| && !t[fd - 1].inUse
                 && (forall j :: 0 <= j < |ss| && j != fd - 1 ==> t[j] == if ss[fd - 1].peer == j then ss[j].(peer := -1) else ss[j])
            else r == -1 && t == ss
  {
  }
}
