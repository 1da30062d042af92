/** src/net.c as it runs: the socket table updated in place. */
module Net {
  import opened Basics
  import R = Ring
  import S = Sockets

  class Loopback {
    const sockets: array<S.Socket>

    ghost predicate Shaped()
      reads this, sockets
    {
      S.Shaped(sockets[..])
    }

    constructor ()
      ensures Shaped() && fresh(sockets) && sockets[..] == seq(S.MAX_SOCKETS, _ => S.Cleared())
    {
      sockets := new S.Socket[S.MAX_SOCKETS](_ => S.Cleared());
      new;
      assert sockets[..] == seq(S.MAX_SOCKETS, _ => S.Cleared());
    }

    method Get(fd: int) returns (i: Option<nat>)
      ensures i == S.Get(sockets[..], fd)
    {
      if fd - 1 < 0 || fd - 1 >= sockets.Length || !sockets[fd - 1].inUse { return None; }
      return Some(fd - 1);
    }

    method FindFree() returns (k: nat)
      ensures k == S.FindFree(sockets[..])
    {
      for i := 0 to sockets.Length
        invariant S.FindFree(sockets[..], i) == S.FindFree(sockets[..])
      {
        if !sockets[i].inUse { return i; }
      }
      return sockets.Length;
    }

    method Open(domain: int, kind: int, owner: int) returns (fd: int)
      requires Shaped()
      modifies sockets
      ensures Shaped() && (sockets[..], fd) == S.Open(old(sockets[..]), domain, kind, owner)
    {
      if domain != S.AF_INET || (kind != S.SOCK_STREAM && kind != S.SOCK_DGRAM) { return -1; }
      var k := FindFree();
      if k == sockets.Length { return -1; }
      sockets[k] := S.Opened().(kind := kind, state := S.Bound, local := S.Addr(S.LOOPBACK, 0), owner := owner);
      return k + 1;
    }

    method Bind(fd: int, addr: Option<S.Addr>) returns (r: int)
      requires Shaped()
      modifies sockets
      ensures Shaped() && (sockets[..], r) == S.Bind(old(sockets[..]), fd, addr)
    {
      var i := Get(fd);
      if i.None? || addr.None? { return -1; }
      sockets[i.value] := sockets[i.value].(local := addr.value, state := S.Bound);
      return 0;
    }

    method Listen(fd: int) returns (r: int)
      requires Shaped()
      modifies sockets
      ensures Shaped() && (sockets[..], r) == S.Listen(old(sockets[..]), fd)
    {
      var i := Get(fd);
      if i.None? || sockets[i.value].kind != S.SOCK_STREAM { return -1; }
      sockets[i.value] := sockets[i.value].(state := S.Listening);
      return 0;
    }

    method Accept(fd: int) returns (r: int, from: Option<S.Addr>)
      requires Shaped()
      modifies sockets
      ensures Shaped() && (sockets[..], r, from) == S.Accept(old(sockets[..]), fd)
    {
      var i := Get(fd);
      if i.None? || sockets[i.value].state != S.Listening { return -1, None; }
      var p := sockets[i.value].pending;
      if p.tail == p.head { return -1, None; }
      sockets[i.value] := sockets[i.value].(pending := R.Dequeue(p));
      var child := p.cells[p.tail];
      if child < 0 { return -1, None; }
      var c := Get(child);
      return child, if c.Some? then Some(sockets[c.value].remote) else None;
    }

    method FindListener(port: nat) returns (k: nat)
      ensures k == S.FindListener(sockets[..], port)
    {
      for i := 0 to sockets.Length
        invariant S.FindListener(sockets[..], port, i) == S.FindListener(sockets[..], port)
      {
        if sockets[i].inUse && sockets[i].state == S.Listening && sockets[i].local.port == port { return i; }
      }
      return sockets.Length;
    }

    method Connect(fd: int, addr: Option<S.Addr>) returns (r: int)
      requires Shaped()
      modifies sockets
      ensures Shaped() && (sockets[..], r) == S.Connect(old(sockets[..]), fd, addr)
    {
      var i := Get(fd);
      if i.None? || sockets[i.value].kind != S.SOCK_STREAM || addr.None? { return -1; }
      var l := FindListener(addr.value.port);
      if l == sockets.Length { return -1; }
      var k := FindFree();
      if k == sockets.Length { return -1; }
      sockets[k] := S.Opened().(kind := S.SOCK_STREAM, state := S.Connected, local := sockets[l].local,
                                remote := sockets[i.value].local, peer := i.value, owner := sockets[l].owner);
      sockets[i.value] := sockets[i.value].(remote := addr.value, state := S.Connected, peer := k);
      sockets[l] := sockets[l].(pending := R.Enqueue(sockets[l].pending, k + 1));
      return 0;
    }

    method FindReceiver(port: nat) returns (k: nat)
      ensures k == S.FindReceiver(sockets[..], port)
    {
      for i := 0 to sockets.Length
        invariant S.FindReceiver(sockets[..], port, i) == S.FindReceiver(sockets[..], port)
      {
        if sockets[i].inUse && sockets[i].kind == S.SOCK_DGRAM && sockets[i].local.port == port { return i; }
      }
      return sockets.Length;
    }

    method Deliver(k: nat, msg: S.Msg)
      requires Shaped() && k < sockets.Length
      modifies sockets
      ensures Shaped()
      ensures sockets[..] == old(sockets[..])[k := old(sockets[k]).(queue := R.Enqueue(old(sockets[k]).queue, msg))]
    {
      sockets[k] := sockets[k].(queue := R.Enqueue(sockets[k].queue, msg));
    }

    /** A peer number is followed only if it is in the table, which every reachable one is. */
    method SendTo(fd: int, buf: seq<bv8>, addr: Option<S.Addr>) returns (n: int)
      requires Shaped()
      modifies sockets
      ensures Shaped() && (sockets[..], n) == S.SendTo(old(sockets[..]), fd, buf, addr)
    {
      var i := Get(fd);
      if i.None? { return -1; }
      var s, data := sockets[i.value], S.Capped(buf);
      if s.kind == S.SOCK_DGRAM {
        if addr.None? { return -1; }
        var k := FindReceiver(addr.value.port);
        if k < sockets.Length { Deliver(k, S.Msg(data, s.local)); }
        return |data|;
      }
      if s.kind == S.SOCK_STREAM && s.state == S.Connected && 0 <= s.peer < sockets.Length {
        if !sockets[s.peer].inUse { return -1; }
        Deliver(s.peer, S.Msg(data, s.local));
        return |data|;
      }
      return -1;
    }

    method RecvFrom(fd: int, len: nat) returns (r: Option<seq<bv8>>, from: Option<S.Addr>)
      requires Shaped()
      modifies sockets
      ensures Shaped() && (sockets[..], r, from) == S.RecvFrom(old(sockets[..]), fd, len)
    {
      var i := Get(fd);
      if i.None? { return None, None; }
      var q := sockets[i.value].queue;
      if q.tail == q.head { return Some([]), None; }
      var m := q.cells[q.tail];
      sockets[i.value] := sockets[i.value].(queue := R.Dequeue(q));
      return Some(if len > |m.data| then m.data else m.data[..len]), Some(m.src);
    }

    method Close(fd: int) returns (r: int)
      requires Shaped()
      modifies sockets
      ensures Shaped() && (sockets[..], r) == S.Close(old(sockets[..]), fd)
    {
      var i := Get(fd);
      if i.None? { return -1; }
      var p := sockets[i.value].peer;
      if 0 <= p < sockets.Length { sockets[p] := sockets[p].(peer := -1); }
      sockets[i.value] := S.Cleared();
      return 0;
    }
  }
}
