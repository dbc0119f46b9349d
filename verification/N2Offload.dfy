/** The socket calls of Firmware/src/n2_offload.c as they run: on an array of slots, under the
    mdm_sem semaphore, writing commands to the modem and decoding its replies. */
module N2Offload {
  import opened Bytes
  import opened Common
  import opened AtCommands
  import opened AtLines
  import opened Numerals
  import opened AtDecoders
  import opened NsorfRoundTrip
  import opened SocketTable

  /** A command written to the modem.  A payload is kept as the text that is sent. */
  datatype Command =
    | Nsocr(port: int)
    | Nsocl(id: int)
    | Nsorf(id: int, len: int)
    | Nsost(id: int, addr: seq<Byte>, port: int, len: int, hex: seq<Byte>)

  /** An entry of the descriptor list given to poll. */
  datatype PollFd = PollFd(fd: int, revents: Revents)

  class Driver {
    const sockets: array<Slot>
    var nextFreePort: int
    var mdmSem: nat
    var commands: seq<Command>
    var pastTable: bool // what VALID_SOCKET reads as in_use one past the table

    ghost predicate Valid()
      reads this
    {
      sockets.Length == MDM_MAX_SOCKETS && mdmSem == 1
    }

    ghost function View(): (t: Table)
      requires Valid()
      reads this, sockets
      ensures Sized(t)
    {
      Table(sockets[..], nextFreePort)
    }

    constructor ()
      ensures Valid() && View() == InitialTable() && commands == [] && fresh(sockets)
    {
      sockets := new Slot[MDM_MAX_SOCKETS](_ => CLEARED);
      nextFreePort, mdmSem, commands := NEXT_FREE_PORT, 1, [];
      new;
      assert sockets[..] == InitialTable().slots;
    }

    /** The one descriptor for which VALID_SOCKET looks past the table is harmless as long as
        it finds zero there; otherwise the calls would work on memory that is no slot. */
    predicate Harmless(sfd: int)
      reads this
    {
      sfd == 100 + MDM_MAX_SOCKETS ==> !pastTable
    }

    /** VALID_SOCKET */
    method IsValidSocket(sfd: int) returns (valid: bool)
      requires sockets.Length == MDM_MAX_SOCKETS
      ensures valid == Guard(Table(sockets[..], nextFreePort), sfd, pastTable)
    {
      valid := false;
      if sfd >= 100 && sfd <= 100 + MDM_MAX_SOCKETS {
        if sfd - 100 < sockets.Length {
          valid := sockets[sfd - 100].inUse;
        } else {
          valid := pastTable;
        }
      }
    }

    /** offload_socket, for a request already known to be an IPv4 datagram socket or not. */
    method OffloadSocket(isInet: bool, isDgram: bool, isUdp: bool, reply: seq<Byte>) returns (ret: Ret)
      requires Valid()
      modifies this`nextFreePort, this`mdmSem, this`commands, sockets
      ensures Valid()
      ensures !isInet ==> ret == Err(EAFNOSUPPORT)
      ensures isInet && !(isDgram && isUdp) ==> ret == Err(ENOTSUP)
      ensures !(isInet && isDgram && isUdp) ==> View() == old(View()) && commands == old(commands)
      ensures isInet && isDgram && isUdp ==>
                && (View(), ret) == SocketOp(old(View()), reply)
                && commands == old(commands) +
                     (if FirstFree(old(View()).slots, 0) < MDM_MAX_SOCKETS then [Nsocr(old(nextFreePort))] else [])
    {
      if !isInet {
        return Err(EAFNOSUPPORT);
      }
      if !isDgram {
        return Err(ENOTSUP);
      }
      if !isUdp {
        return Err(ENOTSUP);
      }
      mdmSem := mdmSem - 1;
      var fd := FindFree();
      if fd == -1 {
        mdmSem := mdmSem + 1;
        assert sockets[..] == old(sockets[..]);
        return Err(ENOMEM);
      }
      sockets[fd] := sockets[fd].(localPort := nextFreePort);
      commands := commands + [Nsocr(nextFreePort)];
      var code, sockfd, _ := AtnsocrDecode(reply);
      if code == AtOk {
        sockets[fd] := sockets[fd].(id := sockfd, inUse := true);
        nextFreePort := nextFreePort + 1;
        mdmSem := mdmSem + 1;
        assert sockets[..] == SocketOp(old(View()), reply).0.slots;
        return Ok(fd + 100);
      }
      mdmSem := mdmSem + 1;
      return Err(ENOMEM);
    }

    method FindFree() returns (fd: int)
      requires sockets.Length == MDM_MAX_SOCKETS
      ensures fd == (var f := FirstFree(sockets[..], 0); if f < MDM_MAX_SOCKETS then f else -1)
    {
      fd := -1;
      for i := 0 to MDM_MAX_SOCKETS
        invariant FirstFree(sockets[..], 0) == FirstFree(sockets[..], i)
      {
        if !sockets[i].inUse {
          return i;
        }
      }
    }

    /** offload_close */
    method OffloadClose(sfd: int, reply: seq<Byte>) returns (ret: Ret)
      requires Valid() && Harmless(sfd)
      modifies this`nextFreePort, this`mdmSem, this`commands, sockets
      ensures Valid()
      ensures if ValidSocket(old(View()), sfd)
              then (View(), ret) == CloseOp(old(View()), sfd - 100, reply) &&
                   commands == old(commands) + [Nsocl(old(View()).slots[sfd - 100].id)]
              else (View(), ret, commands) == (old(View()), Err(EINVAL), old(commands))
    {
      var valid := IsValidSocket(sfd);
      if !valid {
        return Err(EINVAL);
      }
      var fd := sfd - 100;
      mdmSem := mdmSem - 1;
      commands := commands + [Nsocl(sockets[fd].id)];
      var code, _, _ := DecodeInput(reply, (), Generic());
      if code != AtOk {
        mdmSem := mdmSem + 1;
        return Err(ENOMEM);
      }
      sockets[fd] := CLEARED;
      mdmSem := mdmSem + 1;
      return Ok(0);
    }

    /** offload_connect */
    method OffloadConnect(sfd: int, addr: seq<Byte>) returns (ret: Ret)
      requires Valid() && Harmless(sfd)
      modifies this`nextFreePort, this`mdmSem, this`commands, sockets
      ensures Valid() && commands == old(commands)
      ensures (View(), ret) ==
              if ValidSocket(old(View()), sfd) then ConnectOp(old(View()), sfd - 100, addr)
              else (old(View()), Err(EINVAL))
    {
      var valid := IsValidSocket(sfd);
      if !valid {
        return Err(EINVAL);
      }
      ret := ConnectSection(sfd - 100, addr);
    }

    /** The critical section of offload_connect, which finds the slot in any state: another
        thread may have closed it since its descriptor was checked. */
    method ConnectSection(fd: nat, addr: seq<Byte>) returns (ret: Ret)
      requires Valid() && fd < MDM_MAX_SOCKETS
      modifies this`nextFreePort, this`mdmSem, this`commands, sockets
      ensures Valid() && commands == old(commands)
      ensures (View(), ret) == ConnectOp(old(View()), fd, addr)
    {
      mdmSem := mdmSem - 1;
      if !sockets[fd].inUse {
        mdmSem := mdmSem + 1;
        return Err(EISCONN);
      }
      sockets[fd] := sockets[fd].(connected := true);
      sockets[fd] := sockets[fd].(remoteAddr := Some(addr));
      mdmSem := mdmSem + 1;
      assert sockets[..] == ConnectOp(old(View()), fd, addr).0.slots;
      return Ok(0);
    }

    /** offload_poll */
    method OffloadPoll(fds: array<PollFd>)
      requires Valid()
      requires forall i :: 0 <= i < fds.Length ==> Harmless(fds[i].fd)
      modifies this`mdmSem, fds
      ensures Valid()
      ensures View() == old(View())
      ensures forall i :: 0 <= i < fds.Length ==> fds[i] == old(fds[i]).(revents := Revent(View(), old(fds[i]).fd))
      ensures forall i :: 0 <= i < fds.Length ==>
                var fd := old(fds[i]).fd;
                fds[i].fd == fd && fds[i].revents == if 100 <= fd < 107 && sockets[fd - 100].inUse
                                                     then Ready(sockets[fd - 100].incoming > 0) else Nval
    {
      mdmSem := mdmSem - 1;
      for i := 0 to fds.Length
        invariant mdmSem == 0
        invariant forall k :: 0 <= k < i ==>
                    fds[k] == old(fds[k]).(revents := Revent(Table(sockets[..], nextFreePort), old(fds[k]).fd))
        invariant forall k :: i <= k < fds.Length ==> fds[k] == old(fds[k])
      {
        var valid := IsValidSocket(fds[i].fd);
        if !valid {
          fds[i] := fds[i].(revents := Nval);
          continue;
        }
        fds[i] := fds[i].(revents := Ready(false));
        if sockets[fds[i].fd - 100].incoming > 0 {
          fds[i] := fds[i].(revents := Ready(true));
        }
      }
      mdmSem := mdmSem + 1;
    }

    /** offload_recvfrom; data, ip and port are what the caller's buffers receive. */
    method OffloadRecvFrom(sfd: int, len: int, reply: seq<Byte>)
      returns (ret: Ret, data: seq<Byte>, ip: seq<Byte>, port: int)
      requires Valid() && Harmless(sfd)
      modifies this`nextFreePort, this`mdmSem, this`commands, sockets
      ensures Valid()
      ensures if !ValidSocket(old(View()), sfd)
              then (View(), ret, commands) == (old(View()), Err(EINVAL), old(commands))
              else
                var i := sfd - 100;
                && (View(), ret) == RecvOp(old(View()), i, reply)
                && commands == old(commands) +
                     (if old(View()).slots[i].incoming == 0 then []
                      else [Nsorf(old(View()).slots[i].id, if len > 512 then 512 else len)])
                && (ReturnsData(old(View()), i, reply) ==>
                      var c := Decode(AtDecoders.Nsorf(), NsorfStart(), reply).ctx;
                      data == c.data && ip == c.ip && port == c.port)
    {
      data, ip, port := [], [], 0;
      var valid := IsValidSocket(sfd);
      if !valid {
        ret := Err(EINVAL);
        return;
      }
      var fd := sfd - 100;
      mdmSem := mdmSem - 1;
      if sockets[fd].incoming == 0 {
        mdmSem := mdmSem + 1;
        ret := Ok(0);
        return;
      }
      commands := commands + [Nsorf(sockets[fd].id, if len > MAX_RECEIVE then MAX_RECEIVE else len)];
      var code, ctx, _ := AtnsorfDecode(reply);
      if code == AtOk {
        data := ctx.data;
        if ctx.received == 0 {
          mdmSem := mdmSem + 1;
          ret := Ok(0);
          return;
        }
        ip, port := ctx.ip, ctx.port;
        sockets[fd] := sockets[fd].(incoming := ctx.remaining);
        mdmSem := mdmSem + 1;
        ret := Ok(ctx.received);
        return;
      }
      mdmSem := mdmSem + 1;
      ret := Err(ENOMEM);
    }

    /** The digits of a payload, two for each byte, as offload_sendto writes them. */
    method WriteHex(buf: seq<Byte>) returns (hex: seq<Byte>)
      ensures hex == Hex(buf)
    {
      hex := [];
      for i := 0 to |buf|
        invariant hex == Hex(buf[..i])
      {
        hex := hex + [ToHex(buf[i] / 16), ToHex(buf[i] % 16)];
        assert buf[..i + 1][..i] == buf[..i];
      }
      assert buf[..|buf|] == buf;
    }

    /** offload_sendto, once the address has been turned into text. */
    method OffloadSendTo(sfd: int, buf: seq<Byte>, addr: seq<Byte>, port: int, reply: seq<Byte>) returns (ret: Ret)
      requires Valid() && Harmless(sfd)
      modifies this`mdmSem, this`commands
      ensures Valid() && View() == old(View())
      ensures !ValidSocket(View(), sfd) || |buf| > 512 ==>
                ret == Err(EINVAL) && commands == old(commands)
      ensures ValidSocket(View(), sfd) && |buf| <= 512 ==>
                && commands == old(commands) + [Nsost(View().slots[sfd - 100].id, addr, port, |buf|, Hex(buf))]
                && ret == if Decode(AtDecoders.Nsost(), NsostCtx(-1, 0), reply).code == AtOk then Ok(|buf|)
                          else Err(ENOMEM)
    {
      var valid := IsValidSocket(sfd);
      if !valid {
        return Err(EINVAL);
      }
      if |buf| > N2_MAX_PACKET_SIZE {
        return Err(EINVAL);
      }
      mdmSem := mdmSem - 1;
      var hex := WriteHex(buf);
      commands := commands + [Nsost(sockets[sfd - 100].id, addr, port, |buf|, hex)];
      var code, _, _ := AtnsostDecode(reply, -1, 0);
      ret := Ok(|buf|);
      if code != AtOk {
        ret := Err(ENOMEM);
      }
      mdmSem := mdmSem + 1;
    }

    /** receive_cb, called by the URC thread. */
    method ReceiveCb(fd: int, bytes: int)
      requires Valid()
      modifies this`mdmSem, sockets
      ensures Valid() && View() == NotifyOp(old(View()), fd, bytes)
    {
      mdmSem := mdmSem - 1;
      for i := 0 to MDM_MAX_SOCKETS
        invariant mdmSem == 0
        invariant forall k :: 0 <= k < i ==> sockets[k] == NotifyOp(old(View()), fd, bytes).slots[k]
        invariant forall k :: i <= k < MDM_MAX_SOCKETS ==> sockets[k] == old(sockets[k])
      {
        if sockets[i].id == fd {
          sockets[i] := sockets[i].(incoming := sockets[i].incoming + bytes);
        }
      }
      mdmSem := mdmSem + 1;
      assert sockets[..] == NotifyOp(old(View()), fd, bytes).slots;
    }
  }

  /** End to end: if a notification has been seen and the modem's reply carries a datagram,
      among whatever blank and unsolicited lines, then the read returns the length of its
      payload and leaves nothing pending. */
  lemma ReadDelivers(t: Table, i: nat, d: Datagram, before: seq<seq<Byte>>, between: seq<seq<Byte>>, rest: seq<Byte>)
    requires i < |t.slots| && t.slots[i].incoming > 0
    requires Fits(d) && d.payload != []
    requires AllQuiet(before) && AllOrdinary(between)
    ensures var reply := Reply(d, before, between, rest);
            && RecvOp(t, i, reply) == (WithSlot(t, i, t.slots[i].(incoming := 0)), Ok(|d.payload|))
            && ReturnsData(t, i, reply)
            && Decode(AtDecoders.Nsorf(), NsorfStart(), reply).ctx.data == d.payload
  {
    RoundTrip(d, before, between, rest);
  }
}
