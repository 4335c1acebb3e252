/** The receive buffer between a socket and its reader, and the writing loop (WiFiClient.cpp). */
module RxBuffer {
  import opened Words

  /** How often FIONREAD and recv were called, what they last gave (-1 for an error), how many bytes recv was
      last asked for, and whether its error was EWOULDBLOCK. */
  datatype Calls = Calls(ioctls: nat, reported: int, recvs: nat, received: int, asked: nat, blocked: bool)

  /** What a try to send came to: select and its answer, then the result of send and whether its error was EAGAIN. */
  datatype Try = Try(selected: int, ready: bool, res: int, again: bool)

  /** A socket: the bytes the peer sends, how many of them have been received, and the bytes sent to
      the peer. When bytes arrive and how many a call returns is not determined; how often each call was
      made, and its last result, are remembered. */
  class Socket {
    const wire: seq<Byte>
    var got: nat
    var sent: seq<Byte>
    ghost var calls: Calls
    ghost var tries: nat
    ghost var last: Try

    ghost predicate Valid()
      reads this
    {
      got <= |wire|
    }

    constructor (wire: seq<Byte>)
      ensures Valid() && this.wire == wire && got == 0 && sent == []
    {
      this.wire, got, sent := wire, 0, [];
      calls := Calls(0, 0, 0, 0, 0, false);
      tries, last := 0, Try(0, false, 0, false);
    }

    /** FIONREAD: an error, or the number of bytes that can be read now. */
    method Ioctl() returns (res: int, count: nat)
      requires Valid()
      modifies this`calls
      ensures res >= 0 ==> got + count <= |wire|
      ensures calls == old(calls).(ioctls := old(calls).ioctls + 1, reported := if res < 0 then -1 else count)
    {
      if * {
        res, count := -1, 0;
      } else {
        res := 0;
        count :| 0 <= count <= |wire| - got;
      }
      calls := calls.(ioctls := calls.ioctls + 1, reported := if res < 0 then -1 else count);
    }

    /** recv into memory: an error, or any number of bytes up to the room there is. */
    method Recv(mem: array<Byte>, at: nat, room: nat) returns (res: int, wouldBlock: bool)
      requires Valid() && at + room <= mem.Length
      modifies this`got, this`calls, mem
      ensures calls == old(calls).(recvs := old(calls).recvs + 1, received := res, asked := room, blocked := wouldBlock)
      ensures Valid() && -1 <= res <= room
      ensures got == old(got) + if res < 0 then 0 else res
      ensures forall k | 0 <= k < at :: mem[k] == old(mem[k])
      ensures forall k | at <= k < at + res :: mem[k] == wire[old(got) + (k - at)]
    {
      calls := calls.(recvs := calls.recvs + 1, received := -1, asked := room, blocked := false);
      if * {
        wouldBlock := *;
        calls := calls.(blocked := wouldBlock);
        return -1, wouldBlock;
      }
      wouldBlock := false;
      res :| 0 <= res <= room && got + res <= |wire|;
      forall k | at <= k < at + res {
        mem[k] := wire[got + (k - at)];
      }
      got := got + res;
      calls := calls.(received := res);
    }

    /** select and send: an error of select, not ready, an error of send, or some bytes taken. */
    method Send(buf: seq<Byte>) returns (selected: int, ready: bool, res: int, again: bool)
      requires Valid()
      modifies this`sent, this`tries, this`last
      ensures tries == old(tries) + 1 && last == Try(selected, ready, res, again)
      ensures -1 <= res <= |buf|
      ensures sent == old(sent) + if selected >= 0 && ready && res > 0 then buf[..res] else []
    {
      selected, ready, res, again := *, *, -1, *;
      if selected >= 0 && ready {
        res :| -1 <= res <= |buf|;
        if res > 0 {
          sent := sent + buf[..res];
        }
      }
      tries, last := tries + 1, Try(selected, ready, res, again);
    }
  }

  class WiFiClientRxBuffer {
    const size: nat
    const fd: Socket
    var buffer: array?<Byte>
    var pos: nat
    var fill: nat
    var failed: bool
    ghost var mallocs: nat

    ghost function Memory(): set<object>
      reads this
    {
      if buffer == null then {} else {buffer}
    }

    /** The cursors are in range, and what lies between them is what was received last. */
    ghost predicate Valid()
      reads this, fd, Memory()
    {
      && fd.Valid()
      && pos <= fill && fill - pos <= fd.got
      && (buffer == null ==> fill == 0)
      && (buffer != null ==>
            buffer.Length == size && fill <= size
            && forall k | pos <= k < fill :: buffer[k] == fd.wire[fd.got - fill + k])
    }

    /** How much of the stream has been handed out: all that was received but what lies between the
        cursors. */
    ghost function Delivered(): int
      reads this, fd
    {
      fd.got - (fill - pos)
    }

    /** Nothing more can come: since the given calls, the allocation has failed, FIONREAD was
        called and last reported nothing or an error, or recv was called for all the room and last gave nothing
        or an error; or there is no room. */
    ghost predicate Dry(mallocs0: nat, before: Calls)
      reads this, fd
    {
      || (buffer == null && mallocs0 < mallocs)
      || (buffer != null && size <= fill)
      || (before.ioctls < fd.calls.ioctls && fd.calls.reported <= 0)
      || (before.recvs < fd.calls.recvs && fd.calls.received <= 0 && fd.calls.asked == size - fill)
    }

    /** Since then the allocation, the last FIONREAD or the last recv has failed. */
    ghost predicate Broken(mallocs0: nat, before: Calls)
      reads this, fd
    {
      || (buffer == null && mallocs0 < mallocs)
      || (before.ioctls < fd.calls.ioctls && fd.calls.reported < 0)
      || (before.recvs < fd.calls.recvs && fd.calls.received < 0 && !fd.calls.blocked)
    }

    /** The counts of calls only grow. */
    ghost predicate Later(mallocs0: nat, before: Calls)
      reads this, fd
    {
      mallocs0 <= mallocs && before.ioctls <= fd.calls.ioctls && before.recvs <= fd.calls.recvs
    }

    constructor (fd: Socket, size: nat)
      requires fd.Valid()
      ensures Valid() && this.fd == fd && this.size == size && Memory() == {} && Delivered() == fd.got
    {
      this.fd, this.size := fd, size;
      buffer, pos, fill, failed, mallocs := null, 0, 0, false, 0;
    }

    method RAvailable() returns (count: nat)
      requires Valid()
      modifies this`failed, fd`calls
      ensures Valid() && fd.got + count <= |fd.wire|
      ensures fd.calls == old(fd.calls).(ioctls := old(fd.calls).ioctls + 1, reported := fd.calls.reported)
      ensures count == if fd.calls.reported < 0 then 0 else fd.calls.reported
      ensures failed == (old(failed) || fd.calls.reported < 0)
    {
      var res, n := fd.Ioctl();
      if res < 0 {
        failed := true;
        return 0;
      }
      return n;
    }

    /** malloc, which may fail */
    method Malloc() returns (ok: bool)
      requires Valid() && buffer == null
      modifies this`buffer, this`mallocs
      ensures Valid() && fresh(Memory()) && mallocs == old(mallocs) + 1 && ok == (buffer != null)
    {
      mallocs := mallocs + 1;
      if * {
        return false;
      }
      buffer := new Byte[size];
      return true;
    }

    /** Allocates the buffer on the first use and starts it over when all of it has been handed out. */
    method Prepare() returns (ok: bool)
      requires Valid()
      modifies this
      ensures Valid() && fresh(Memory() - old(Memory()))
      ensures failed == (old(failed) || !ok)
      ensures ok == (buffer != null) && mallocs == old(mallocs) + if old(buffer == null) then 1 else 0
      ensures old(buffer) != null ==> buffer == old(buffer)
      ensures fill - pos == old(fill - pos) && (old(pos < fill) ==> pos == old(pos))
      ensures old(pos == fill) && ok ==> fill == 0
    {
      if buffer == null {
        ok := Malloc();
        if !ok {
          failed := true;
          return;
        }
      }
      if fill > 0 && pos == fill {
        fill, pos := 0, 0;
      }
      return true;
    }

    /** Receives what fits behind the bytes still buffered, and gives up only when nothing more can come. */
    method FillBuffer() returns (n: nat)
      requires Valid()
      modifies this, fd`got, fd`calls, Memory()
      ensures Later(old(mallocs), old(fd.calls))
      ensures n == 0 ==> Dry(old(mallocs), old(fd.calls))
      ensures n > 0 ==> fd.calls.asked == size - (fill - n)
      ensures failed == (old(failed) || Broken(old(mallocs), old(fd.calls)))
      ensures old(pos == fill) && n == 0 ==> fill == 0 || buffer == null
      ensures Valid() && fresh(Memory() - old(Memory()))
      ensures fd.got == old(fd.got) + n && fill - pos == old(fill - pos) + n
      ensures old(pos < fill) ==> pos == old(pos)
    {
      var ok := Prepare();
      if !ok || size <= fill {
        return 0;
      }
      var available := RAvailable();
      if available == 0 {
        return 0;
      }
      var res, wouldBlock := fd.Recv(buffer, fill, size - fill);
      if res < 0 {
        if !wouldBlock {
          failed := true;
        }
        return 0;
      }
      fill := fill + res;
      return res;
    }

    /** memcpy to the reader */
    method CopyOut(dst: array<Byte>, at: nat, n: nat)
      requires Valid() && dst != buffer && n <= fill - pos && at + n <= dst.Length
      modifies this`pos, dst
      ensures Valid() && pos == old(pos) + n
      ensures forall i | 0 <= i < at || at + n <= i < dst.Length :: dst[i] == old(dst[i])
      ensures forall i | at <= i < at + n :: dst[i] == fd.wire[old(Delivered()) + (i - at)]
    {
      if n > 0 {
        forall i | at <= i < at + n {
          dst[i] := buffer[pos + (i - at)];
        }
        pos := pos + n;
      }
    }

    /** Whether the whole read can be served from the buffer, after one refill if there is room for the
        rest; a is what was buffered before that refill. */
    method Gather(len: nat) returns (a: nat, whole: bool)
      requires Valid() && pos < fill
      modifies this, fd`got, fd`calls, Memory()
      ensures Valid() && fresh(Memory() - old(Memory()))
      ensures Later(old(mallocs), old(fd.calls))
      ensures Delivered() == old(Delivered()) && a == old(fill - pos) <= fill - pos
      ensures whole ==> len <= fill - pos
      ensures !whole ==> a < len && fill - pos < len
      ensures fd.got >= old(fd.got)
    {
      a := fill - pos;
      whole := len <= a;
      if !whole && len - a <= size - fill {
        var n := FillBuffer();
        whole := n >= len - a;
      }
    }

    /** The loop of a read that has handed out the first bytes: it refills until nothing more comes. */
    method ReadRest(dst: array<Byte>, first: nat, len: nat) returns (r: nat)
      requires Valid() && dst != buffer && first <= len <= dst.Length && (first < len ==> fill - pos < len - first)
      modifies this, fd`got, fd`calls, Memory(), dst
      ensures Valid() && fresh(Memory() - old(Memory()))
      ensures Later(old(mallocs), old(fd.calls))
      ensures r < len ==> Dry(old(mallocs), old(fd.calls))
      ensures first <= r <= len && Delivered() == old(Delivered()) + (r - first)
      ensures forall i | first <= i < r :: dst[i] == fd.wire[old(Delivered()) + (i - first)]
      ensures forall i | 0 <= i < first || r <= i < dst.Length :: dst[i] == old(dst[i])
      ensures r < len ==> fill - pos < len - r && (pos < fill ==> r == first)
      ensures fd.got >= old(fd.got)
    {
      r := first;
      while r < len
        invariant fd.got >= old(fd.got) && Later(old(mallocs), old(fd.calls))
        invariant Valid() && fresh(Memory() - old(Memory())) && dst != buffer
        invariant first <= r <= len && Delivered() == old(Delivered()) + (r - first)
        invariant forall i | first <= i < r :: dst[i] == fd.wire[old(Delivered()) + (i - first)]
        invariant forall i | 0 <= i < first || r <= i < dst.Length :: dst[i] == old(dst[i])
        invariant first < r < len ==> pos == fill
        invariant r < len ==> fill - pos < len - r
      {
        var n := FillBuffer();
        if n == 0 {
          return r;
        }
        var a := fill - pos;
        var toRead := if a > len - r then len - r else a;
        CopyOut(dst, r, toRead);
        r := r + toRead;
      }
    }

    /** A read hands out the next bytes of the stream, or says -1 and hands out nothing. It hands out fewer
        than asked for only when nothing more can come. */
    method Read(dst: array<Byte>, len: nat) returns (r: int, ghost first: nat)
      requires Valid() && dst != buffer && len <= dst.Length
      modifies this, fd`got, fd`calls, Memory(), dst
      ensures Valid() && fresh(Memory() - old(Memory()))
      ensures r < len && len > 0 ==> Dry(old(mallocs), old(fd.calls))
      ensures r == -1 && len > 0 && buffer != null ==> fill == 0
      ensures r == -1 || 1 <= r <= len
      ensures r == -1 ==> len == 0 || old(pos == fill)
      ensures Delivered() == old(Delivered()) + if r == -1 then 0 else r
      ensures forall i | 0 <= i < r :: dst[i] == fd.wire[old(Delivered()) + i]
      ensures forall i | 0 <= i < dst.Length && r <= i :: dst[i] == old(dst[i])
      // `first` is what was buffered when the read began to hand out: before it, or after the refill of
      // an empty buffer; a short read may leave bytes buffered, but only after handing out just that
      ensures old(pos < fill) ==> first == old(fill - pos)
      ensures old(pos == fill) && r > 0 ==> 1 <= first <= fd.got - old(fd.got)
      ensures 0 < r < len && pos < fill ==> r == first
      // what a short read leaves would not have completed it
      ensures 0 < r < len ==> fill - pos < len - r
    {
      first := fill - pos;
      r := -1;
      if len == 0 {
        return;
      }
      if pos == fill {
        var n := FillBuffer();
        if n == 0 {
          return;
        }
        first := n;
      }
      var a, whole := Gather(len);
      if whole {
        CopyOut(dst, 0, len);
        r := len;
        return;
      }
      CopyOut(dst, 0, a);
      r := ReadRest(dst, a, len);
    }

    /** A peek shows the next byte of the stream, or says -1; nothing is handed out. */
    method Peek() returns (r: int)
      requires Valid()
      modifies this, fd`got, fd`calls, Memory()
      ensures Valid() && fresh(Memory() - old(Memory()))
      ensures Delivered() == old(Delivered())
      ensures r == -1 ==> old(pos == fill) && Dry(old(mallocs), old(fd.calls))
      ensures r == -1 && buffer != null ==> fill == 0
      ensures r != -1 ==> Delivered() < fd.got && r == fd.wire[Delivered()]
    {
      if pos == fill {
        var n := FillBuffer();
        if n == 0 {
          return -1;
        }
      }
      return buffer[pos];
    }

    /** What is available covers what is buffered and is never more than what the peer sends. */
    method Available() returns (n: nat)
      requires Valid()
      modifies this`failed, fd`calls
      ensures Valid() && fill - pos <= n && Delivered() + n <= |fd.wire|
      ensures fd.calls.ioctls == old(fd.calls.ioctls) + 1
      ensures n == fill - pos + if fd.calls.reported < 0 then 0 else fd.calls.reported
    {
      var waiting := RAvailable();
      return fill - pos + waiting;
    }
  }

  const WIFI_CLIENT_MAX_WRITE_RETRY := 10

  /** The error of a send after which the connection is given up. */
  predicate HardError(t: Try) {
    t.selected >= 0 && t.ready && t.res < 0 && !t.again
  }

  class WiFiClient {
    const fd: Socket
    var connected: bool

    constructor (fd: Socket)
      ensures this.fd == fd && connected
    {
      this.fd, connected := fd, true;
    }

    /** Sends in pieces, with a limited number of tries after each piece. What goes out is a prefix of
        the data, and its length is the answer unless select fails, when the answer is 0. `tries` counts
        the tries and `idle` those since the last byte went out. */
    method Write(buf: seq<Byte>)
        returns (total: nat, ghost out: nat, ghost broken: bool, ghost tries: nat, ghost idle: nat)
      requires fd.Valid()
      modifies this`connected, fd`sent, fd`tries, fd`last
      ensures fd.tries == old(fd.tries) + tries
      // select has failed, or send with another error than EAGAIN, exactly if it says so of the last try
      ensures broken <==> tries > 0 && fd.last.selected < 0
      ensures old(connected) ==> (!connected <==> tries > 0 && HardError(fd.last))
      ensures fd.Valid() && out <= |buf| && fd.sent == old(fd.sent) + buf[..out]
      ensures total == if broken then 0 else out
      ensures !old(connected) ==> tries == 0 && out == 0 && !broken
      ensures idle <= tries <= WIFI_CLIENT_MAX_WRITE_RETRY * (out + 1)
      ensures old(connected) && !broken && connected && out < |buf| ==> idle == WIFI_CLIENT_MAX_WRITE_RETRY
    {
      var retry := WIFI_CLIENT_MAX_WRITE_RETRY;
      var bytesRemaining := buf;
      total, out, broken, tries, idle := 0, 0, false, 0, 0;
      if !connected {
        return;
      }
      while retry > 0
        invariant fd.Valid() && total == out <= |buf| && !broken && fd.tries == old(fd.tries) + tries
        invariant tries > 0 ==> fd.last.selected >= 0
        invariant !connected <==> tries > 0 && HardError(fd.last)
        invariant retry > 0 ==> connected
        invariant bytesRemaining == buf[out..] && fd.sent == old(fd.sent) + buf[..out]
        invariant 0 <= retry <= WIFI_CLIENT_MAX_WRITE_RETRY && idle <= tries
        invariant tries + retry <= WIFI_CLIENT_MAX_WRITE_RETRY * (out + 1)
        invariant connected && out < |buf| ==> idle + retry == WIFI_CLIENT_MAX_WRITE_RETRY
        decreases |buf| - out, retry
      {
        retry, tries, idle := retry - 1, tries + 1, idle + 1;
        var selected, ready, res, again := fd.Send(bytesRemaining);
        if selected < 0 {
          broken := true;
          total := 0;
          return;
        }
        if ready {
          if res > 0 {
            assert buf[..out] + bytesRemaining[..res] == buf[..out + res];
            total, out, idle := total + res, out + res, 0;
            bytesRemaining := bytesRemaining[res..];
            retry := if total >= |buf| then 0 else WIFI_CLIENT_MAX_WRITE_RETRY;
          } else if res < 0 && !again {
            connected := false;
            retry := 0;
          }
        }
      }
    }
  }
}
