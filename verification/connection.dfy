/** The read side of a connection: the growable, compacting buffer
    (drizzle_state_read), packet framing (drizzle_state_packet_read) and the
    state loop that resumes them (src/conn.cc, src/state.cc). */
module Connection {
  import opened Bytes
  import opened Pack
  import opened StateStack

  datatype Ret =
    | Ok | IoWait | Pause
    | LostConnection | CouldNotConnect | Timeout | Errno | InternalError
    | BadPacketNumber | UnexpectedData | NullLength | RowEnd | EndOfData
    | ErrorCode | HandshakeFailed | AuthFailed | BadHandshakePacket | ProtocolNotSupported | NoScramble | BadChecksum

  predicate SocketFailure(ret: Ret) {
    ret.LostConnection? || ret.CouldNotConnect? || ret.Timeout? || ret.Errno?
  }

  lemma FailuresAre()
    ensures SocketFailure(LostConnection) && !SocketFailure(Ok) && !SocketFailure(IoWait)
  {
  }

  // ---------------------------------------------------------------- the network

  /** What one recv does, chosen by the network.  Deliver(n) hands over n bytes,
      or fewer when the buffer or the stream has fewer; WouldBlock tells whether
      the wait that follows it in blocking mode succeeds, Failed whether the peer
      dropped the connection. */
  datatype RecvEvent =
    | Deliver(n: nat)
    | WouldBlock(waited: bool)
    | Interrupted
    | Refused
    | Failed(lost: bool)

  datatype Received = Data(bytes: seq<byte>) | Eof | Fault(event: RecvEvent)

  /** An outcome after which the network is no longer to be had.  Without blocking no
      wait follows a recv that would block. */
  predicate Failing(event: RecvEvent, nonBlocking: bool) {
    event in {Deliver(0), Refused, Failed(true), Failed(false)} || (event == WouldBlock(false) && !nonBlocking)
  }

  /** An outcome after which recv is called again. */
  predicate Again(event: RecvEvent, nonBlocking: bool) {
    event == Interrupted || (event == WouldBlock(true) && !nonBlocking)
  }

  /** A socket: the bytes the server will send and the outcomes of all calls, past
      and to come.  The stream counts as closed when the outcomes run out. */
  class Socket {
    var incoming: seq<byte>
    const plan: seq<RecvEvent>
    /** The calls made so far. */
    var next: nat

    /** The outcomes to come. */
    function Left(): nat
      reads this`next
    {
      if next < |plan| then |plan| - next else 0
    }

    /** The outcomes have run out, or one of those that came was a failure. */
    ghost predicate Cut(nonBlocking: bool)
      reads this`next
    {
      next >= |plan| || exists i :: 0 <= i < next && Failing(plan[i], nonBlocking)
    }

    /** After each outcome from `from` on recv was to be called again. */
    ghost predicate Retried(from: nat, nonBlocking: bool)
      reads this`next
    {
      from <= next && (next <= |plan| ==> forall i :: from <= i < next ==> Again(plan[i], nonBlocking))
    }

    /** The outcome that came last gave bytes, or told to wait; recv was to be called
        again after those from `from` on that came before. */
    ghost predicate Ended(from: nat, nonBlocking: bool, delivered: bool)
      reads this`next
    {
      && from < next <= |plan| && (forall i :: from <= i < next - 1 ==> Again(plan[i], nonBlocking))
      && if delivered then plan[next - 1].Deliver? else plan[next - 1].WouldBlock?
    }

    constructor (incoming: seq<byte>, plan: seq<RecvEvent>)
      ensures this.incoming == incoming && this.plan == plan && next == 0
    {
      this.incoming := incoming;
      this.plan := plan;
      next := 0;
    }

    lemma NoneYet(nonBlocking: bool)
      ensures Retried(next, nonBlocking)
    {
    }

    method Recv(max: nat, ghost nonBlocking: bool, ghost since: nat) returns (r: Received)
      requires max > 0 && Retried(since, nonBlocking)
      modifies this
      ensures r.Data? ==> 1 <= |r.bytes| <= max && old(incoming) == r.bytes + incoming
      ensures !r.Data? ==> incoming == old(incoming)
      ensures next >= old(next) && Left() <= old(Left()) && (!r.Eof? ==> Left() < old(Left()))
      ensures r.Eof? ==> Cut(nonBlocking) || incoming == []
      ensures r.Fault? ==> next == old(next) + 1 <= |plan| && r.event == plan[old(next)]
      ensures r.Fault? && Again(r.event, nonBlocking) ==> Retried(since, nonBlocking)
      ensures r.Data? || (r.Fault? && r.event.WouldBlock?) ==> Ended(since, nonBlocking, r.Data?)
      ensures r.Fault? ==> !r.event.Deliver? && (Failing(r.event, nonBlocking) ==> Cut(nonBlocking))
    {
      if next >= |plan| {
        return Eof;
      }
      var event := plan[next];
      next := next + 1;
      assert event == plan[next - 1];
      if !event.Deliver? {
        return Fault(event);
      }
      var n := if event.n < max then event.n else max;
      n := if n < |incoming| then n else |incoming|;
      if n == 0 {
        return Eof;
      }
      r := Data(incoming[..n]);
      incoming := incoming[n..];
    }
  }

  // ------------------------------------------------------- the one-shot parser

  /** The first packet of a byte stream, if it is all there and has the number
      expected. */
  datatype Parsed = Incomplete | BadNumber | Packet(payload: seq<byte>, rest: seq<byte>)

  function NextPacket(s: seq<byte>, number: byte): (r: Parsed)
    ensures r.Packet? ==> |s| == 4 + |r.payload| + |r.rest| && |r.payload| < 0x100_0000
  {
    if |s| < 4 then Incomplete
    else
      LeOfValue(s[..3]);
      Spans();
      var size := LeValue(s[..3]);
      if |s| < size + 4 then Incomplete
      else if s[3] != number then BadNumber
      else Packet(s[4..4 + size], s[4 + size..])
  }

  datatype Status = Done | Starved | Misnumbered

  datatype Parse = Parse(payloads: seq<seq<byte>>, status: Status, rest: seq<byte>)

  /** Up to n packets read off the whole stream at once. */
  function ParseStream(s: seq<byte>, number: byte, n: nat): (r: Parse)
    ensures |r.payloads| <= n
    ensures r.status.Done? <==> |r.payloads| == n
  {
    if n == 0 then Parse([], Done, s)
    else
      match NextPacket(s, number)
      case Incomplete => Parse([], Starved, s)
      case BadNumber => Parse([], Misnumbered, s)
      case Packet(payload, rest) =>
        var tail := ParseStream(rest, (number + 1) % 256, n - 1);
        Parse([payload] + tail.payloads, tail.status, tail.rest)
  }

  function Frame(number: byte, payload: seq<byte>): seq<byte> {
    Le(|payload|, 3) + [number] + payload
  }

  /** A server stream: packets numbered consecutively modulo 256. */
  function Stream(payloads: seq<seq<byte>>, number: byte): seq<byte> {
    if payloads == [] then []
    else Frame(number, payloads[0]) + Stream(payloads[1..], (number + 1) % 256)
  }

  lemma FrameParses(number: byte, payload: seq<byte>, rest: seq<byte>)
    requires |payload| < 0x100_0000
    ensures NextPacket(Frame(number, payload) + rest, number) == Packet(payload, rest)
  {
    Spans();
    LeRoundTrip(|payload|, 3);
    var s := Frame(number, payload) + rest;
    assert s[..3] == Le(|payload|, 3) && s[3] == number;
    assert s[4..4 + |payload|] == payload && s[4 + |payload|..] == rest;
  }

  lemma ParseSteps(s: seq<byte>, number: byte, n: nat)
    requires n > 0
    ensures NextPacket(s, number).Packet? ==>
      var tail := ParseStream(NextPacket(s, number).rest, (number + 1) % 256, n - 1);
      ParseStream(s, number, n) ==
        Parse([NextPacket(s, number).payload] + tail.payloads, tail.status, tail.rest)
    ensures NextPacket(s, number).BadNumber? ==> ParseStream(s, number, n) == Parse([], Misnumbered, s)
    ensures NextPacket(s, number).Incomplete? ==> ParseStream(s, number, n) == Parse([], Starved, s)
  {
    hide NextPacket;
  }

  /** The one-shot parser recovers exactly the payloads a server framed. */
  lemma {:induction false} StreamParses(payloads: seq<seq<byte>>, number: byte, more: seq<byte>)
    requires forall i :: 0 <= i < |payloads| ==> |payloads[i]| < 0x100_0000
    ensures ParseStream(Stream(payloads, number) + more, number, |payloads|) == Parse(payloads, Done, more)
  {
    if payloads == [] {
      assert Stream(payloads, number) + more == more;
    } else {
      hide NextPacket, Frame;
      var next := (number + 1) % 256;
      var rest := Stream(payloads[1..], next) + more;
      StreamParses(payloads[1..], next, more);
      FrameParses(number, payloads[0], rest);
      Regroup(Frame(number, payloads[0]), Stream(payloads[1..], next), more);
      ParseSteps(Frame(number, payloads[0]) + rest, number, |payloads|);
      assert payloads == [payloads[0]] + payloads[1..];
    }
  }

  /** More bytes never change what the parser made of a stream it did not
      find incomplete. */
  lemma MoreBytesSamePacket(s: seq<byte>, more: seq<byte>, number: byte)
    ensures NextPacket(s, number).BadNumber? ==> NextPacket(s + more, number).BadNumber?
    ensures NextPacket(s, number).Packet? ==>
      NextPacket(s + more, number) == Packet(NextPacket(s, number).payload, NextPacket(s, number).rest + more)
  {
    if |s| >= 4 {
      assert (s + more)[..3] == s[..3];
      var size := LeValue(s[..3]);
      if |s| >= size + 4 {
        assert (s + more)[4..4 + size] == s[4..4 + size];
        assert (s + more)[4 + size..] == s[4 + size..] + more;
      }
    }
  }

  /** How the header decides. */
  lemma HeaderDecides(s: seq<byte>, number: byte)
    ensures |s| < 4 ==> NextPacket(s, number).Incomplete?
    ensures |s| >= 4 ==>
      var size := LeValue(s[0..0 + 3]);
      if |s| < size + 4 then NextPacket(s, number).Incomplete?
      else if s[3] != number then NextPacket(s, number).BadNumber?
      else
        NextPacket(s, number).Packet? && |NextPacket(s, number).payload| == size &&
        s[4..] == NextPacket(s, number).payload + NextPacket(s, number).rest
  {
    hide LeValue;
    assert |s| >= 4 ==> s[0..0 + 3] == s[..3];
  }

  /** A window that lacks bytes of its packet is shorter than the longest packet. */
  lemma IncompleteIsShort(s: seq<byte>, number: byte)
    requires NextPacket(s, number).Incomplete?
    ensures |s| < 0x100_0003
  {
    if |s| >= 4 {
      LeOfValue(s[..3]);
      Spans();
    }
  }

  // ---------------------------------------------------------------- the buffer

  /** The sizes the buffer can take: 2^20 times a power of two, at most 2^26. */
  predicate Allocation(n: nat) {
    n in {0x10_0000, 0x20_0000, 0x40_0000, 0x80_0000, 0x100_0000, 0x200_0000, 0x400_0000}
  }

  /** A buffer that is full behind less than a half of dead space, and holds less
      than one packet, doubles without passing 2^26. */
  lemma DoublingFits(n: nat, dead: nat, held: nat)
    requires Allocation(n) && dead + held == n && dead <= n / 2 && held < 0x100_0003
    ensures Allocation(2 * n) && n < 0x4000_0000
  {
  }

  /** The functions that are pushed beneath packet_read and find its packet in
      the buffer. */
  predicate Consumer(f: StateFn) {
    || f.HandshakeServerRead? || f.HandshakeClientRead? || f.HandshakeResultRead?
    || f.ResultRead? || f.ColumnRead? || f.RowRead? || f.BinlogRead?
  }

  /** A stack that waits for one packet. */
  predicate Waiting(stack: seq<StateFn>) {
    || (|stack| == 2 && stack[0] == PacketRead && Consumer(stack[1]))
    || (|stack| == 3 && stack[0] == Read && stack[1] == PacketRead && Consumer(stack[2]))
  }

  class Connection {
    const socket: Socket
    var buffer: array<byte>
    var bufferPtr: nat
    var bufferSize: nat
    var packetSize: nat
    var packetNumber: byte
    var stack: seq<StateFn>
    const nonBlocking: bool
    /** revents & POLLIN. */
    var readable: bool
    /** The packets given to consumers so far. */
    ghost var delivered: seq<seq<byte>>

    ghost predicate Valid()
      reads this`buffer, this`bufferPtr, this`bufferSize
    {
      Allocation(buffer.Length) && bufferPtr + bufferSize <= buffer.Length
    }

    /** The received bytes that nobody has taken yet. */
    ghost function Window(): (s: seq<byte>)
      reads this`buffer, this`bufferPtr, this`bufferSize, buffer
      requires Valid()
      ensures |s| == bufferSize
    {
      buffer[bufferPtr..bufferPtr + bufferSize]
    }

    /** The rest of the stream: what is in the buffer and what is still to come. */
    ghost function Unread(): (s: seq<byte>)
      reads this`buffer, this`bufferPtr, this`bufferSize, buffer, socket
      requires Valid()
    {
      Window() + socket.incoming
    }

    /** The stack waits for a packet and, if it is about to read, the buffer does
        not hold one. */
    ghost predicate Reading()
      reads this`stack, this`packetNumber, this`buffer, this`bufferPtr, this`bufferSize, buffer
      requires Valid()
    {
      && Waiting(stack)
      && (stack[0] == Read ==> NextPacket(Window(), packetNumber).Incomplete?)
    }

    /** The network has failed, or its outcomes have run out. */
    ghost predicate Cut()
      reads socket`next
    {
      socket.Cut(nonBlocking)
    }

    constructor (socket: Socket, nonBlocking: bool)
      ensures Valid() && this.socket == socket && this.nonBlocking == nonBlocking
      ensures fresh(buffer) && Window() == [] && stack == [] && packetNumber == 0
      ensures delivered == [] && !readable
    {
      this.socket := socket;
      this.nonBlocking := nonBlocking;
      buffer := new byte[0x10_0000];
      bufferPtr, bufferSize, packetSize, packetNumber := 0, 0, 0, 0;
      stack := [];
      readable := false;
      delivered := [];
    }

    /** buffer_ptr[at]. */
    function Get(at: nat): (b: byte)
      reads this`buffer, this`bufferPtr, this`bufferSize, buffer
      requires Valid() && at < bufferSize
      ensures b == Window()[at]
    {
      buffer[bufferPtr + at]
    }

    /** The byte buffer_ptr points at, whether received or left from earlier. */
    function First(): (b: byte)
      reads this`buffer, this`bufferPtr, this`bufferSize, buffer
      requires bufferPtr < buffer.Length
      ensures Valid() && bufferSize > 0 ==> b == Window()[0]
    {
      buffer[bufferPtr]
    }

    /** The k-byte little-endian integer at buffer_ptr + at. */
    function GetLe(at: nat, k: nat): (n: nat)
      reads this`buffer, this`bufferPtr, this`bufferSize, buffer
      requires Valid() && at + k <= bufferSize
      ensures n == LeValue(Window()[at..at + k])
    {
      SliceOfSlice(buffer[..], bufferPtr, bufferSize, at, at + k);
      LeValue(buffer[bufferPtr + at..bufferPtr + at + k])
    }

    /** k bytes at buffer_ptr + at. */
    function Slice(at: nat, k: nat): (s: seq<byte>)
      reads this`buffer, this`bufferPtr, this`bufferSize, buffer
      requires Valid() && at + k <= bufferSize
      ensures s == Window()[at..at + k]
    {
      SliceOfSlice(buffer[..], bufferPtr, bufferSize, at, at + k);
      buffer[bufferPtr + at..bufferPtr + at + k]
    }

    /** Takes k bytes: buffer_ptr and buffer_size move in step. */
    method Advance(k: nat)
      requires Valid() && k <= bufferSize
      modifies this`bufferPtr, this`bufferSize
      ensures Valid() && buffer == old(buffer)
      ensures Window() == old(Window())[k..]
    {
      hide Allocation;
      SliceOfSlice(buffer[..], bufferPtr, bufferSize, k, bufferSize);
      bufferPtr := bufferPtr + k;
      bufferSize := bufferSize - k;
    }

    /** Takes k bytes of the current packet. */
    method Skip(k: nat)
      requires Valid() && k <= bufferSize && k <= packetSize
      modifies this`bufferPtr, this`bufferSize, this`packetSize
      ensures Valid() && Window() == old(Window())[k..] && packetSize == old(packetSize) - k
    {
      hide Window, Allocation;
      Advance(k);
      packetSize := packetSize - k;
    }

    /** Takes k bytes of the current packet and leaves them behind the pointer. */
    method TakeField(k: nat)
      requires Valid() && k <= bufferSize && k <= packetSize
      modifies this`bufferPtr, this`bufferSize, this`packetSize
      ensures Valid() && Window() == old(Window())[k..] && packetSize == old(packetSize) - k
      ensures old(bufferPtr) + k <= buffer.Length
      ensures buffer[old(bufferPtr)..old(bufferPtr) + k] == old(Window())[..k]
    {
      hide Allocation;
      SliceOfSlice(buffer[..], bufferPtr, bufferSize, 0, k);
      ghost var start, window := bufferPtr, Window();
      assert buffer[start..start + k] == window[..k];
      Skip(k);
    }

    /** drizzle_unpack_length: it takes the length it finds and nothing when it has
        to wait.  The packet must cover what it takes. */
    method UnpackLength() returns (r: Unpacked)
      requires Valid() && bufferSize > 0 && packetSize > 0
      requires DecodeLength(Window()).Length? ==> DecodeLength(Window()).used <= packetSize
      modifies this`bufferPtr, this`bufferSize, this`packetSize
      ensures Valid() && buffer == old(buffer) && r == DecodeLength(old(Window()))
      ensures var taken := match r { case Length(_, used) => used case NullSize => 1 case Wait => 0 };
        Window() == old(Window())[taken..] && packetSize == old(packetSize) - taken
    {
      hide LeValue, Window;
      var bytes := 0;
      var first := Get(0);
      if first < 251 {
        r := Length(first, 1);
        bytes := 1;
      } else if first == 251 {
        r := NullSize;
        bytes := 1;
      } else if first == 252 && bufferSize > 2 {
        r := Length(GetLe(1, 2), 3);
        bytes := 3;
      } else if first == 253 && bufferSize > 3 {
        r := Length(GetLe(1, 3), 4);
        bytes := 4;
      } else if bufferSize > 8 {
        r := Length(GetLe(1, 8), 9);
        bytes := 9;
      } else {
        return Wait;
      }
      Advance(bytes);
      packetSize := packetSize - bytes;
    }

    /** memmove of the unread bytes to the front of the buffer. */
    method Compact()
      requires Valid()
      modifies this`bufferPtr, buffer
      ensures Valid() && bufferPtr == 0 && Window() == old(Window())
    {
      hide Allocation;
      ghost var window := Window();
      forall i | 0 <= i < bufferSize {
        buffer[i] := buffer[bufferPtr + i];
      }
      bufferPtr := 0;
      forall i | 0 <= i < bufferSize
        ensures buffer[i] == window[i]
      {
      }
    }

    /** The branch of drizzle_state_read for a full buffer. */
    method Grow()
      requires Valid() && bufferSize > 0
      requires Allocation(2 * buffer.Length)
      modifies this`bufferPtr, this`buffer, buffer
      ensures Valid() && bufferPtr == 0 && Window() == old(Window())
      ensures fresh(buffer) && buffer.Length == 2 * old(buffer.Length)
    {
      if bufferPtr != 0 {
        Compact();
      }
      var larger := new byte[2 * buffer.Length];
      forall i | 0 <= i < buffer.Length {
        larger[i] := buffer[i];
      }
      buffer := larger;
      bufferPtr := 0;
      assert Window() == old(Window());
    }

    /** recv puts its bytes behind the unread ones. */
    method Append(bytes: seq<byte>)
      requires Valid() && bufferPtr + bufferSize + |bytes| <= buffer.Length
      modifies this`bufferSize, buffer
      ensures Valid() && Window() == old(Window()) + bytes
    {
      ghost var window := Window();
      Copy(buffer, bufferPtr + bufferSize, bytes);
      bufferSize := bufferSize + |bytes|;
      assert Window() == window + bytes;
    }

    /** The errno switch of drizzle_state_read; Ok means that recv is called again. */
    method RecvFault(event: RecvEvent) returns (ret: Ret)
      requires !event.Deliver? && stack != []
      modifies this`stack, this`readable
      ensures ret.Ok? || ret.IoWait? ==> stack == old(stack)
      ensures ret == IoWait ==> nonBlocking && !readable
      ensures ret == Ok <==> Again(event, nonBlocking)
      ensures ret.Ok? || ret.IoWait? || (SocketFailure(ret) && Failing(event, nonBlocking))
      ensures readable == (old(readable) && !event.WouldBlock? && !event.Refused?)
      ensures match event
        case WouldBlock(waited) => ret == if nonBlocking then IoWait else if waited then Ok else Timeout
        case Refused => ret == CouldNotConnect && stack == [Connect] + old(stack)[1..]
        case Failed(lost) => ret == (if lost then LostConnection else Errno) && stack == old(stack)
        case _ => ret == Ok
    {
      match event {
        case WouldBlock(waited) =>
          readable := false;
          if nonBlocking {
            return IoWait;
          }
          return if waited then Ok else Timeout;
        case Interrupted =>
          return Ok;
        case Refused =>
          // addrinfo_next is NULL once a connection stands (module Connect)
          readable := false;
          stack := [Connect] + stack[1..];
          return CouldNotConnect;
        case Failed(lost) =>
          return if lost then LostConnection else Errno;
      }
    }

    /** Room behind the unread bytes.  The error for a buffer that is too large does
        not occur. */
    method MakeRoom() returns (ret: Ret, available: nat)
      requires Valid() && bufferSize < 0x100_0003 && bufferPtr <= buffer.Length / 2
      modifies this`buffer, this`bufferPtr, buffer
      ensures Valid() && (buffer == old(buffer) || fresh(buffer)) && Window() == old(Window())
      ensures bufferPtr <= buffer.Length / 2
      ensures ret == Ok && available == buffer.Length - (bufferPtr + bufferSize) > 0
    {
      hide Window;
      available := buffer.Length - (bufferPtr + bufferSize);
      if available == 0 {
        DoublingFits(buffer.Length, bufferPtr, bufferSize);
        if buffer.Length >= 0x4000_0000 {
          ret := InternalError;
          return;
        }
        Grow();
        available := buffer.Length - bufferSize;
      }
      ret := Ok;
    }

    /** The loop of drizzle_state_read: recv until it gives bytes or an outcome
        that ends the call. */
    method Receive() returns (ret: Ret, ghost got: seq<byte>)
      requires Valid() && stack != [] && bufferSize < 0x100_0003
      requires bufferPtr <= buffer.Length / 2
      modifies this`buffer, this`bufferPtr, this`bufferSize, this`stack, this`readable, buffer, socket
      ensures Valid() && (buffer == old(buffer) || fresh(buffer))
      ensures ret == Ok ==> got != [] && stack == old(stack)[1..]
      ensures ret == Ok ==> Window() == old(Window()) + got && old(socket.incoming) == got + socket.incoming
      ensures ret != Ok ==> Window() == old(Window()) && socket.incoming == old(socket.incoming)
      ensures ret == Ok || ret == IoWait ==> socket.Left() < old(socket.Left())
      ensures ret == IoWait ==> nonBlocking && !readable && stack == old(stack)
      ensures ret == Ok && nonBlocking ==> readable == (old(readable) && bufferPtr + bufferSize == buffer.Length)
      ensures ret == Ok || ret == IoWait ==> socket.Ended(old(socket.next), nonBlocking, ret == Ok)
      ensures socket.Left() <= old(socket.Left())
      ensures ret.Ok? || ret.IoWait? || SocketFailure(ret)
      ensures SocketFailure(ret) ==> Cut() || socket.incoming == []
    {
      hide Allocation, Window, Socket.Left, Socket.Cut, Socket.Retried, Socket.Ended, Failing, SocketFailure, Again;
      FailuresAre();
      socket.NoneYet(nonBlocking);
      while true
        invariant Valid() && (buffer == old(buffer) || fresh(buffer))
        invariant Window() == old(Window()) && bufferSize == old(bufferSize)
        invariant bufferPtr <= buffer.Length / 2
        invariant socket.incoming == old(socket.incoming) && stack == old(stack)
        invariant socket.Left() <= old(socket.Left())
        invariant socket.Retried(old(socket.next), nonBlocking)
        invariant nonBlocking ==> readable == old(readable)
        decreases socket.Left()
      {
        var available;
        ret, available := MakeRoom();
        if ret != Ok {
          return ret, [];
        }
        var r := socket.Recv(available, nonBlocking, old(socket.next));
        if r.Eof? {
          return LostConnection, [];
        }
        if r.Data? {
          if |r.bytes| < available {
            readable := false;
          }
          Append(r.bytes);
          stack := stack[1..];
          return Ok, r.bytes;
        }
        ret := RecvFault(r.event);
        if ret != Ok {
          return ret, [];
        }
      }
    }

    /** drizzle_state_read: whatever recv does, the stream of unread bytes is the
        same before and after; on Ok more of it is in the buffer.  The buffer
        never reaches its limit, so `InternalError` does not happen. */
    method StateRead() returns (ret: Ret)
      requires Valid() && stack != [] && stack[0] == Read && bufferSize < 0x100_0003
      modifies this`buffer, this`bufferPtr, this`bufferSize, this`stack, this`readable, buffer, socket
      ensures Valid() && (buffer == old(buffer) || fresh(buffer))
      ensures Unread() == old(Unread())
      ensures ret == Ok ==> bufferSize > old(bufferSize) && stack == old(stack)[1..]
      ensures ret == Ok ==> socket.Left() < old(socket.Left())
      ensures ret == IoWait ==> nonBlocking && !readable && stack == old(stack)
      ensures ret == IoWait && old(readable) ==> socket.Left() < old(socket.Left())
      ensures ret == Ok ==> socket.Ended(old(socket.next), nonBlocking, true)
      ensures nonBlocking && !old(readable) ==> ret == IoWait
      ensures ret != Ok ==> Window() == old(Window())
      ensures socket.Left() <= old(socket.Left())
      ensures ret.Ok? || ret.IoWait? || SocketFailure(ret)
      ensures SocketFailure(ret) ==> Cut() || (socket.incoming == [] && Window() == old(Unread()))
    {
      hide Window, Allocation, Socket.Left, Cut;
      if bufferSize == 0 {
        bufferPtr := 0;
        assert Window() == [] == old(Window());
      } else if bufferPtr > buffer.Length / 2 {
        Compact();
      }
      if !readable && nonBlocking {
        return IoWait;
      }
      ghost var window, got := Window(), [];
      ret, got := Receive();
      if ret == Ok {
        Regroup(window, got, socket.incoming);
      }
    }

    /** drizzle_state_packet_read: it asks for more bytes until the packet it
        announces is complete, then takes the header alone. */
    method StatePacketRead() returns (ret: Ret)
      requires Valid() && stack != [] && stack[0] == PacketRead
      modifies this`stack, this`packetSize, this`packetNumber, this`bufferPtr, this`bufferSize
      ensures Valid() && buffer == old(buffer)
      ensures match NextPacket(old(Window()), old(packetNumber))
        case Incomplete =>
          ret == Ok && stack == [Read] + old(stack) &&
          Window() == old(Window()) && packetNumber == old(packetNumber)
        case BadNumber =>
          ret == BadPacketNumber && stack == old(stack) && Window() == old(Window())
        case Packet(payload, rest) =>
          ret == Ok && stack == old(stack)[1..] && packetNumber == (old(packetNumber) + 1) % 256 &&
          packetSize == |payload| && Window() == payload + rest
    {
      hide Window, NextPacket, LeValue, Allocation;
      HeaderDecides(Window(), packetNumber);
      if bufferSize < 4 {
        stack := [Read] + stack;
        return Ok;
      }
      packetSize := GetLe(0, 3);
      if bufferSize < packetSize + 4 {
        stack := [Read] + stack;
        return Ok;
      }
      if packetNumber != Get(3) {
        return BadPacketNumber;
      }
      packetNumber := (packetNumber + 1) % 256;
      Advance(4);
      stack := stack[1..];
      return Ok;
    }

    /** What drizzle_column_skip does when no state is left. */
    method PushColumnRead()
      requires Valid() && stack == []
      modifies this`stack
      ensures Valid() && Reading() && Unread() == old(Unread())
    {
      stack := [PacketRead] + [ColumnRead];
    }

    /** drizzle_close, as far as the buffer and the stack go. */
    method Close()
      requires Allocation(buffer.Length)
      modifies this`packetNumber, this`bufferPtr, this`bufferSize, this`readable, this`stack
      ensures Valid() && stack == [] && Window() == [] && packetNumber == 0 && !readable
    {
      packetNumber := 0;
      bufferPtr := 0;
      bufferSize := 0;
      readable := false;
      stack := [];
    }

    /** The loop waits for the first packet of `stream`, or has just got it. */
    ghost predicate Awaiting(stream: seq<byte>, number: byte, consumer: StateFn)
      reads this`stack, this`packetSize, this`packetNumber, this`buffer, this`bufferPtr, this`bufferSize, buffer, socket
      requires Valid()
    {
      && stack != [] && stack[|stack| - 1] == consumer && Consumer(consumer)
      && if |stack| > 1 then Reading() && Unread() == stream && packetNumber == number
         else
           packetSize <= bufferSize && packetNumber == (number + 1) % 256 &&
           NextPacket(stream, number) == Packet(Window()[..packetSize], Window()[packetSize..] + socket.incoming)
    }

    /** One round of drizzle_state_loop beneath which a consumer waits. */
    method AwaitMore(ghost stream: seq<byte>, ghost number: byte, ghost consumer: StateFn) returns (ret: Ret)
      requires Valid() && Awaiting(stream, number, consumer) && |stack| > 1
      modifies this`buffer, this`bufferPtr, this`bufferSize, this`packetSize, this`packetNumber, this`stack, this`readable
      modifies buffer, socket
      ensures Valid() && (buffer == old(buffer) || fresh(buffer))
      ensures ret == Ok || ret == IoWait ==> Awaiting(stream, number, consumer)
      ensures ret == Ok ==>
        socket.Left() < old(socket.Left()) || (readable == old(readable) && (|stack| == 1 || |stack| == 3 > old(|stack|)))
      ensures ret == IoWait ==>
        |stack| > 1 && nonBlocking && !readable && (old(readable) ==> socket.Left() < old(socket.Left()))
      ensures nonBlocking && !old(readable) && old(stack)[0] == Read ==> ret == IoWait
      ensures old(stack)[0] != Read && NextPacket(old(Window()), number).Packet? ==> ret == Ok && |stack| == 1
      ensures old(stack)[0] != Read && NextPacket(old(Window()), number).Incomplete? ==>
        ret == Ok && |stack| > 1 && Window() == old(Window()) && readable == old(readable)
      ensures ret == BadPacketNumber ==> NextPacket(stream, number).BadNumber?
      ensures ret.Ok? || ret.IoWait? || ret.BadPacketNumber? || SocketFailure(ret)
      ensures SocketFailure(ret) ==> Cut() || NextPacket(stream, number).Incomplete?
      ensures socket.Left() <= old(socket.Left())
    {
      hide NextPacket, Allocation, Window, Socket.Left, Cut, Consumer;
      if stack[0] == Read {
        IncompleteIsShort(Window(), packetNumber);
        ret := StateRead();
      } else {
        MoreBytesSamePacket(Window(), socket.incoming, packetNumber);
        ret := StatePacketRead();
      }
    }

    /** A connection that does not block, has nothing to read, and lacks bytes of the
        next packet. */
    ghost predicate TooSoon()
      reads this`readable, this`packetNumber, this`buffer, this`bufferPtr, this`bufferSize, buffer
      requires Valid()
    {
      nonBlocking && !readable && NextPacket(Window(), packetNumber).Incomplete?
    }

    /** The next packet is all in the buffer. */
    ghost predicate AllThere()
      reads this`packetNumber, this`buffer, this`bufferPtr, this`bufferSize, buffer
      requires Valid()
    {
      NextPacket(Window(), packetNumber).Packet?
    }

    /** drizzle_state_loop on a stack that waits for a packet, fresh or resumed,
        up to the moment the consumer is on top.  It then has the packet the
        one-shot parser finds at the head of the stream, and has all of it:
        its branch for a packet that is not all there is never taken.  IoWait
        leaves everything to be resumed. */
    method AwaitPacket() returns (ret: Ret)
      requires Valid() && Reading()
      modifies this`buffer, this`bufferPtr, this`bufferSize, this`packetSize, this`packetNumber, this`stack, this`readable
      modifies buffer, socket
      ensures Valid() && (buffer == old(buffer) || fresh(buffer))
      ensures ret == Ok ==>
        stack == [old(stack)[|old(stack)| - 1]] && packetNumber == (old(packetNumber) + 1) % 256 &&
        packetSize <= bufferSize &&
        NextPacket(old(Unread()), old(packetNumber)) ==
          Packet(Window()[..packetSize], Window()[packetSize..] + socket.incoming)
      ensures ret == BadPacketNumber ==> NextPacket(old(Unread()), old(packetNumber)).BadNumber?
      ensures ret == IoWait ==>
        Reading() && nonBlocking && !readable && Unread() == old(Unread()) && packetNumber == old(packetNumber) &&
        stack[|stack| - 1] == old(stack)[|old(stack)| - 1] &&
        (old(readable) ==> socket.Left() < old(socket.Left()))
      ensures !ret.Ok? && !ret.IoWait? ==> stack == []
      ensures ret.Ok? || ret.IoWait? || ret.BadPacketNumber? || SocketFailure(ret)
      ensures SocketFailure(ret) ==> Cut() || NextPacket(old(Unread()), old(packetNumber)).Incomplete?
      ensures old(AllThere()) ==> ret == Ok
      ensures old(TooSoon()) ==> ret == IoWait
      ensures socket.Left() <= old(socket.Left())
    {
      hide NextPacket, Allocation, Window, Unread, Socket.Left, Cut;
      ReadingIsWaiting();
      ghost var stream, number, consumer := Unread(), packetNumber, stack[|stack| - 1];
      ghost var window := Window();
      ghost var whole, waits := AllThere(), TooSoon();
      while |stack| > 1
        invariant Valid() && (buffer == old(buffer) || fresh(buffer))
        invariant socket.Left() <= old(socket.Left())
        invariant readable == old(readable) || socket.Left() < old(socket.Left())
        invariant Awaiting(stream, number, consumer)
        invariant whole && |stack| > 1 ==> stack[0] != Read && Window() == window
        invariant waits ==> |stack| > 1 && !readable && Window() == window
        decreases socket.Left(), if |stack| == 1 then 0 else if |stack| == 3 then 1 else 2
      {
        ret := AwaitMore(stream, number, consumer);
        if ret != Ok {
          if ret != IoWait {
            Close();
          }
          return;
        }
      }
      return Ok;
    }

    /** A consumer, seen from the buffer: it takes the announced packet, all of it
        and nothing else.  drizzle_state_column_read does exactly this for a
        skipped column; for the others see module Consume. */
    method TakePacket()
      requires Valid() && stack != [] && Consumer(stack[0]) && packetSize <= bufferSize
      modifies this`stack, this`packetSize, this`bufferPtr, this`bufferSize, this`delivered
      ensures Valid() && buffer == old(buffer) && stack == old(stack)[1..] && packetSize == 0
      ensures delivered == old(delivered) + [old(Window()[..packetSize])]
      ensures Window() == old(Window()[packetSize..])
    {
      delivered := delivered + [Window()[..packetSize]];
      Advance(packetSize);
      packetSize := 0;
      stack := stack[1..];
    }

    /** drizzle_state_loop for a packet that its consumer takes whole.  It returns
        Ok with an empty stack only. */
    method StateLoop() returns (ret: Ret)
      requires Valid() && Reading()
      modifies this, buffer, socket
      ensures Valid() && (buffer == old(buffer) || fresh(buffer))
      ensures ret == Ok ==>
        stack == [] && packetNumber == (old(packetNumber) + 1) % 256 &&
        NextPacket(old(Unread()), old(packetNumber)).Packet? &&
        delivered == old(delivered) + [NextPacket(old(Unread()), old(packetNumber)).payload] &&
        Unread() == NextPacket(old(Unread()), old(packetNumber)).rest
      ensures ret == BadPacketNumber ==> NextPacket(old(Unread()), old(packetNumber)).BadNumber?
      ensures ret == IoWait ==>
        Reading() && nonBlocking && !readable && Unread() == old(Unread()) && packetNumber == old(packetNumber) &&
        (old(readable) ==> socket.Left() < old(socket.Left()))
      ensures ret != Ok ==> delivered == old(delivered)
      ensures !ret.Ok? && !ret.IoWait? ==> stack == []
      ensures ret.Ok? || ret.IoWait? || ret.BadPacketNumber? || SocketFailure(ret)
      ensures SocketFailure(ret) ==> Cut() || NextPacket(old(Unread()), old(packetNumber)).Incomplete?
      ensures socket.Left() <= old(socket.Left())
    {
      hide NextPacket, Allocation, Window, Reading, Socket.Left, Cut;
      ReadingIsWaiting();
      ret := AwaitPacket();
      if ret == Ok {
        TakePacket();
      }
    }

    lemma ReadingIsWaiting()
      requires Valid() && Reading()
      ensures Waiting(stack)
    {
    }
  }

  /** `got` has been handed over of the parse p of a whole stream, `left` packets are
      still to come, and `tail` is their parse. */
  ghost predicate ReceivedTo(con: Connection, p: Parse, got: seq<seq<byte>>, left: nat)
    reads con`buffer, con`bufferPtr, con`bufferSize, con`packetNumber, con`stack, con.buffer, con.socket
  {
    && con.Valid() && (con.stack == [] || con.Reading())
    && var tail := ParseStream(con.Unread(), con.packetNumber, left);
      p == Parse(got + tail.payloads, tail.status, tail.rest)
  }

  /** One call of the loop, which begins a packet or resumes one. */
  method ReceiveNext(con: Connection, ghost p: Parse, ghost got: seq<seq<byte>>, ghost left: nat)
    returns (ret: Ret, ghost more: seq<seq<byte>>)
    requires ReceivedTo(con, p, got, left) && left > 0
    modifies con, con.buffer, con.socket
    ensures con.Valid() && (con.buffer == old(con.buffer) || fresh(con.buffer))
    ensures ret == Ok ==> |more| == 1 && ReceivedTo(con, p, got + more, left - 1) && con.stack == []
    ensures ret == Ok ==> got + more <= p.payloads
    ensures ret == IoWait ==>
      ReceivedTo(con, p, got, left) && !con.readable &&
      (old(con.readable) ==> con.socket.Left() < old(con.socket.Left()))
    ensures ret != Ok ==> more == []
    ensures con.delivered == old(con.delivered) + more
    ensures ret == BadPacketNumber ==> p.status.Misnumbered? && p.payloads == got
    ensures SocketFailure(ret) ==> con.Cut() || (p.status.Starved? && p.payloads == got)
    ensures ret.Ok? || ret.IoWait? || ret.BadPacketNumber? || SocketFailure(ret)
    ensures !ret.Ok? && !ret.IoWait? ==> con.stack == []
    ensures con.socket.Left() <= old(con.socket.Left())
  {
    hide NextPacket, ParseStream, Connection.Window, Connection.Unread, Connection.Reading, Allocation;
    hide Socket.Left, Connection.Cut;
    if con.stack == [] {
      con.PushColumnRead();
    }
    more := [];
    ghost var stream, number := con.Unread(), con.packetNumber;
    ParseSteps(stream, number, left);
    assert got + [] == got;
    ret := con.StateLoop();
    if ret == Ok {
      more := [NextPacket(stream, number).payload];
      ghost var tail := ParseStream(con.Unread(), con.packetNumber, left - 1);
      Regroup(got, more, tail.payloads);
    }
  }

  /** Chunk independence.  A caller fetches n packets one after another, waits
      for the socket and resumes the loop whenever it is told to.  However recv
      cuts the stream and wherever the loop is interrupted, the payloads handed
      over are those of the one-shot parse of the whole stream, in order; the
      run ends early only for a packet number the parser rejects as well, for a
      stream that ends too soon, or because the network failed. */
  method ReceivePackets(con: Connection, n: nat) returns (ret: Ret, ghost got: seq<seq<byte>>)
    requires con.Valid() && con.stack == []
    modifies con, con.buffer, con.socket
    ensures con.Valid() && con.stack == []
    ensures con.delivered == old(con.delivered) + got
    ensures var p := ParseStream(old(con.Unread()), old(con.packetNumber), n);
      && got <= p.payloads
      && (ret == Ok ==> p.status.Done? && got == p.payloads && con.Unread() == p.rest)
      && (ret == BadPacketNumber ==> p.status.Misnumbered? && got == p.payloads)
      && (SocketFailure(ret) ==> con.Cut() || (p.status.Starved? && got == p.payloads))
    ensures ret.Ok? || ret.BadPacketNumber? || SocketFailure(ret)
  {
    hide NextPacket, ParseStream, Connection.Window, Connection.Unread, Connection.Reading, Allocation;
    hide Socket.Left, Connection.Cut, ReceivedTo;
    ghost var before, p := con.delivered, ParseStream(con.Unread(), con.packetNumber, n);
    got := [];
    ReceivedBegins(con, n);
    var left := n;
    while left > 0
      invariant con.Valid() && ReceivedTo(con, p, got, left) && got <= p.payloads
      invariant con.buffer == old(con.buffer) || fresh(con.buffer)
      invariant con.delivered == before + got && (left == 0 ==> con.stack == [])
      decreases left, con.socket.Left(), if con.readable then 0 else 1
    {
      ghost var more;
      ret, more := ReceiveNext(con, p, got, left);
      Regroup(before, got, more);
      assert got + [] == got;
      got := got + more;
      if ret == IoWait {
        con.readable := true;
      } else if ret != Ok {
        return;
      } else {
        left := left - 1;
      }
    }
    ret := Ok;
    ReceivedEnds(con, p, got);
  }

  lemma ReceivedBegins(con: Connection, n: nat)
    requires con.Valid() && con.stack == []
    ensures ReceivedTo(con, ParseStream(con.Unread(), con.packetNumber, n), [], n)
  {
    hide ParseStream;
    var p := ParseStream(con.Unread(), con.packetNumber, n);
    assert p == Parse([] + p.payloads, p.status, p.rest);
  }

  lemma ReceivedEnds(con: Connection, p: Parse, got: seq<seq<byte>>)
    requires ReceivedTo(con, p, got, 0)
    ensures p.status.Done? && p.payloads == got && p.rest == con.Unread()
  {
    assert got + [] == got;
  }
}
