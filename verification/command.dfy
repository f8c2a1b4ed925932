/** The write side: command framing (drizzle_state_command_write of
    src/command.cc, drizzle_command_write of src/conn.cc) and partial sends
    (drizzle_state_write of src/conn.cc). */
module Command {
  import opened Bytes
  import opened StateStack
  import opened Connection

  /** What one send does, chosen by the network.  Accept(n) takes n bytes, or all
      of them when there are fewer; NotNow tells whether the wait that follows it in
      blocking mode succeeds, Broken whether the peer dropped the connection. */
  datatype SendEvent = Accept(n: nat) | NotNow(waited: bool) | Signalled | Broken(lost: bool)

  datatype Sent = Wrote(n: nat) | Stopped(event: SendEvent)

  /** An outcome after which the network is no longer to be had.  Without blocking no
      wait follows a send that would block. */
  predicate SendFailing(event: SendEvent, nonBlocking: bool) {
    event in {Broken(true), Broken(false)} || (event == NotNow(false) && !nonBlocking)
  }

  /** An outcome after which send is called again while there are bytes. */
  predicate GoesOn(event: SendEvent, nonBlocking: bool) {
    event.Accept? || event.Signalled? || (event == NotNow(true) && !nonBlocking)
  }

  /** The server's end: the bytes that reached it and the outcomes of all calls, past
      and to come.  The connection counts as dropped when the outcomes run out. */
  class Peer {
    var sent: seq<byte>
    const plan: seq<SendEvent>
    /** The calls made so far. */
    var next: nat

    /** The outcomes to come. */
    function Left(): nat
      reads this`next
    {
      if next < |plan| then |plan| - next else 0
    }

    /** The outcomes have run out, or one of those that came was a failure. */
    ghost predicate Cut(nonBlocking: bool)
      reads this`next
    {
      next >= |plan| || exists i :: 0 <= i < next && SendFailing(plan[i], nonBlocking)
    }

    /** Nothing from outcome `since` on kept send from being called again. */
    ghost predicate WentOn(since: nat, nonBlocking: bool)
      reads this`next
    {
      since <= next && forall i :: since <= i < next && i < |plan| ==> GoesOn(plan[i], nonBlocking)
    }

    constructor (plan: seq<SendEvent>)
      ensures sent == [] && this.plan == plan && next == 0
    {
      sent := [];
      this.plan := plan;
      next := 0;
    }

    lemma NothingYet(nonBlocking: bool)
      ensures WentOn(next, nonBlocking)
    {
    }

    method Send(data: seq<byte>, ghost nonBlocking: bool, ghost since: nat) returns (r: Sent)
      requires WentOn(since, nonBlocking)
      modifies this
      ensures r.Wrote? || GoesOn(r.event, nonBlocking) ==> WentOn(since, nonBlocking)
      ensures next >= old(next) && Left() <= old(Left())
      ensures r != Stopped(Broken(true)) ==> Left() < old(Left())
      ensures match r
        case Wrote(n) => n <= |data| && sent == old(sent) + data[..n]
        case Stopped(event) => !event.Accept? && sent == old(sent) && (SendFailing(event, nonBlocking) ==> Cut(nonBlocking))
    {
      if next >= |plan| {
        return Stopped(Broken(true));
      }
      var event := plan[next];
      next := next + 1;
      assert event == plan[next - 1];
      if !event.Accept? {
        return Stopped(event);
      }
      var n := if event.n < |data| then event.n else |data|;
      sent := sent + data[..n];
      return Wrote(n);
    }
  }

  const FIELD_LIST: byte := 4
  const CHANGE_USER: byte := 17

  /** What goes in front of a command's data: packet length, packet number, command. */
  function Header(command: byte, total: nat): (s: seq<byte>)
    ensures |s| == 5
  {
    Le(1 + total, 3) + [0, command]
  }

  function CommandBytes(command: byte, data: seq<byte>): seq<byte> {
    Header(command, |data|) + data
  }

  /** Where buffer_ptr points: into the connection's buffer, or at what is left of
      the caller's data. */
  datatype Pointer = InBuffer(at: nat) | InCaller(rest: seq<byte>)

  /** What drizzle_state_command_write still has to pass on of the data it was
      given: all of it, behind the header when nothing has been passed on yet. */
  function Owed(stack: seq<StateFn>, command: byte, data: Option<seq<byte>>, offset: nat, total: nat): seq<byte> {
    if CommandWrite !in stack then []
    else if total == 0 then Header(command, 0)
    else if data.None? then []
    else if offset == 0 then Header(command, total) + data.value
    else data.value
  }

  function Size(data: Option<seq<byte>>): nat {
    match data
    case None => 0
    case Some(d) => |d|
  }

  class Writer {
    const peer: Peer
    const buffer: array<byte>
    const user: seq<byte>
    const db: seq<byte>
    const nonBlocking: bool
    const noResultRead: bool
    var bufferPtr: Pointer
    var bufferSize: nat
    var packetSize: nat
    var packetNumber: byte
    var command: byte
    /** command_data with command_size bytes behind it; None for NULL. */
    var commandData: Option<seq<byte>>
    var commandOffset: nat
    var commandTotal: nat
    var stack: seq<StateFn>

    constructor (peer: Peer, user: seq<byte>, db: seq<byte>, nonBlocking: bool, noResultRead: bool)
      requires |user| < 64 && |db| < 64
      ensures Valid() && Idle() && this.peer == peer && this.user == user && this.db == db
      ensures this.nonBlocking == nonBlocking && this.noResultRead == noResultRead
    {
      this.peer := peer;
      this.user := user;
      this.db := db;
      this.nonBlocking := nonBlocking;
      this.noResultRead := noResultRead;
      buffer := new byte[0x10_0000];
      bufferPtr, bufferSize, packetSize, packetNumber := InBuffer(0), 0, 0, 0;
      command, commandData, commandOffset, commandTotal := 0, None, 0, 0;
      stack := [];
    }

    ghost predicate Valid()
      reads this`bufferPtr, this`bufferSize
    {
      && |user| < 64 && |db| < 64 && buffer.Length >= 0x10_0000
      && match bufferPtr
         case InBuffer(at) => at + bufferSize <= buffer.Length
         case InCaller(rest) => |rest| == bufferSize
    }

    /** The network has failed, or its outcomes have run out. */
    ghost predicate Cut()
      reads peer`next
    {
      peer.Cut(nonBlocking)
    }

    /** No command is in progress and the buffer is empty. */
    predicate Idle()
      reads this`stack, this`bufferSize
    {
      stack == [] && bufferSize == 0
    }

    /** The bytes between buffer_ptr and its end. */
    ghost function Pending(): (s: seq<byte>)
      reads this`bufferPtr, this`bufferSize, buffer
      requires Valid()
      ensures |s| == bufferSize
    {
      match bufferPtr
      case InBuffer(at) => buffer[at..at + bufferSize]
      case InCaller(rest) => rest
    }

    /** Everything the server is to get of what has been given so far: what it has,
        what is on its way and what is still with the caller. */
    ghost function Wire(): seq<byte>
      reads this`bufferPtr, this`bufferSize, buffer, peer
      reads this`stack, this`command, this`commandData, this`commandOffset, this`commandTotal
      requires Valid()
    {
      peer.sent + Pending() + Owed(stack, command, commandData, commandOffset, commandTotal)
    }

    /** The states that wait for the reply. */
    function Reply(): seq<StateFn>
      reads this`command
    {
      if !noResultRead && command != FIELD_LIST then [PacketRead, ResultRead] else []
    }

    /** A command is being written.  From its header on, its reply carries number 1. */
    ghost predicate Writing()
      reads this`stack, this`command, this`commandData, this`commandOffset, this`commandTotal
      reads this`bufferPtr, this`bufferSize, this`packetNumber
    {
      && Valid()
      && (stack == [CommandWrite] || stack == [Write, CommandWrite] || stack == [Write] + Reply())
      && command != CHANGE_USER && 1 + commandTotal < 0x100_0000
      && (CommandWrite in stack ==>
            commandOffset + Size(commandData) <= commandTotal && (commandTotal > 0 ==> commandOffset < commandTotal))
      && (stack == [CommandWrite] && bufferSize > 0 ==> bufferPtr.InBuffer? && commandOffset == 0)
      && (packetNumber == 1 || (CommandWrite in stack && commandOffset == 0))
    }

    /** How many steps the state loop has at most before it. */
    ghost function Rank(): nat
      reads this`stack, this`commandData, this`commandOffset, this`commandTotal, this`bufferSize
    {
      var headerDue := commandTotal == 0 || (commandData.Some? && commandOffset == 0);
      if CommandWrite !in stack then (if stack != [] && stack[0] == Write then 1 else 0)
      else if stack == [CommandWrite] then
        (if headerDue then (if bufferSize == 0 then 6 else 8) else if commandData.None? then 2 else 4)
      else (if headerDue then 7 else if commandData.None? then 3 else 5)
    }

    /** drizzle_state_write: however send cuts the bytes, they go out in order, and
        Ok means that all of them did. */
    method StateWrite() returns (ret: Ret)
      requires Valid() && stack != [] && stack[0] == Write
      modifies this`bufferPtr, this`bufferSize, this`stack, peer
      ensures Valid() && peer.sent + Pending() == old(peer.sent + Pending())
      ensures ret == Ok ==> bufferSize == 0 && bufferPtr == InBuffer(0) && stack == old(stack)[1..]
      ensures ret != Ok ==> stack == old(stack)
      ensures ret == Ok ==> peer.WentOn(old(peer.next), nonBlocking)
      ensures ret == IoWait ==> nonBlocking && peer.Left() < old(peer.Left())
      ensures peer.Left() <= old(peer.Left())
      ensures ret.Ok? || ret.IoWait? || SocketFailure(ret)
      ensures SocketFailure(ret) ==> Cut()
    {
      hide Pending, Peer.Left, Peer.Cut, Peer.WentOn;
      peer.NothingYet(nonBlocking);
      while bufferSize != 0
        invariant Valid() && stack == old(stack)
        invariant peer.sent + Pending() == old(peer.sent + Pending())
        invariant peer.Left() <= old(peer.Left()) && peer.WentOn(old(peer.next), nonBlocking)
        modifies this`bufferPtr, this`bufferSize, peer
        decreases peer.Left()
      {
        ghost var before, pending := peer.sent, Pending();
        var r := peer.Send(Front(), nonBlocking, old(peer.next));
        match r {
          case Wrote(n) =>
            Skip(n);
            CutAt(before, pending, n);
          case Stopped(event) =>
            match event {
              case NotNow(waited) =>
                if nonBlocking {
                  return IoWait;
                }
                if !waited {
                  return Timeout;
                }
              case Signalled =>
              case Broken(lost) =>
                return if lost then LostConnection else Errno;
            }
        }
      }
      bufferPtr := InBuffer(0);
      stack := stack[1..];
      return Ok;
    }

    /** The bytes handed to send. */
    function Front(): (s: seq<byte>)
      reads this`bufferPtr, this`bufferSize, buffer
      requires Valid()
      ensures s == Pending()
    {
      match bufferPtr
      case InBuffer(at) => buffer[at..at + bufferSize]
      case InCaller(rest) => rest
    }

    method Skip(n: nat)
      requires Valid() && n <= bufferSize
      modifies this`bufferPtr, this`bufferSize
      ensures Valid() && Pending() == old(Pending())[n..]
    {
      match bufferPtr {
        case InBuffer(at) => bufferPtr := InBuffer(at + n);
        case InCaller(rest) => bufferPtr := InCaller(rest[n..]);
      }
      bufferSize := bufferSize - n;
    }

    /** What is left of the data given. */
    ghost function Rest(): seq<byte>
      reads this`commandData, this`commandTotal
    {
      if commandTotal == 0 || commandData.None? then [] else commandData.value
    }

    /** Copies as much of the data as fits behind the header. */
    method CopyData(ptr: nat, freeSize: nat) returns (ghost taken: seq<byte>)
      requires commandOffset == 0 && commandData.Some? && ptr + freeSize == buffer.Length && freeSize > 0
      modifies this`bufferSize, this`commandData, this`commandOffset, buffer
      ensures ptr + |taken| <= buffer.Length && buffer[..] == Splice(old(buffer[..]), ptr, taken)
      ensures bufferSize == old(bufferSize) + 5 + |taken| && commandOffset == |taken|
      ensures old(commandData).value == if commandData.None? then taken else taken + commandData.value
      ensures commandData.Some? ==> commandOffset > 0 && commandData.value != []
    {
      hide Splice;
      var data := commandData.value;
      if |data| <= freeSize {
        taken := data;
        Copy(buffer, ptr, data);
        commandOffset := |data|;
        commandData := None;
        bufferSize := bufferSize + 5 + |data|;
      } else {
        taken := data[..freeSize];
        Copy(buffer, ptr, data[..freeSize]);
        commandOffset := freeSize;
        commandData := Some(data[freeSize..]);
        bufferSize := bufferSize + 5 + freeSize;
      }
    }

    /** The part of drizzle_state_command_write that writes the header at `start`
        and what fits of the data behind it. */
    method Frame(start: nat) returns (ghost taken: seq<byte>)
      requires Valid() && bufferPtr.InBuffer? && start == bufferPtr.at + bufferSize && start + 24 <= buffer.Length
      requires commandOffset == 0 && (commandData.None? ==> commandTotal == 0)
      modifies this`bufferSize, this`packetSize, this`commandData, this`commandOffset, buffer
      ensures Valid() && commandOffset == |taken|
      ensures Pending() == old(Pending()) + (Header(command, commandTotal) + taken)
      ensures old(Rest()) == taken + Rest()
      ensures commandTotal > 0 && commandData.Some? ==> commandOffset > 0 && commandData.value != []
      ensures commandTotal == 0 ==> commandOffset == 0
    {
      hide Splice, Le, Header, Pending;
      ghost var before, at := buffer[..], bufferPtr.at;
      PendingIs(at);
      Copy(buffer, start + 3, [0, command]);
      taken := [];
      if commandTotal == 0 {
        packetSize := 1;
        bufferSize := bufferSize + 5;
        assert [0, command] + taken == [0, command];
      } else {
        packetSize := 1 + commandTotal;
        taken := CopyData(start + 5, buffer.Length - (start + 5));
        SpliceTwice(before, start + 3, [0, command], taken);
      }
      Copy(buffer, start, Le(packetSize, 3));
      Framed(before, at, start, command, commandTotal, taken);
      PendingIs(at);
      assert taken + [] == taken;
    }

    lemma PendingIs(at: nat)
      requires Valid() && bufferPtr == InBuffer(at)
      ensures Pending() == buffer[..][at..at + bufferSize]
    {
    }

    /** The part of drizzle_state_command_write that sends the rest of the data from
        where the caller has it. */
    method Direct()
      requires Valid() && commandData.Some?
      modifies this`bufferPtr, this`bufferSize, this`commandData, this`commandOffset
      ensures Valid() && Pending() == old(commandData).value
      ensures commandData == None && commandOffset == old(commandOffset + Size(commandData))
    {
      bufferPtr := InCaller(commandData.value);
      bufferSize := |commandData.value|;
      commandOffset := commandOffset + |commandData.value|;
      commandData := None;
    }

    /** The stack behind a step that has passed on data. */
    method PassedOn()
      requires Valid() && stack == [CommandWrite] && command != CHANGE_USER && 1 + commandTotal < 0x100_0000
      requires commandOffset + |Rest()| <= commandTotal && packetNumber == 1
      requires commandTotal > 0 && commandData.Some? ==> commandOffset > 0
      modifies this`stack
      ensures Writing() && Owed(stack, command, commandData, commandOffset, commandTotal) == Rest()
      ensures stack[0] == Write && (CommandWrite in stack <==> commandOffset != commandTotal)
      ensures Rank() == if commandOffset == commandTotal then 1 else if commandData.None? then 3 else 5
    {
      if commandOffset == commandTotal {
        stack := stack[1..];
        if !noResultRead && command != FIELD_LIST {
          stack := [ResultRead] + stack;
          stack := [PacketRead] + stack;
        }
        assert stack == Reply();
      }
      stack := [Write] + stack;
      assert CommandWrite in stack ==> stack == [Write, CommandWrite];
    }

    /** The middle of drizzle_state_command_write: header and data, if there is
        room for them, or data alone. */
    method PassOn() returns (room: bool)
      requires Valid() && stack == [CommandWrite] && (commandData.None? ==> commandTotal == 0)
      requires bufferSize > 0 ==> bufferPtr.InBuffer? && commandOffset == 0
      requires commandOffset + Size(commandData) <= commandTotal
      modifies this`bufferPtr, this`bufferSize, this`packetSize, this`packetNumber
      modifies this`commandData, this`commandOffset, buffer
      ensures Valid()
      ensures !room ==> Pending() == old(Pending()) && bufferSize == old(bufferSize) > 0
      ensures !room <==> old(bufferSize > 0 && buffer.Length - bufferPtr.at - bufferSize < 24 + |user| + |db|)
      ensures if room && old(commandOffset) == 0 then packetNumber == 1 else packetNumber == old(packetNumber)
      ensures !room ==> commandData == old(commandData) && commandOffset == old(commandOffset) == 0
      ensures room ==>
        Pending() + Rest() == old(Pending() + Owed(stack, command, commandData, commandOffset, commandTotal))
      ensures room ==> commandOffset + |Rest()| == old(commandOffset + |Rest()|)
      ensures room && commandTotal > 0 && commandData.Some? ==> commandOffset > 0 == old(commandOffset) && commandData.value != []
    {
      hide Header, Pending;
      room := true;
      var start;
      if bufferSize == 0 {
        bufferPtr := InBuffer(0);
        start := 0;
      } else {
        start := bufferPtr.at + bufferSize;
      }
      ghost var pending, given := Pending(), Rest();
      assert commandOffset > 0 ==> pending == [];
      if commandOffset == 0 {
        packetSize := 1 + |user| + 1 + 1 + 20 + |db| + 1;
        var freeSize := buffer.Length - start;
        if freeSize < packetSize {
          return false;
        }
        packetNumber := 1;
        ghost var taken := Frame(start);
        Assembled(pending, Header(command, commandTotal), taken, Rest(), given);
      } else {
        Assembled([], [], given, [], given);
        Direct();
      }
    }

    /** drizzle_state_command_write: what the buffer holds next and what is then
        still owed is what was owed before. */
    method StateCommandWrite() returns (ret: Ret)
      requires Writing() && stack == [CommandWrite]
      modifies this`bufferPtr, this`bufferSize, this`packetSize, this`packetNumber
      modifies this`commandData, this`commandOffset, this`stack, buffer
      ensures Writing() && Wire() == old(Wire())
      ensures ret == Pause <==> old(commandData).None? && commandTotal != 0
      ensures ret == Pause ==>
        stack == old(stack) && commandOffset == old(commandOffset) && commandData.None? && bufferSize == old(bufferSize)
      ensures ret == Pause || ret == Ok
      ensures ret == Ok ==> stack[0] == Write && Rank() < old(Rank())
      ensures ret == Ok && CommandWrite in stack ==> commandOffset + |Rest()| == old(commandOffset + |Rest()|)
      ensures ret == Ok && CommandWrite !in stack ==> old(commandOffset + |Rest()|) == commandTotal
      ensures ret == Ok && old(bufferSize) == 0 && commandTotal > 0 && commandData.Some? ==>
        commandOffset > 0 && commandData.value != []
    {
      hide Header, Pending;
      if commandData.None? && commandTotal != 0 {
        return Pause;
      }
      ghost var pending, owed := Pending(), Owed(stack, command, commandData, commandOffset, commandTotal);
      var room := PassOn();
      if room {
        Regroup(peer.sent, pending, owed);
        Regroup(peer.sent, Pending(), Rest());
        PassedOn();
      } else {
        stack := [Write] + stack;
        assert stack == [Write, CommandWrite];
      }
      return Ok;
    }

    /** drizzle_close, as far as the write side goes. */
    method Close()
      requires Valid()
      modifies this`bufferPtr, this`bufferSize, this`packetNumber, this`stack
      ensures Valid() && Idle() && packetNumber == 0
    {
      packetNumber := 0;
      bufferPtr := InBuffer(0);
      bufferSize := 0;
      stack := [];
    }

    /** Writing, with an empty buffer before each step that fills it. */
    ghost predicate Sending()
      reads this`stack, this`command, this`commandData, this`commandOffset, this`commandTotal
      reads this`bufferPtr, this`bufferSize, this`packetNumber
    {
      Writing() && (stack == [CommandWrite] ==> bufferSize == 0)
    }

    /** drizzle_state_write on the stack of a command. */
    method WriteStep() returns (ret: Ret)
      requires Writing() && stack[0] == Write
      modifies this`bufferPtr, this`bufferSize, this`stack, peer
      ensures Valid() && Wire() == old(Wire()) && peer.Left() <= old(peer.Left())
      ensures CommandWrite in stack <==> CommandWrite in old(stack)
      ensures ret == Ok ==> bufferSize == 0 && Rank() < old(Rank())
      ensures ret == Ok ==> if CommandWrite in stack then Sending() && stack == [CommandWrite] else stack == Reply() && packetNumber == 1
      ensures ret == IoWait ==> Sending() && nonBlocking && peer.Left() < old(peer.Left())
      ensures ret.Ok? || ret.IoWait? || SocketFailure(ret)
      ensures SocketFailure(ret) ==> Cut()
    {
      hide Pending, Header, Peer.Left, Writer.Cut;
      assert ([Write] + Reply())[1..] == Reply() && [Write, CommandWrite][1..] == [CommandWrite];
      Shapes();
      SameOwed(stack, stack[1..], command, commandData, commandOffset, commandTotal);
      ret := StateWrite();
    }

    /** One step of the state loop while a command is written. */
    method Step() returns (ret: Ret)
      requires Valid() && Sending()
      modifies this`bufferPtr, this`bufferSize, this`packetSize, this`packetNumber
      modifies this`commandData, this`commandOffset, this`stack, buffer, peer
      ensures Valid() && Wire() == old(Wire()) && peer.Left() <= old(peer.Left())
      ensures ret == Ok ==> Rank() < old(Rank())
      ensures ret == Ok ==> Sending() || (stack == Reply() && bufferSize == 0 && packetNumber == 1 && CommandWrite !in stack)
      ensures ret == Pause ==>
        Sending() && stack == [CommandWrite] && commandData == None && commandTotal > 0 && bufferSize == 0
      ensures ret == IoWait ==> Sending() && nonBlocking && peer.Left() < old(peer.Left())
      ensures CommandWrite in stack ==>
        CommandWrite in old(stack) && commandOffset + |Rest()| == old(commandOffset + |Rest()|)
      ensures CommandWrite in old(stack) && CommandWrite !in stack ==>
        old(commandOffset + |Rest()|) == commandTotal
      ensures ret.Ok? || ret.IoWait? || ret.Pause? || SocketFailure(ret)
      ensures SocketFailure(ret) ==> Cut()
    {
      hide Pending, Header, Owed, Wire, Peer.Left, Writer.Cut;
      Shapes();
      if stack[0] == Write {
        ret := WriteStep();
      } else {
        ret := StateCommandWrite();
      }
      Shapes();
    }

    /** drizzle_state_loop while a command is written, fresh or resumed, up to the
        moment the reply is awaited or more data is. */
    method StateLoop() returns (ret: Ret)
      requires Valid() && Sending()
      modifies this`bufferPtr, this`bufferSize, this`packetSize, this`packetNumber
      modifies this`commandData, this`commandOffset, this`stack, buffer, peer
      ensures Valid() && peer.Left() <= old(peer.Left())
      ensures ret == Ok ==> stack == Reply() && bufferSize == 0 && packetNumber == 1 && peer.sent == old(Wire())
      ensures ret == Pause ==>
        Sending() && stack == [CommandWrite] && commandData == None && commandTotal > 0 && peer.sent == old(Wire())
      ensures ret == IoWait ==> Sending() && Wire() == old(Wire()) && nonBlocking && peer.Left() < old(peer.Left())
      ensures ret == Ok || (ret == IoWait && CommandWrite !in stack) ==>
        CommandWrite in old(stack) ==> old(commandOffset + |Rest()|) == commandTotal
      ensures ret == Pause || (ret == IoWait && CommandWrite in stack) ==>
        CommandWrite in old(stack) && commandOffset + |Rest()| == old(commandOffset + |Rest()|)
      ensures ret.Ok? || ret.IoWait? || ret.Pause? || (SocketFailure(ret) && Idle() && peer.sent <= old(Wire()))
      ensures SocketFailure(ret) ==> Cut()
    {
      hide Pending, Writing, Header, Wire, Rest, Owed, Peer.Left, Writer.Cut;
      ghost var wire := Wire();
      while stack != [] && (stack[0] == Write || stack[0] == CommandWrite)
        invariant Valid() && Wire() == wire && peer.Left() <= old(peer.Left())
        invariant Sending() || (stack == Reply() && bufferSize == 0 && packetNumber == 1 && CommandWrite !in stack)
        invariant CommandWrite in stack ==>
          CommandWrite in old(stack) && commandOffset + |Rest()| == old(commandOffset + |Rest()|)
        invariant CommandWrite in old(stack) && CommandWrite !in stack ==>
          old(commandOffset + |Rest()|) == commandTotal
        decreases Rank()
      {
        Shapes();
        ret := Step();
        if ret != Ok {
          SentIsPrefix();
          if ret == Pause {
            AllSent();
          } else if ret != IoWait {
            Close();
          }
          return;
        }
      }
      Shapes();
      AllSent();
      return Ok;
    }

    /** Wire as a call of drizzle_command_write leaves it. */
    ghost function After(command: byte, data: Option<seq<byte>>, total: nat): seq<byte>
      reads this`bufferPtr, this`bufferSize, buffer, peer
      reads this`stack, this`command, this`commandData, this`commandOffset, this`commandTotal
      requires Valid()
    {
      peer.sent + Pending() +
      (if stack == [] then Owed([CommandWrite], command, data, 0, total)
       else Owed(stack, this.command, if commandData == None then data else commandData, commandOffset, commandTotal))
    }

    /** The number of bytes handed over for the current command, those of such a
        call included. */
    function Handed(data: Option<seq<byte>>): nat
      reads this`stack, this`commandData, this`commandOffset
    {
      if stack == [] then Size(data)
      else commandOffset + Size(if commandData == None then data else commandData)
    }

    lemma RestSize()
      requires commandOffset + Size(commandData) <= commandTotal
      ensures |Rest()| == Size(commandData)
    {
    }

    lemma AllSent()
      requires Valid() && bufferSize == 0
      requires CommandWrite !in stack || (commandData.None? && commandTotal > 0)
      ensures Wire() == peer.sent
    {
      NothingMore(peer.sent);
    }

    lemma SentIsPrefix()
      requires Valid()
      ensures peer.sent <= Wire()
    {
    }

    lemma Shapes()
      ensures Writing() ==>
        stack == [CommandWrite] || stack == [Write, CommandWrite] ||
        (stack == [Write] + Reply() && CommandWrite !in stack)
      ensures CommandWrite !in Reply()
      ensures stack == Reply() ==> stack == [] || stack[0] == PacketRead
    {
    }

    /** drizzle_command_write: a call on an idle connection begins a command, a call
        while one is being written hands over its next data.  */
    method CommandWriteCall(command: byte, data: Option<seq<byte>>, total: nat) returns (ret: Ret)
      requires Valid() && (stack == [] || Sending())
      requires stack == [] ==> Idle() && command != CHANGE_USER && 1 + total < 0x100_0000 && Size(data) <= total
      requires stack != [] && commandData == None && CommandWrite in stack ==> commandOffset + Size(data) <= commandTotal
      modifies this`bufferPtr, this`bufferSize, this`packetSize, this`packetNumber, this`command
      modifies this`commandData, this`commandOffset, this`commandTotal, this`stack, buffer, peer
      ensures Valid() && peer.Left() <= old(peer.Left())
      ensures this.command == (if old(stack) == [] then command else old(this.command))
      ensures commandTotal == (if old(stack) == [] then total else old(commandTotal))
      ensures var wire := old(After(command, data, total));
        && (ret == Ok ==> stack == Reply() && bufferSize == 0 && packetNumber == 1 && peer.sent == wire)
        && (ret == Pause ==>
              Sending() && stack == [CommandWrite] && commandData == None && commandTotal > 0 && peer.sent == wire)
        && (ret == IoWait ==> Sending() && Wire() == wire && nonBlocking && peer.Left() < old(peer.Left()))
        && (ret.Ok? || ret.IoWait? || ret.Pause? || (SocketFailure(ret) && Idle() && peer.sent <= wire))
      ensures SocketFailure(ret) ==> Cut()
      ensures ret == Ok || (ret == IoWait && CommandWrite !in stack) ==>
        old(stack) == [] || CommandWrite in old(stack) ==> old(Handed(data)) == commandTotal
      ensures ret == Pause || (ret == IoWait && CommandWrite in stack) ==>
        (old(stack) == [] || CommandWrite in old(stack)) && commandOffset + |Rest()| == old(Handed(data))
    {
      hide Pending, Header, Rest, Owed, Peer.Left, Writer.Cut;
      if stack == [] {
        this.command := command;
        commandData := data;
        commandOffset := 0;
        commandTotal := total;
        stack := [CommandWrite] + stack;
      } else if commandData == None {
        commandData := data;
      }
      if CommandWrite in stack {
        RestSize();
      }
      ret := StateLoop();
    }
  }

  lemma SameOwed(stack: seq<StateFn>, rest: seq<StateFn>, command: byte, data: Option<seq<byte>>, offset: nat,
                 total: nat)
    requires stack != [] && stack[0] == Write && rest == stack[1..]
    ensures CommandWrite in stack <==> CommandWrite in rest
    ensures Owed(stack, command, data, offset, total) == Owed(rest, command, data, offset, total)
  {
    assert stack == [Write] + rest;
  }

  /** What the server gets by a call that finds the buffer empty. */
  lemma NextCall(w: Writer, command: byte, data: Option<seq<byte>>, total: nat, offset: nat)
    requires w.Valid() && w.bufferSize == 0
    requires if w.stack == [] then offset == 0
             else w.stack == [CommandWrite] && w.commandData == None && w.command == command &&
                  w.commandTotal == total && w.commandOffset == offset
    ensures w.After(command, data, total) == w.peer.sent + Owed([CommandWrite], command, data, offset, total)
    ensures w.Handed(data) == offset + Size(data)
  {
    assert w.Pending() == [] && w.peer.sent + [] == w.peer.sent;
  }

  lemma WholeCommand(command: byte, data: Option<seq<byte>>)
    ensures Owed([CommandWrite], command, data, 0, Size(data)) == CommandBytes(command, Given(data))
  {
    assert Header(command, 0) + [] == Header(command, 0);
  }

  /** Handing over the same data again while the command waits changes nothing. */
  lemma NothingReset(w: Writer, data: Option<seq<byte>>)
    requires w.Sending() && w.stack != [] && w.commandTotal == Size(data)
    requires CommandWrite in w.stack ==> w.commandOffset + |w.Rest()| == Size(data)
    ensures w.After(w.command, data, Size(data)) == w.Wire()
    ensures CommandWrite in w.stack ==> w.Handed(data) == Size(data)
    ensures w.commandData == None && CommandWrite in w.stack ==> w.commandOffset + Size(data) <= w.commandTotal
  {
    hide Writer.Pending, Header;
  }

  lemma NothingMore(sent: seq<byte>)
    ensures sent + [] + [] == sent
  {
  }

  /** The header and the data written behind the pending bytes. */
  lemma Framed(before: seq<byte>, at: nat, start: nat, command: byte, total: nat, taken: seq<byte>)
    requires at <= start && start + 5 + |taken| <= |before|
    ensures Splice(Splice(before, start + 3, [0, command] + taken), start, Le(1 + total, 3))
              [at..start + (5 + |taken|)] == before[at..start] + (Header(command, total) + taken)
  {
    hide Splice, Le;
    SpliceBefore(before, start, Le(1 + total, 3), [0, command] + taken);
    Regroup(Le(1 + total, 3), [0, command], taken);
    Behind(before, at, start, Header(command, total) + taken);
  }

  lemma Assembled(pending: seq<byte>, header: seq<byte>, taken: seq<byte>, rest: seq<byte>, given: seq<byte>)
    requires given == taken + rest
    ensures (pending + (header + taken)) + rest == pending + (header + given)
    ensures [] + taken == taken && header + [] == header
  {
  }

  lemma CutAt(sent: seq<byte>, pending: seq<byte>, n: nat)
    requires n <= |pending|
    ensures (sent + pending[..n]) + pending[n..] == sent + pending
  {
  }

  /** A piece copied behind the pending bytes. */
  lemma Behind(before: seq<byte>, at: nat, start: nat, piece: seq<byte>)
    requires at <= start && start + |piece| <= |before|
    ensures Splice(before, start, piece)[at..start + |piece|] == before[at..start] + piece
  {
  }

  function Given(data: Option<seq<byte>>): seq<byte> {
    match data
    case None => []
    case Some(d) => d
  }

  /** A command whose data is handed over whole.  The caller repeats the call while
      it is told to wait.  However send cuts the bytes and wherever the calls are
      interrupted, the server gets header and data once and in order; when the
      socket fails it has got a prefix of them. */
  method SendCommand(w: Writer, command: byte, data: Option<seq<byte>>) returns (ret: Ret)
    requires w.Valid() && w.Idle() && command != CHANGE_USER && 1 + Size(data) < 0x100_0000
    modifies w, w.buffer, w.peer
    ensures w.Valid() && (ret == Ok || (SocketFailure(ret) && w.Cut()))
    ensures ret == Ok ==>
      w.peer.sent == old(w.peer.sent) + CommandBytes(command, Given(data)) &&
      w.stack == w.Reply() && w.command == command && w.packetNumber == 1
    ensures ret != Ok ==> w.peer.sent <= old(w.peer.sent) + CommandBytes(command, Given(data)) && w.Idle()
  {
    hide Writer.Pending, Header, Owed, Writer.Wire, Writer.After, CommandBytes, Peer.Left, Writer.Cut;
    ghost var wire := w.After(command, data, Size(data));
    NextCall(w, command, data, Size(data), 0);
    WholeCommand(command, data);
    ret := w.CommandWriteCall(command, data, Size(data));
    while ret == IoWait
      invariant w.Valid() && w.command == command && w.commandTotal == Size(data)
      invariant ret == IoWait ==> w.Sending() && w.Wire() == wire && w.stack != []
      invariant ret == IoWait && CommandWrite in w.stack ==> w.commandOffset + |w.Rest()| == Size(data)
      invariant ret == Ok ==> w.stack == w.Reply() && w.bufferSize == 0 && w.packetNumber == 1 && w.peer.sent == wire
      invariant ret.Ok? || ret.IoWait? || (SocketFailure(ret) && w.Cut() && w.Idle() && w.peer.sent <= wire)
      decreases ret == IoWait, w.peer.Left()
    {
      NothingReset(w, data);
      ret := w.CommandWriteCall(command, data, Size(data));
    }
  }

  /** What the server gets when the data comes in pieces: NULL pieces add nothing,
      any other piece brings the header with it while no byte has been given. */
  function PieceWire(command: byte, total: nat, offset: nat, pieces: seq<Option<seq<byte>>>): seq<byte>
    decreases |pieces|
  {
    if pieces == [] then []
    else
      (if pieces[0].None? then [] else if offset == 0 then Header(command, total) + pieces[0].value else pieces[0].value)
      + PieceWire(command, total, offset + Size(pieces[0]), pieces[1..])
  }

  function AllGiven(pieces: seq<Option<seq<byte>>>): seq<byte> {
    if pieces == [] then [] else Given(pieces[0]) + AllGiven(pieces[1..])
  }

  /** No empty piece, other than a NULL one, comes before the first byte. */
  predicate StartsWithData(pieces: seq<Option<seq<byte>>>) {
    pieces != [] && if pieces[0].None? then StartsWithData(pieces[1..]) else pieces[0].value != []
  }

  /** The connection waits for the first data of a command, or for more of it. */
  ghost predicate WantsData(w: Writer, command: byte, total: nat, offset: nat)
    reads w`stack, w`command, w`commandData, w`commandOffset, w`commandTotal, w`bufferPtr, w`bufferSize
    reads w`packetNumber
  {
    && w.Valid() && command != CHANGE_USER && 0 < total && 1 + total < 0x100_0000
    && if w.stack == [] then w.Idle() && offset == 0
       else
         w.Sending() && w.stack == [CommandWrite] && w.commandData == None && w.command == command &&
         w.commandTotal == total && w.commandOffset == offset
  }

  /** Between the calls for one piece: what has been passed on of the `wire` that piece
      makes, which ends with byte `given` of the command. */
  ghost predicate PieceUnderway(w: Writer, ret: Ret, command: byte, total: nat, given: nat, wire: seq<byte>)
    reads w`stack, w`command, w`commandData, w`commandOffset, w`commandTotal, w`bufferPtr, w`bufferSize, w.buffer, w.peer
    reads w`packetNumber
  {
    && w.Valid()
    && match ret
       case Ok => w.stack == w.Reply() && w.packetNumber == 1 && w.command == command && w.peer.sent == wire && given == total
       case Pause =>
         WantsData(w, command, total, given) && w.stack != [] && w.peer.sent == wire && given < total
       case IoWait =>
         && w.Sending() && w.stack != [] && w.command == command && w.commandTotal == total && w.Wire() == wire
         && (if CommandWrite in w.stack then w.commandOffset + |w.Rest()| == given else given == total)
       case _ => SocketFailure(ret) && w.Cut() && w.Idle() && w.peer.sent <= wire
  }

  /** The call that hands over a piece. */
  method GivePiece(w: Writer, command: byte, piece: Option<seq<byte>>, total: nat, ghost offset: nat) returns (ret: Ret)
    requires WantsData(w, command, total, offset) && offset + Size(piece) <= total
    modifies w, w.buffer, w.peer
    ensures PieceUnderway(w, ret, command, total, offset + Size(piece),
                          old(w.peer.sent) + Owed([CommandWrite], command, piece, offset, total))
  {
    hide Writer.Pending, Header, Owed, Writer.Wire, Writer.After, Peer.Left, Writer.Cut;
    NextCall(w, command, piece, total, offset);
    ret := w.CommandWriteCall(command, piece, total);
  }

  /** The call with NULL data that resumes it. */
  method ResumePiece(w: Writer, command: byte, total: nat, ghost given: nat, ghost wire: seq<byte>) returns (ret: Ret)
    requires PieceUnderway(w, IoWait, command, total, given, wire) && total > 0
    modifies w, w.buffer, w.peer
    ensures PieceUnderway(w, ret, command, total, given, wire)
    ensures ret == IoWait ==> w.peer.Left() < old(w.peer.Left())
  {
    hide Writer.Pending, Header, Owed, Writer.Wire, Writer.After, Peer.Left, Writer.Cut;
    NothingGiven(w, given);
    ret := w.CommandWriteCall(command, None, total);
  }

  /** One piece, repeated with NULL data while the connection tells to wait. */
  method SendPiece(w: Writer, command: byte, piece: Option<seq<byte>>, total: nat, ghost offset: nat) returns (ret: Ret)
    requires WantsData(w, command, total, offset) && offset + Size(piece) <= total
    modifies w, w.buffer, w.peer
    ensures ret != IoWait
    ensures PieceUnderway(w, ret, command, total, offset + Size(piece),
                          old(w.peer.sent) + Owed([CommandWrite], command, piece, offset, total))
  {
    hide Owed, PieceUnderway, Peer.Left;
    ghost var given := offset + Size(piece);
    ghost var wire := w.peer.sent + Owed([CommandWrite], command, piece, offset, total);
    ret := GivePiece(w, command, piece, total, offset);
    while ret == IoWait
      invariant PieceUnderway(w, ret, command, total, given, wire)
      decreases ret == IoWait, w.peer.Left()
    {
      ret := ResumePiece(w, command, total, given, wire);
    }
  }

  /** A command whose data is handed over in pieces.  The caller waits whenever told to
      and resumes with NULL data.  However send cuts the bytes, each piece goes out
      once and in order; when the socket fails a prefix has. */
  method SendPieces(w: Writer, command: byte, pieces: seq<Option<seq<byte>>>, total: nat) returns (ret: Ret)
    requires w.Valid() && w.Idle() && command != CHANGE_USER && 1 + total < 0x100_0000
    requires pieces != [] && Size(pieces[|pieces| - 1]) > 0 && |AllGiven(pieces)| == total
    modifies w, w.buffer, w.peer
    ensures w.Valid() && (ret == Ok || (SocketFailure(ret) && w.Cut()))
    ensures ret == Ok ==>
      w.peer.sent == old(w.peer.sent) + PieceWire(command, total, 0, pieces) &&
      w.stack == w.Reply() && w.command == command && w.packetNumber == 1
    ensures ret != Ok ==> w.peer.sent <= old(w.peer.sent) + PieceWire(command, total, 0, pieces) && w.Idle()
  {
    hide Writer.Pending, Header, Owed, Writer.Wire, PieceWire, AllGiven, Peer.Left, Writer.Cut, Writer.Sending;
    ghost var start, whole := w.peer.sent, PieceWire(command, total, 0, pieces);
    ghost var offset: nat := 0;
    ret := Ok;
    var i := 0;
    assert pieces[0..] == pieces;
    GivenLater(pieces, 0);
    while i < |pieces|
      invariant i <= |pieces| && ret == Ok && w.Valid()
      invariant if i < |pieces| then WantsData(w, command, total, offset) && offset + |AllGiven(pieces[i..])| == total
                else w.stack == w.Reply() && w.command == command && w.packetNumber == 1
      invariant start + whole == w.peer.sent + PieceWire(command, total, offset, pieces[i..])
    {
      PieceStep(command, total, offset, pieces, i);
      Regroup(w.peer.sent, Owed([CommandWrite], command, pieces[i], offset, total),
              PieceWire(command, total, offset + Size(pieces[i]), pieces[i + 1..]));
      ret := SendPiece(w, command, pieces[i], total, offset);
      offset := offset + Size(pieces[i]);
      i := i + 1;
      if ret == Pause {
        ret := Ok;
      } else if ret != Ok {
        return;
      }
    }
    PieceEnd(command, total, offset, pieces);
    assert w.peer.sent + [] == w.peer.sent;
  }

  /** A call without data while the connection waits changes nothing. */
  lemma NothingGiven(w: Writer, given: nat)
    requires w.Sending() && w.stack != []
    ensures w.After(w.command, None, w.commandTotal) == w.Wire()
    ensures CommandWrite in w.stack ==> w.Handed(None) == w.commandOffset + |w.Rest()|
    ensures CommandWrite in w.stack ==> w.commandOffset <= w.commandTotal
  {
    hide Writer.Pending, Header;
  }

  /** A caller who repeats a piece instead: it is sent a second time exactly when all of
      it had been taken and its command is not yet complete. */
  lemma RepeatedPiece(w: Writer, piece: seq<byte>)
    requires w.Sending() && w.stack != [] && w.commandTotal > 0 && piece != []
    ensures w.After(w.command, Some(piece), w.commandTotal) != w.Wire() <==>
      CommandWrite in w.stack && w.commandData == None
    ensures CommandWrite in w.stack && w.commandData == None && w.commandOffset > 0 ==>
      w.After(w.command, Some(piece), w.commandTotal) == w.Wire() + piece
  {
    hide Writer.Pending, Header;
    var before := w.peer.sent + w.Pending();
    assert before + [] == before;
    if CommandWrite in w.stack && w.commandData == None {
      assert |w.After(w.command, Some(piece), w.commandTotal)| >= |before| + |piece|;
    }
  }

  /** A command of two bytes given one by one: repeating the first piece while it is on
      its way sends it in the place of the second. */
  lemma FirstPieceTwice(w: Writer, start: seq<byte>)
    requires FirstPieceTaken(w, start)
    ensures w.After(w.command, Some([7]), 2) == start + CommandBytes(w.command, [7, 7])
  {
    hide Writer.Pending, Header, Writer.Wire, Writer.After;
    RepeatedPiece(w, [7]);
    Regroup(start + Header(w.command, 2), [7], [7]);
    Regroup(start, Header(w.command, 2), [7, 7]);
    assert [7] + [7] == [7, 7];
  }

  /** The byte 7, the first of two, has been taken and send is next. */
  ghost predicate FirstPieceTaken(w: Writer, start: seq<byte>)
    reads w, w.buffer, w.peer
  {
    && w.Sending() && w.stack == [Write, CommandWrite] && w.commandTotal == 2
    && w.commandOffset == 1 && w.commandData == None && w.Wire() == start + Header(w.command, 2) + [7]
  }

  /** Such a state is what the first call leads to on every idle connection. */
  method TakeFirstPiece(w: Writer, command: byte)
    requires w.Valid() && w.Idle() && command != CHANGE_USER
    modifies w, w.buffer
    ensures w.command == command && FirstPieceTaken(w, w.peer.sent)
  {
    hide Writer.Pending, Header;
    w.command, w.commandData, w.commandOffset, w.commandTotal := command, Some([7]), 0, 2;
    w.stack := [CommandWrite] + w.stack;
    assert |w.Pending()| == 0 && w.peer.sent + [] == w.peer.sent;
    Regroup(w.peer.sent, Header(command, 2), [7]);
    var ret := w.StateCommandWrite();
  }

  lemma PieceStep(command: byte, total: nat, offset: nat, pieces: seq<Option<seq<byte>>>, i: nat)
    requires i < |pieces| && total > 0
    requires Size(pieces[|pieces| - 1]) > 0
    ensures PieceWire(command, total, offset, pieces[i..]) ==
      Owed([CommandWrite], command, pieces[i], offset, total) +
      PieceWire(command, total, offset + Size(pieces[i]), pieces[i + 1..])
    ensures |AllGiven(pieces[i..])| == Size(pieces[i]) + |AllGiven(pieces[i + 1..])|
    ensures i + 1 < |pieces| ==> |AllGiven(pieces[i + 1..])| > 0
    ensures i + 1 == |pieces| ==> AllGiven(pieces[i + 1..]) == []
  {
    hide Header;
    assert pieces[i..][1..] == pieces[i + 1..];
    if i + 1 < |pieces| {
      GivenLater(pieces, i + 1);
    }
  }

  lemma {:induction false} GivenLater(pieces: seq<Option<seq<byte>>>, i: nat)
    requires i < |pieces| && Size(pieces[|pieces| - 1]) > 0
    ensures |AllGiven(pieces[i..])| > 0
    decreases |pieces| - i
  {
    assert pieces[i..][1..] == pieces[i + 1..];
    if i + 1 < |pieces| {
      GivenLater(pieces, i + 1);
    }
  }

  lemma PieceEnd(command: byte, total: nat, offset: nat, pieces: seq<Option<seq<byte>>>)
    ensures PieceWire(command, total, offset, pieces[|pieces|..]) == []
  {
  }

  /** The number of headers the pieces bring. */
  function Headers(pieces: seq<Option<seq<byte>>>): nat {
    if pieces == [] then 0
    else if pieces[0].None? then Headers(pieces[1..])
    else 1 + if pieces[0].value == [] then Headers(pieces[1..]) else 0
  }

  function Repeated(header: seq<byte>, k: nat): (s: seq<byte>)
    ensures |s| == |header| * k
  {
    if k == 0 then [] else header + Repeated(header, k - 1)
  }

  lemma {:induction false} WithoutHeader(command: byte, total: nat, offset: nat, pieces: seq<Option<seq<byte>>>)
    requires offset > 0
    ensures PieceWire(command, total, offset, pieces) == AllGiven(pieces)
    decreases |pieces|
  {
    if pieces != [] {
      WithoutHeader(command, total, offset + Size(pieces[0]), pieces[1..]);
    }
  }

  lemma {:induction false} HeadersFirst(command: byte, total: nat, pieces: seq<Option<seq<byte>>>)
    ensures PieceWire(command, total, 0, pieces) == Repeated(Header(command, total), Headers(pieces)) + AllGiven(pieces)
    decreases |pieces|
  {
    hide Header;
    var header := Header(command, total);
    if pieces == [] {
    } else if Given(pieces[0]) == [] {
      HeadersFirst(command, total, pieces[1..]);
      assert AllGiven(pieces) == AllGiven(pieces[1..]);
      if pieces[0].Some? {
        Regroup(header, Repeated(header, Headers(pieces[1..])), AllGiven(pieces[1..]));
        assert header + [] == header;
      }
    } else {
      WithoutHeader(command, total, |pieces[0].value|, pieces[1..]);
      Regroup(header, pieces[0].value, AllGiven(pieces[1..]));
      assert Repeated(header, 0) == [] && header + [] == header;
    }
  }

  lemma {:induction false} OneHeader(pieces: seq<Option<seq<byte>>>)
    requires AllGiven(pieces) != []
    ensures Headers(pieces) >= 1
    ensures Headers(pieces) == 1 <==> StartsWithData(pieces)
  {
    if Given(pieces[0]) == [] {
      assert AllGiven(pieces) == AllGiven(pieces[1..]);
      OneHeader(pieces[1..]);
    }
  }

  /** The pieces put header and data on the wire once and in order exactly when no
      empty piece comes before the first byte: such a piece is not remembered,
      and the next one brings the header again. */
  lemma PiecesAreCommand(command: byte, pieces: seq<Option<seq<byte>>>)
    requires AllGiven(pieces) != []
    ensures PieceWire(command, |AllGiven(pieces)|, 0, pieces) == CommandBytes(command, AllGiven(pieces)) <==>
      StartsWithData(pieces)
  {
    hide Header, AllGiven;
    var header, data := Header(command, |AllGiven(pieces)|), AllGiven(pieces);
    HeadersFirst(command, |data|, pieces);
    OneHeader(pieces);
    if Headers(pieces) == 1 {
      assert Repeated(header, 0) == [] && header + [] == header;
    } else {
      assert |Repeated(header, Headers(pieces)) + data| > |header + data|;
    }
  }

  /** An empty piece in front of the data: the header goes out twice. */
  lemma EmptyPieceFirst(command: byte)
    ensures var pieces := [Some([]), Some([7])];
      AllGiven(pieces) == [7] && PieceWire(command, 1, 0, pieces) == Header(command, 1) + CommandBytes(command, [7]) &&
      PieceWire(command, 1, 0, pieces) != CommandBytes(command, [7])
  {
    hide Header;
    var pieces: seq<Option<seq<byte>>>, last: seq<Option<seq<byte>>> := [Some([]), Some([7])], [Some([7])];
    assert pieces[1..] == last && last[1..] == [];
    assert AllGiven(last) == [7] && AllGiven(pieces) == [7];
    assert PieceWire(command, 1, 0, last) == Header(command, 1) + [7] + [];
    assert PieceWire(command, 1, 0, pieces) == (Header(command, 1) + []) + PieceWire(command, 1, 0, last);
  }
}
