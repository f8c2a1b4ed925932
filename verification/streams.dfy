/** Whole exchanges from the byte stream on: the greeting, the login between both sides
    and a binlog dump, each under every schedule of the network.  The caller waits for
    the socket whenever told to and resumes. */
module Streams {
  import opened Bytes
  import opened Pack
  import opened StateStack
  import opened Connection
  import opened Consume
  import Handshake
  import Command
  import Login
  import Capabilities

  /** drizzle_state_loop up to the moment the consumer is on top, resumed whenever it
      had to wait. */
  method Await(con: Connection, ghost payload: seq<byte>, ghost rest: seq<byte>) returns (ret: Ret)
    requires con.Valid() && con.Reading() && |payload| < 0x100_0000
    requires con.Unread() == Frame(con.packetNumber, payload) + rest
    modifies con, con.buffer, con.socket
    ensures con.Valid() && (con.buffer == old(con.buffer) || fresh(con.buffer))
    ensures ret == Ok || (SocketFailure(ret) && con.Cut() && con.stack == [])
    ensures ret == Ok ==>
      con.stack == [old(con.stack)[|old(con.stack)| - 1]] && con.packetNumber == (old(con.packetNumber) + 1) % 256 &&
      con.packetSize == |payload| <= con.bufferSize && Facing(con, payload, con.Window()[con.packetSize..]) &&
      con.Window()[con.packetSize..] + con.socket.incoming == rest
  {
    hide Connection.Window, Connection.Unread, NextPacket, Allocation, Frame, Socket.Left, Connection.Cut;
    con.ReadingIsWaiting();
    ghost var stream, number, consumer := con.Unread(), con.packetNumber, con.stack[|con.stack| - 1];
    FrameParses(number, payload, rest);
    while true
      invariant con.Valid() && (con.buffer == old(con.buffer) || fresh(con.buffer))
      invariant con.Reading() && con.Unread() == stream && con.packetNumber == number
      invariant con.stack != [] && con.stack[|con.stack| - 1] == consumer
      decreases con.socket.Left(), if con.readable then 0 else 1
    {
      ret := con.AwaitPacket();
      if ret != IoWait {
        SplitAt(con.Window(), con.packetSize);
        return;
      }
      con.readable := true;
    }
  }

  lemma SplitAt(w: seq<byte>, k: nat)
    ensures k <= |w| ==> w == w[..k] + w[k..]
  {
  }

  // -------------------------------------------------------------------- binlog

  /** A binlog dump on the wire: events, and the packet that ends it. */
  function BinlogStream(events: seq<seq<byte>>, end: BinlogPacket, number: byte): seq<byte> {
    if events == [] then Frame(number, BinlogBytes(end))
    else Frame(number, BinlogBytes(Event(0, events[0]))) + BinlogStream(events[1..], end, (number + 1) % 256)
  }

  predicate DumpFits(events: seq<seq<byte>>, end: BinlogPacket) {
    && (forall i :: 0 <= i < |events| ==> 19 <= |events[i]| < 0xFF_FFFF)
    && !end.Event? && BinlogFits(end) && |BinlogBytes(end)| < 0x100_0000
  }

  datatype Dump = Dump(fields: seq<EventFields>, ret: Ret)

  /** What a binlog dump hands to its callback, and how it ends: behind the last event,
      or at the first whose length or checksum is wrong. */
  function Decoded(reader: BinlogReader, events: seq<seq<byte>>, end: BinlogPacket, checksums: bool): Dump
    requires forall i :: 0 <= i < |events| ==> |events[i]| >= 19
  {
    if events == [] then Dump([], if end.EndOfBinlog? then EndOfData else ErrorCode)
    else
      var raw := events[0];
      var now := checksums || reader.Announces(raw);
      if LeValue(raw[9..13]) != |raw| then Dump([], UnexpectedData)
      else if now && reader.WrongChecksum(raw) then Dump([], BadChecksum)
      else
        var tail := Decoded(reader, events[1..], end, now);
        Dump([FieldsOf(raw, now)] + tail.fields, tail.ret)
  }

  /** Events whose lengths are right, with checksums right or not verified, all arrive. */
  lemma {:induction false} AllArrive(reader: BinlogReader, events: seq<seq<byte>>, end: BinlogPacket, checksums: bool)
    requires forall i :: 0 <= i < |events| ==>
      |events[i]| >= 19 && LeValue(events[i][9..13]) == |events[i]| && !reader.WrongChecksum(events[i])
    ensures var d := Decoded(reader, events, end, checksums);
      |d.fields| == |events| && d.ret == (if end.EndOfBinlog? then EndOfData else ErrorCode)
    ensures forall i :: 0 <= i < |events| ==>
      Decoded(reader, events, end, checksums).fields[i] in {FieldsOf(events[i], false), FieldsOf(events[i], true)}
  {
    hide LeValue, FieldsOf;
    if events != [] {
      AllArrive(reader, events[1..], end, checksums || reader.Announces(events[0]));
    }
  }

  lemma NextEvent(events: seq<seq<byte>>, end: BinlogPacket, number: byte, rest: seq<byte>)
    requires DumpFits(events, end)
    ensures var p := if events == [] then end else Event(0, events[0]);
      var behind := if events == [] then rest else BinlogStream(events[1..], end, (number + 1) % 256) + rest;
      BinlogFits(p) && |BinlogBytes(p)| < 0x100_0000 &&
      BinlogStream(events, end, number) + rest == Frame(number, BinlogBytes(p)) + behind
  {
    hide Frame, ReplyBytes;
    if events != [] {
      Regroup(Frame(number, BinlogBytes(Event(0, events[0]))), BinlogStream(events[1..], end, (number + 1) % 256), rest);
    }
  }

  /** One packet of a dump: `head` is what it leads to. */
  method ReceiveEvent(reader: BinlogReader, ghost p: BinlogPacket, ghost rest: seq<byte>) returns (ret: Ret)
    requires reader.con.Valid() && reader.con.stack == [PacketRead, BinlogRead] && reader.replies.con == reader.con
    requires BinlogFits(p) && |BinlogBytes(p)| < 0x100_0000
    requires reader.con.Unread() == Frame(reader.con.packetNumber, BinlogBytes(p)) + rest
    modifies reader, reader.replies, reader.con, reader.con.buffer, reader.con.socket
    ensures var con := reader.con;
      Allocation(con.buffer.Length) && (con.buffer == old(con.buffer) || fresh(con.buffer))
    ensures SocketFailure(ret) ==> reader.con.Cut() && reader.con.stack == []
    ensures !SocketFailure(ret) ==>
      match p
      case Event(_, raw) =>
        var now := old(reader.ChecksumsAfter(raw));
        if LeValue(raw[9..13]) != |raw| then ret == UnexpectedData
        else if now && reader.WrongChecksum(raw) then ret == BadChecksum
        else
          ret == Ok && reader.hasChecksums == now && reader.event == FieldsOf(raw, now) && reader.con.Valid() &&
          reader.con.stack == [PacketRead, BinlogRead] && reader.con.Unread() == rest &&
          reader.con.packetNumber == (old(reader.con.packetNumber) + 1) % 256
      case EndOfBinlog(_, _) => ret == EndOfData
      case BinlogError(c, q, _) =>
        ret == ErrorCode && reader.con.Valid() && reader.con.stack == [] && reader.con.Unread() == rest &&
        reader.replies.errorCode == c && reader.replies.sqlstate == q
  {
    hide Connection.Window, NextPacket, Allocation, BinlogBytes, BinlogFits, Frame, FieldsOf, LeValue, Connection.Cut, Facing;
    hide BinlogReader.Announces, BinlogReader.WrongChecksum;
    ret := Await(reader.con, BinlogBytes(p), rest);
    if ret == Ok {
      assert [BinlogRead][1..] == [];
      ret := reader.StateBinlogRead(p, reader.con.Window()[reader.con.packetSize..]);
    }
  }

  /** The loop of drizzle_binlog_start: the callback gets every event that was sent, in
      order, up to the end of the dump or the first event that is wrong. */
  method ReceiveEvents(reader: BinlogReader, ghost events: seq<seq<byte>>, ghost end: BinlogPacket, ghost rest: seq<byte>)
    returns (ret: Ret, got: seq<EventFields>)
    requires reader.con.Valid() && reader.con.stack == [PacketRead, BinlogRead] && reader.replies.con == reader.con
    requires DumpFits(events, end)
    requires reader.con.Unread() == BinlogStream(events, end, reader.con.packetNumber) + rest
    modifies reader, reader.replies, reader.con, reader.con.buffer, reader.con.socket
    ensures var d := Decoded(reader, events, end, old(reader.hasChecksums));
      if SocketFailure(ret) then reader.con.Cut() && got <= d.fields else ret == d.ret && got == d.fields
    ensures reader.con.Valid() && reader.con.stack == []
    ensures ret == ErrorCode ==>
      end.BinlogError? && reader.con.Unread() == rest && reader.replies.errorCode == end.code &&
      reader.replies.sqlstate == end.sqlstate
  {
    hide Connection.Window, Connection.Unread, Allocation, BinlogStream, BinlogBytes, BinlogFits, Frame, FieldsOf, LeValue;
    hide Connection.Cut, BinlogReader.Announces, BinlogReader.WrongChecksum, Decoded, DumpFits;
    var con := reader.con;
    got := [];
    EventsHaveHeaders(events, end);
    ghost var d := Decoded(reader, events, end, reader.hasChecksums);
    ghost var left := events;
    assert got + d.fields == d.fields;
    while true
      invariant con.Valid() && con.stack == [PacketRead, BinlogRead] && (con.buffer == old(con.buffer) || fresh(con.buffer))
      invariant DumpFits(left, end) && con.Unread() == BinlogStream(left, end, con.packetNumber) + rest
      invariant forall i :: 0 <= i < |left| ==> |left[i]| >= 19
      invariant var tail := Decoded(reader, left, end, reader.hasChecksums); d == Dump(got + tail.fields, tail.ret)
      decreases |left|
    {
      ghost var p := if left == [] then end else Event(0, left[0]);
      NextEvent(left, end, con.packetNumber, rest);
      EventsHaveHeaders(left, end);
      DecodedStep(reader, left, end, reader.hasChecksums);
      assert got + [] == got;
      ret := ReceiveEvent(reader, p, if left == [] then rest
                                     else BinlogStream(left[1..], end, (con.packetNumber + 1) % 256) + rest);
      if ret != Ok {
        if ret != ErrorCode {
          con.Close();
        }
        return;
      }
      Regroup(got, [reader.event], Decoded(reader, left[1..], end, reader.hasChecksums).fields);
      got := got + [reader.event];
      left := left[1..];
    }
  }

  /** drizzle_binlog_start on a connection that blocks, from the moment its request is
      sent.  The state beneath the request waits for a reply, and takes the first packet
      of the dump for one: the callback gets the events behind it, and neither that
      event nor what it says of checksums.  When that packet is an error there is no
      dump. */
  method ReceiveDump(reader: BinlogReader, ghost events: seq<seq<byte>>, ghost end: BinlogPacket, ghost rest: seq<byte>)
    returns (ret: Ret, got: seq<EventFields>)
    requires reader.con.Valid() && reader.con.stack == [PacketRead, ResultRead] && !reader.con.nonBlocking
    requires reader.replies.con == reader.con && !reader.replies.prepare
    requires DumpFits(events, end) && (if events == [] then end.BinlogError? else |events[0]| >= 23)
    requires reader.con.Unread() == BinlogStream(events, end, reader.con.packetNumber) + rest
    modifies reader, reader.replies, reader.con, reader.con.buffer, reader.con.socket
    ensures events != [] ==>
      var d := Decoded(reader, events[1..], end, old(reader.hasChecksums));
      if SocketFailure(ret) then reader.con.Cut() && got <= d.fields else ret == d.ret && got == d.fields
    ensures events == [] ==>
      got == [] &&
      if ret == ErrorCode then
        reader.con.Valid() && reader.con.Unread() == rest && reader.replies.errorCode == end.code &&
        reader.replies.sqlstate == end.sqlstate
      else SocketFailure(ret) && reader.con.Cut()
    ensures reader.con.stack == []
  {
    hide Connection.Window, Connection.Unread, Allocation, BinlogStream, BinlogFits, Frame, Connection.Cut, Decoded;
    hide DumpFits, FieldsOf, LeValue, BinlogReader.Announces, BinlogReader.WrongChecksum, BinlogBytes, NextPacket;
    EventsHaveHeaders(events, end);
    got := [];
    ret := TakeFirst(reader, events, end, rest);
    if ret == Ok {
      reader.con.stack := [PacketRead] + [BinlogRead];
      TailFits(events, end);
      ret, got := ReceiveEvents(reader, events[1..], end, rest);
    }
  }

  /** The same when the server answers with the end of the dump at once and waits for the
      next command: the EOF packet is taken for the reply, and the loop waits for another
      packet until the network fails. */
  method ReceiveNothing(reader: BinlogReader, ghost end: BinlogPacket) returns (ret: Ret)
    requires reader.con.Valid() && reader.con.stack == [PacketRead, ResultRead] && !reader.con.nonBlocking
    requires reader.replies.con == reader.con && !reader.replies.prepare
    requires end.EndOfBinlog? && DumpFits([], end)
    requires reader.con.Unread() == BinlogStream([], end, reader.con.packetNumber)
    modifies reader.replies, reader.con, reader.con.buffer, reader.con.socket
    ensures SocketFailure(ret) && reader.con.stack == []
  {
    hide Connection.Window, Connection.Unread, Allocation, BinlogStream, BinlogFits, Connection.Cut, DumpFits, NextPacket;
    assert reader.con.Unread() + [] == reader.con.Unread();
    ret := TakeFirst(reader, [], end, []);
    if ret == Ok {
      reader.con.stack := [PacketRead] + [BinlogRead];
      NothingComes(reader.con);
      MoreBytesSamePacket(reader.con.Window(), reader.con.socket.incoming, reader.con.packetNumber);
      ret := reader.con.AwaitPacket();
    }
  }

  lemma NothingComes(con: Connection)
    requires con.Valid() && con.Unread() == []
    ensures NextPacket(con.Unread(), con.packetNumber).Incomplete?
  {
  }

  /** What drizzle_state_result_read makes of the first packet. */
  function FirstReply(events: seq<seq<byte>>, end: BinlogPacket): Reply
    requires events == [] ==> !end.Event?
  {
    if events != [] then LikeOk(events[0])
    else if end.EndOfBinlog? then EofReply(end.warnings, end.status, [])
    else ErrorReply(end.code, end.sqlstate, end.message)
  }

  lemma FirstIsReply(events: seq<seq<byte>>, end: BinlogPacket)
    requires DumpFits(events, end) && (events != [] ==> |events[0]| >= 23)
    ensures var r := FirstReply(events, end);
      && ReplyFits(r, false) && ReplyBytes(r) == BinlogBytes(if events == [] then end else Event(0, events[0]))
      && (IsError(r) <==> events == [] && end.BinlogError?)
  {
    hide Le;
    if events == [] && end.EndOfBinlog? {
      assert [254] + Le(end.warnings, 2) + Le(end.status, 2) + [] == [254] + Le(end.warnings, 2) + Le(end.status, 2);
    }
  }

  /** The wait for the reply to the request. */
  method TakeFirst(reader: BinlogReader, ghost events: seq<seq<byte>>, ghost end: BinlogPacket, ghost rest: seq<byte>)
    returns (ret: Ret)
    requires reader.con.Valid() && reader.con.stack == [PacketRead, ResultRead]
    requires reader.replies.con == reader.con && !reader.replies.prepare
    requires DumpFits(events, end) && (events != [] ==> |events[0]| >= 23)
    requires reader.con.Unread() == BinlogStream(events, end, reader.con.packetNumber) + rest
    modifies reader.replies, reader.con, reader.con.buffer, reader.con.socket
    ensures reader.con.Valid() && (reader.con.buffer == old(reader.con.buffer) || fresh(reader.con.buffer))
    ensures reader.con.stack == []
    ensures SocketFailure(ret) ==> reader.con.Cut()
    ensures !SocketFailure(ret) ==> ret == if events == [] && end.BinlogError? then ErrorCode else Ok
    ensures !SocketFailure(ret) ==>
      reader.con.Unread() == if events == [] then rest else BinlogStream(events[1..], end, reader.con.packetNumber) + rest
    ensures ret == ErrorCode ==> reader.replies.errorCode == end.code && reader.replies.sqlstate == end.sqlstate
  {
    hide Connection.Window, Allocation, BinlogStream, BinlogFits, Frame, Connection.Cut, DumpFits, Facing;
    hide NumbersFit, ReplyBytes, ReplyFits, BinlogBytes;
    var con := reader.con;
    ghost var number: byte := con.packetNumber;
    NextEvent(events, end, number, rest);
    FirstIsReply(events, end);
    ghost var reply := FirstReply(events, end);
    ret := Await(con, ReplyBytes(reply), if events == [] then rest
                                         else BinlogStream(events[1..], end, (number + 1) % 256) + rest);
    if ret == Ok {
      var info;
      ret, info := reader.replies.StateResultRead(reply, con.Window()[con.packetSize..]);
    }
  }

  lemma TailFits(events: seq<seq<byte>>, end: BinlogPacket)
    requires DumpFits(events, end) && events != []
    ensures DumpFits(events[1..], end)
  {
    hide BinlogFits, BinlogBytes;
  }

  lemma EventsHaveHeaders(events: seq<seq<byte>>, end: BinlogPacket)
    requires DumpFits(events, end)
    ensures forall i :: 0 <= i < |events| ==> |events[i]| >= 19
  {
  }

  lemma DecodedStep(reader: BinlogReader, events: seq<seq<byte>>, end: BinlogPacket, checksums: bool)
    requires DumpFits(events, end)
    ensures !end.Event?
    ensures events == [] ==>
      Decoded(reader, events, end, checksums) == Dump([], if end.EndOfBinlog? then EndOfData else ErrorCode)
    ensures events != [] ==>
      var raw := events[0];
      var now, d := checksums || reader.Announces(raw), Decoded(reader, events, end, checksums);
      && DumpFits(events[1..], end)
      && if LeValue(raw[9..13]) != |raw| then d == Dump([], UnexpectedData)
         else if now && reader.WrongChecksum(raw) then d == Dump([], BadChecksum)
         else var tail := Decoded(reader, events[1..], end, now); d == Dump([FieldsOf(raw, now)] + tail.fields, tail.ret)
  {
    hide LeValue, FieldsOf, BinlogFits, BinlogBytes;
  }

  // ------------------------------------------------------------------ greeting

  /** The client's side up to the server's greeting, with nothing behind it. */
  method ReceiveGreeting(session: Handshake.Session, ghost g: Handshake.Greeting, ghost extra: seq<byte>) returns (ret: Ret)
    requires session.Valid() && session.con.stack == [PacketRead, HandshakeServerRead]
    requires Handshake.GreetingFits(g) && Capabilities.PROTOCOL_41 in g.capabilities
    requires |Handshake.GreetingBytes(10, g) + extra| < 0x100_0000
    requires session.con.Unread() == Frame(session.con.packetNumber, Handshake.GreetingBytes(10, g) + extra)
    modifies session`protocolVersion, session`serverVersion, session`serverExtra, session`threadId
    modifies session`capabilities, session`charset, session`status, session`scramble, session.scrambleBuffer
    modifies session.replies, session.con, session.con.buffer, session.con.socket
    ensures ret == Ok || (SocketFailure(ret) && session.con.Cut())
    ensures ret == Ok ==>
      session.Valid() && (session.con.buffer == old(session.con.buffer) || fresh(session.con.buffer)) &&
      session.HasRead(Handshake.Greeted(g.(capabilities := Capabilities.Below(g.capabilities, 16)),
                                        Clip(extra, Handshake.MAX_EXTRA))) &&
      session.con.Window() == [] && session.con.bufferPtr == 0 &&
      session.con.packetNumber == (old(session.con.packetNumber) + 1) % 256 &&
      session.con.stack == [HandshakeClientWrite, Write, PacketRead, HandshakeResultRead]
  {
    hide Connection.Window, NextPacket, Allocation, Frame, Handshake.GreetingBytes, Handshake.ReadGreeting, Connection.Cut;
    hide Handshake.Terminated;
    var con := session.con;
    ghost var payload := Handshake.GreetingBytes(10, g) + extra;
    assert Frame(con.packetNumber, payload) + [] == Frame(con.packetNumber, payload);
    ret := Await(con, payload, []);
    if ret == Ok {
      Handshake.GreetingRoundTrip(g, extra);
      GreetingStarts(g, extra);
      assert con.Window()[con.packetSize..] == [] && payload + [] == payload;
      var wild;
      ret, wild := session.StateServerRead();
    }
  }

  lemma GreetingStarts(g: Handshake.Greeting, extra: seq<byte>)
    requires |g.scramble| == 20
    ensures var w := Handshake.GreetingBytes(10, g) + extra; |w| >= 46 && w[0] == 10
  {
  }

  // ---------------------------------------------------------------- both sides

  /** The two ends of a connection share nothing. */
  ghost predicate Apart(server: Handshake.Session, client: Handshake.Session)
    reads server.con`buffer, client.con`buffer
  {
    && server != client && server.con != client.con && server.replies != client.replies
    && {server.con.buffer as object, server.scrambleBuffer as object, server.password as object} !!
       {client.con.buffer as object, client.scrambleBuffer as object, client.password as object}
  }

  /** The server writes its greeting; `bytes` is what drizzle_state_write finds in the
      buffer. */
  method ServerGreets(server: Handshake.Session) returns (bytes: seq<byte>)
    requires server.Valid() && server.con.stack != [] && server.con.bufferPtr == 0 && server.con.bufferSize == 0
    requires server.protocolVersion == 10 && server.scramble != null
    modifies server`capabilities, server.con`packetSize, server.con`packetNumber, server.con`bufferPtr
    modifies server.con`bufferSize, server.con`stack, server.con.buffer
    ensures server.Valid() && bytes == Frame(0, Handshake.GreetingBytes(10, server.Greets()))
    ensures Handshake.GreetingFits(server.Greets()) && Capabilities.PROTOCOL_41 in server.Greets().capabilities
    ensures server.Greets().scramble == WireOf(server.scrambleBuffer[..])
    ensures server.con.stack == old(server.con.stack)[1..] && server.con.packetNumber == 1
    ensures server.con.bufferPtr == 0 && server.con.bufferSize == 0
  {
    hide Connection.Window, Allocation, Frame, Handshake.GreetingBytes, Handshake.Terminated, WireOf;
    var ret := server.StateServerWrite();
    bytes := server.con.Slice(0, server.con.bufferSize);
    assert bytes == server.con.Window();
    // drizzle_state_write empties the buffer
    server.con.bufferPtr, server.con.bufferSize := 0, 0;
  }

  /** The client answers the greeting it has read. */
  method ClientAnswers(client: Handshake.Session) returns (bytes: seq<byte>)
    requires client.Valid() && client.con.stack != [] && client.con.bufferPtr == 0 && client.con.bufferSize == 0
    requires client.scramble != null && !client.rawScramble && !client.authPlugin && client.Secret() != []
    modifies client`capabilities, client.con`packetSize, client.con`packetNumber, client.con`bufferPtr
    modifies client.con`bufferSize, client.con`stack, client.con.buffer
    ensures client.Valid() && !client.LacksScramble()
    ensures var l := client.Sends();
      && bytes == Frame(old(client.con.packetNumber), Handshake.LoginBytes(l))
      && Handshake.LoginFits(l) && Capabilities.PROTOCOL_41 in l.capabilities
      && l.auth == Some(WireOf(Login.Reply(client.Secret(), client.scrambleBuffer[..])))
      && l.user == client.user && l.db == client.db
    ensures client.con.bufferPtr == 0 && client.con.bufferSize == 0
  {
    hide Connection.Window, Allocation, Frame, Handshake.LoginBytes, Handshake.Terminated, WireOf, Login.Reply, Login.CString;
    hide Handshake.Compiled;
    var ret := client.StateClientWrite();
    Handshake.CompiledBits(client.capabilities, client.foundRows, client.interactive, client.multiStatements,
                           client.authPlugin, client.db != []);
    bytes := client.con.Slice(0, client.con.bufferSize);
    assert bytes == client.con.Window();
    // drizzle_state_write empties the buffer
    client.con.bufferPtr, client.con.bufferSize := 0, 0;
  }

  /** drizzle_state_write on bytes in the buffer, resumed whenever it had to wait. */
  method Transmit(w: Command.Writer, bytes: seq<byte>) returns (ret: Ret)
    requires w.Valid()
    modifies w`bufferPtr, w`bufferSize, w`stack, w.peer
    ensures w.Valid() && w.peer.sent <= old(w.peer.sent) + bytes
    ensures if ret == Ok then w.peer.sent == old(w.peer.sent) + bytes else SocketFailure(ret) && w.Cut()
  {
    hide Command.Writer.Pending, Command.Writer.Cut, Command.Peer.Left;
    ghost var wire := w.peer.sent + bytes;
    w.bufferPtr, w.bufferSize, w.stack := Command.InCaller(bytes), |bytes|, [Write];
    PendingBytes(w, bytes);
    ret := w.StateWrite();
    while ret == IoWait
      invariant w.Valid() && w.peer.sent + w.Pending() == wire
      invariant ret == IoWait ==> w.stack == [Write]
      invariant ret == Ok ==> w.bufferSize == 0
      invariant ret.Ok? || ret.IoWait? || (SocketFailure(ret) && w.Cut())
      decreases ret == IoWait, w.peer.Left()
    {
      ret := w.StateWrite();
    }
    if ret == Ok {
      assert |w.Pending()| == 0 && w.peer.sent + [] == w.peer.sent;
    }
  }

  lemma PendingBytes(w: Command.Writer, bytes: seq<byte>)
    requires w.Valid() && w.bufferPtr == Command.InCaller(bytes)
    ensures w.Pending() == bytes
  {
  }

  /** The server takes the client's packet off the network. */
  method ServerReads(server: Handshake.Session, ghost l: Handshake.LoginData) returns (ret: Ret)
    requires server.Valid() && server.con.bufferPtr == 0 && server.con.bufferSize == 0
    requires Handshake.LoginFits(l) && Capabilities.PROTOCOL_41 in l.capabilities
    requires server.con.socket.incoming == Frame(server.con.packetNumber, Handshake.LoginBytes(l))
    modifies server, server.scrambleBuffer, server.con, server.con.buffer, server.con.socket
    ensures if ret == Ok then server.HasLogin(l) else SocketFailure(ret) && server.con.Cut()
  {
    hide Connection.Window, Allocation, Frame, Handshake.LoginBytes, Handshake.ReadLogin, Handshake.Session.HasLogin;
    hide NextPacket, Connection.Cut;
    var con := server.con;
    ghost var login := Handshake.LoginBytes(l);
    LoginIsSmall(l);
    Handshake.LoginRoundTrip(l);
    assert |con.Window()| == 0 && [] + Frame(con.packetNumber, login) == Frame(con.packetNumber, login) + [];
    con.stack := [PacketRead] + [HandshakeClientRead];
    ret := Await(con, login, []);
    if ret == Ok {
      assert con.Window()[con.packetSize..] == [] && login + [] == login;
      ret := server.StateClientRead();
    }
  }

  lemma LoginIsSmall(l: Handshake.LoginData)
    requires Handshake.LoginFits(l)
    ensures |Handshake.LoginBytes(l)| < 0x100_0000
  {
  }

  /** A handshake between the library's server side and its client side, over a network
      that cuts both directions as it likes: the client, who has the password, answers
      the scramble it reads off the network, and the answer the server reads off it
      passes the check of one who holds only the password's hash. */
  method LogIn(server: Handshake.Session, client: Handshake.Session, down: Command.Writer, up: Command.Writer)
    returns (ret: Ret)
    requires server.Valid() && client.Valid() && Apart(server, client)
    requires server.con.stack != [] && server.con.bufferPtr == 0 && server.con.bufferSize == 0
    requires server.protocolVersion == 10 && server.scramble != null
    requires client.con.stack == [PacketRead, HandshakeServerRead] && client.con.packetNumber == 0
    requires client.con.bufferSize == 0 && client.con.socket != server.con.socket
    requires !client.rawScramble && !client.authPlugin && client.Secret() != []
    requires down.Valid() && up.Valid() && down != up && down.peer != up.peer
    modifies server, server.con, server.con.buffer, server.con.socket, server.scrambleBuffer
    modifies client, client.scrambleBuffer, client.replies, client.con, client.con.buffer, client.con.socket
    modifies down, down.peer, up, up.peer
    ensures ret == Ok ||
      (SocketFailure(ret) && (client.con.Cut() || server.con.Cut() || down.Cut() || up.Cut()))
    ensures ret == Ok ==>
      server.scramble != null && server.user == old(client.user) && server.db == old(client.db) &&
      Login.ServerAccepts(Login.StoredHash(old(client.Secret())), old(server.scrambleBuffer[..]),
                          server.scrambleBuffer[..])
  {
    hide Connection.Window, Allocation, Frame, Handshake.GreetingBytes, Handshake.LoginBytes, Connection.Cut, WireOf;
    hide Handshake.Terminated, Login.Reply, Login.CString, Login.ServerAccepts, Login.StoredHash, Command.Writer.Cut;
    ghost var secret, sent := client.Secret(), server.scrambleBuffer[..];
    ret := Greeted(server, client, down);
    if ret == Ok {
      ret := Answered(server, client, up, secret, sent);
    }
  }

  /** The server's greeting, written, sent and read. */
  method Greeted(server: Handshake.Session, client: Handshake.Session, down: Command.Writer) returns (ret: Ret)
    requires server.Valid() && client.Valid() && Apart(server, client) && down.Valid()
    requires server.con.stack != [] && server.con.bufferPtr == 0 && server.con.bufferSize == 0
    requires server.protocolVersion == 10 && server.scramble != null
    requires client.con.stack == [PacketRead, HandshakeServerRead] && client.con.packetNumber == 0
    requires client.con.bufferSize == 0
    modifies server`capabilities, server.con`packetSize, server.con`packetNumber, server.con`bufferPtr
    modifies server.con`bufferSize, server.con`stack, server.con.buffer, down, down.peer
    modifies client`protocolVersion, client`serverVersion, client`serverExtra, client`threadId
    modifies client`capabilities, client`charset, client`status, client`scramble, client.scrambleBuffer
    modifies client.replies, client.con, client.con.buffer, client.con.socket
    ensures ret == Ok || (SocketFailure(ret) && (client.con.Cut() || down.Cut()))
    ensures ret == Ok ==>
      server.Valid() && client.Valid() && Apart(server, client) && server.con.buffer == old(server.con.buffer) &&
      (client.con.buffer == old(client.con.buffer) || fresh(client.con.buffer)) &&
      server.con.packetNumber == 1 && server.con.bufferPtr == 0 && server.con.bufferSize == 0 &&
      client.con.packetNumber == 1 && client.con.bufferPtr == 0 && client.con.bufferSize == 0 && client.con.stack != [] &&
      client.scramble != null && WireOf(client.scrambleBuffer[..]) == WireOf(server.scrambleBuffer[..])
  {
    hide Connection.Window, Allocation, Frame, Handshake.GreetingBytes, Connection.Cut, WireOf;
    hide Handshake.Terminated, Command.Writer.Cut;
    var hello := ServerGreets(server);
    ret := Carry(down, hello, client.con.socket);
    if ret == Ok {
      ret := ReceiveHello(client, server.Greets());
    }
  }

  /** What one side sends is what the other side's socket holds. */
  method Carry(w: Command.Writer, bytes: seq<byte>, socket: Socket) returns (ret: Ret)
    requires w.Valid()
    modifies w`bufferPtr, w`bufferSize, w`stack, w.peer, socket`incoming
    ensures w.Valid()
    ensures if ret == Ok then socket.incoming == bytes else SocketFailure(ret) && w.Cut()
  {
    var before := |w.peer.sent|;
    ret := Transmit(w, bytes);
    socket.incoming := if ret == Ok then w.peer.sent[before..] else [];
  }

  /** The client's answer, written, sent and read. */
  method Answered(server: Handshake.Session, client: Handshake.Session, up: Command.Writer, ghost secret: seq<Octet>,
                  ghost sent: seq<Octet>) returns (ret: Ret)
    requires server.Valid() && client.Valid() && Apart(server, client) && up.Valid()
    requires server.con.bufferPtr == 0 && server.con.bufferSize == 0
    requires client.con.bufferPtr == 0 && client.con.bufferSize == 0 && client.con.stack != []
    requires server.con.packetNumber == client.con.packetNumber
    requires client.scramble != null && WireOf(client.scrambleBuffer[..]) == WireOf(sent)
    requires !client.rawScramble && !client.authPlugin && client.Secret() != [] && client.Secret() == secret
    modifies server, server.con, server.con.buffer, server.con.socket, server.scrambleBuffer
    modifies client`capabilities, client.con, client.con.buffer, up, up.peer
    ensures ret == Ok || (SocketFailure(ret) && (server.con.Cut() || up.Cut()))
    ensures ret == Ok ==>
      server.scramble != null && server.user == client.user && server.db == client.db &&
      Login.ServerAccepts(Login.StoredHash(secret), sent, server.scrambleBuffer[..])
  {
    hide Connection.Window, Allocation, Frame, Handshake.LoginBytes, WireOf, Connection.Cut, Command.Writer.Cut;
    hide Handshake.Terminated, Login.Reply, Login.CString, Login.ServerAccepts, Login.StoredHash;
    var answer := ClientAnswers(client);
    ghost var l := client.Sends();
    ret := Carry(up, answer, server.con.socket);
    if ret == Ok {
      ret := ServerReads(server, l);
    }
    if ret == Ok {
      AnswerPasses(secret, sent, client.scrambleBuffer[..], server.scrambleBuffer[..]);
    }
  }

  /** ReceiveGreeting on a buffer that is empty and a stream with nothing but the greeting. */
  method ReceiveHello(client: Handshake.Session, ghost g: Handshake.Greeting) returns (ret: Ret)
    requires client.Valid() && client.con.stack == [PacketRead, HandshakeServerRead] && client.con.bufferSize == 0
    requires Handshake.GreetingFits(g) && Capabilities.PROTOCOL_41 in g.capabilities
    requires client.con.packetNumber == 0 && client.con.socket.incoming == Frame(0, Handshake.GreetingBytes(10, g))
    modifies client`protocolVersion, client`serverVersion, client`serverExtra, client`threadId
    modifies client`capabilities, client`charset, client`status, client`scramble, client.scrambleBuffer
    modifies client.replies, client.con, client.con.buffer, client.con.socket
    ensures ret == Ok || (SocketFailure(ret) && client.con.Cut())
    ensures ret == Ok ==>
      client.Valid() && (client.con.buffer == old(client.con.buffer) || fresh(client.con.buffer)) &&
      client.scramble != null && WireOf(client.scrambleBuffer[..]) == g.scramble &&
      client.con.bufferPtr == 0 && client.con.bufferSize == 0 && client.con.packetNumber == 1 && client.con.stack != []
  {
    hide Connection.Window, Allocation, Frame, Handshake.GreetingBytes, Connection.Cut, WireOf, Handshake.Terminated;
    ghost var bytes := Handshake.GreetingBytes(10, g);
    assert bytes + [] == bytes && |client.con.Window()| == 0 && [] + Frame(0, bytes) == Frame(0, bytes);
    GreetingIsSmall(g);
    ret := ReceiveGreeting(client, g, []);
    if ret == Ok {
      assert |client.con.Window()| == 0;
    }
  }

  lemma GreetingIsSmall(g: Handshake.Greeting)
    requires Handshake.GreetingFits(g)
    ensures |Handshake.GreetingBytes(10, g)| < 0x100_0000
  {
  }

  lemma AnswerPasses(secret: seq<Octet>, sent: seq<Octet>, got: seq<Octet>, answer: seq<Octet>)
    requires WireOf(got) == WireOf(sent) && WireOf(answer) == WireOf(Login.Reply(secret, got))
    ensures Login.ServerAccepts(Login.StoredHash(secret), sent, answer)
  {
    hide WireOf, Login.Reply, Login.ServerAccepts, Login.StoredHash;
    OctetsOfWire(got);
    OctetsOfWire(sent);
    OctetsOfWire(answer);
    OctetsOfWire(Login.Reply(secret, got));
    Login.LoginAccepted(secret, sent);
  }
}
