/** The state functions of the other modules, and what the state loop does with their
    returns, make only the steps that Protocol allows. */
module Steps {
  import opened Bytes
  import opened Pack
  import opened StateStack
  import opened Connection
  import opened Protocol
  import Rows
  import ResultBuffer
  import BinaryRows
  import Consume
  import Handshake
  import Command
  import Connect

  /** The machine a connection shows; `packet` is not in the connection. */
  ghost function View(con: Connection, packet: bool): Machine
    reads con`stack, con`bufferSize, con`packetSize
  {
    Machine(con.stack, con.bufferSize, con.packetSize, packet)
  }

  ghost function ViewOf(w: Command.Writer): Machine
    reads w`stack, w`bufferSize, w`packetSize
  {
    Machine(w.stack, w.bufferSize, w.packetSize, false)
  }

  /** The connection now shows what a step from m leads to. */
  ghost predicate Leads(m: Machine, c: Change, con: Connection)
    reads con`stack, con`bufferSize, con`packetSize
  {
    Step(m, c, View(con, PacketAfter(m, c)))
  }

  /** The returns at which the state loop closes the connection. */
  predicate Closes(ret: Ret) {
    ret !in {Ok, IoWait, Pause, ErrorCode}
  }

  /** What the state loop does with a return. */
  method Returned(con: Connection, ret: Ret, ghost c: Change, ghost m: Machine) returns (ghost done: Change)
    requires Allocation(con.buffer.Length) && (!Closes(ret) ==> Leads(m, c, con))
    modifies con`packetNumber, con`bufferPtr, con`bufferSize, con`readable, con`stack
    ensures Leads(m, done, con) && done == if Closes(ret) then ClearAll else c
  {
    done := c;
    if Closes(ret) {
      con.Close();
      done := ClearAll;
    }
  }

  lemma Popped(m: Machine, n: Machine)
    requires m.stack != [] && n.stack == m.stack[1..]
    ensures n.stack == After(m.stack, POP)
  {
    assert [] + m.stack[1..] == m.stack[1..];
  }

  /** drizzle_state_read. */
  method ReadStep(con: Connection, ghost packet: bool) returns (ret: Ret, ghost c: Change)
    requires con.Valid() && con.stack != [] && con.stack[0] == Read && con.bufferSize < 0x100_0003
    modifies con, con.buffer, con.socket
    ensures Leads(old(View(con, packet)), c, con)
    ensures Closes(ret) ==> c == ClearAll
  {
    hide Connection.Window, Allocation;
    ghost var m := View(con, packet);
    ret := con.StateRead();
    c := if ret == Ok then POP else Stay;
    if ret == Ok {
      Popped(m, View(con, packet));
    }
    c := Returned(con, ret, c, m);
  }

  /** drizzle_state_packet_read. */
  method PacketReadStep(con: Connection, ghost packet: bool) returns (ret: Ret, ghost c: Change)
    requires con.Valid() && con.stack != [] && con.stack[0] == PacketRead
    modifies con
    ensures Leads(old(View(con, packet)), c, con)
    ensures Closes(ret) ==> c == ClearAll
  {
    hide Connection.Window, Allocation, NextPacket;
    ghost var m := View(con, packet);
    ret := con.StatePacketRead();
    c := if |con.stack| > |m.stack| then MORE_DATA else POP;
    if ret == Ok && c == POP {
      Popped(m, View(con, packet));
      assert con.bufferSize == |con.Window()|;
    }
    c := Returned(con, ret, c, m);
  }

  /** drizzle_state_result_read, and drizzle_state_handshake_result_read around it, which
      turns an error packet and an EOF packet into failures of its own. */
  method ResultReadStep(reader: Consume.ReplyReader, ghost r: Consume.Reply, ghost rest: seq<byte>)
    returns (ret: Ret, ghost c: Change)
    requires reader.con.stack != [] && reader.con.stack[0] in {ResultRead, HandshakeResultRead}
    requires Consume.ReplyFits(r, reader.prepare) && Allocation(reader.con.buffer.Length)
    requires reader.con.packetSize <= reader.con.bufferSize ==> Consume.Facing(reader.con, Consume.ReplyBytes(r), rest)
    modifies reader, reader.con
    ensures Leads(old(View(reader.con, true)), c, reader.con)
    ensures Closes(ret) ==> c == ClearAll
    ensures old(reader.con.packetSize <= reader.con.bufferSize) ==>
      var handshake, last := old(reader.con.stack)[0] == HandshakeResultRead, |old(reader.con.stack)| == 1;
      ret == if Consume.IsError(r) then (if handshake then HandshakeFailed else ErrorCode)
             else if handshake && last && reader.eofPacket then AuthFailed else Ok
  {
    hide Connection.Window, Allocation, Consume.ReplyBytes, Consume.ReplyFits, Consume.ReplyReader.Holds;
    ghost var m := View(reader.con, true);
    var handshake := reader.con.stack[0] == HandshakeResultRead;
    var info;
    ret, info := reader.StateResultRead(r, rest);
    c := if m.bufferSize < m.packetSize then MORE_DATA else POP;
    if c == POP {
      Popped(m, View(reader.con, false));
    }
    if handshake {
      if reader.con.stack == [] && ret == Ok && reader.eofPacket {
        ret := AuthFailed;
      }
      if ret == ErrorCode {
        ret := HandshakeFailed;
      }
    }
    c := Returned(reader.con, ret, c, m);
  }

  /** drizzle_state_column_read. */
  method ColumnReadStep(reader: Consume.ColumnReader, ghost p: Consume.ColumnPacket, ghost rest: seq<byte>)
    returns (ret: Ret, ghost c: Change)
    requires reader.con.stack != [] && reader.con.stack[0] == ColumnRead && Consume.PacketFits(p)
    requires reader.con.packetSize <= reader.con.bufferSize ==> Consume.Facing(reader.con, Consume.PacketBytes(p), rest)
    modifies reader, reader.con`stack, reader.con`bufferPtr, reader.con`bufferSize, reader.con`packetSize
    ensures Leads(old(View(reader.con, true)), c, reader.con)
  {
    hide Connection.Window, Allocation, Consume.PacketBytes, Consume.PacketFits, Consume.Stored;
    ghost var m := View(reader.con, true);
    ret := reader.StateColumnRead(p, rest);
    c := if m.bufferSize < m.packetSize then MORE_DATA else POP;
    if c == POP {
      Popped(m, View(reader.con, false));
    }
  }

  /** drizzle_state_binlog_read.  At the end of the dump it pops itself, and the loop
      closes the connection. */
  method BinlogReadStep(reader: Consume.BinlogReader, ghost p: Consume.BinlogPacket, ghost rest: seq<byte>)
    returns (ret: Ret, ghost c: Change)
    requires reader.con.stack != [] && reader.con.stack[0] == BinlogRead && Consume.BinlogFits(p)
    requires reader.replies.con == reader.con && reader.con.packetSize > 0 && Allocation(reader.con.buffer.Length)
    requires reader.con.packetSize <= reader.con.bufferSize ==> Consume.Facing(reader.con, Consume.BinlogBytes(p), rest)
    modifies reader, reader.replies, reader.con
    ensures Leads(old(View(reader.con, true)), c, reader.con)
    ensures Closes(ret) ==> c == ClearAll
  {
    hide Connection.Window, Allocation, Consume.BinlogBytes, Consume.BinlogFits, Consume.FieldsOf, LeValue;
    ghost var m := View(reader.con, true);
    ret := reader.StateBinlogRead(p, rest);
    c := if m.bufferSize < m.packetSize then MORE_DATA
         else if ret == Ok then Replace([PacketRead, BinlogRead]) else POP;
    if c == POP && ret == ErrorCode {
      Popped(m, View(reader.con, false));
    }
    c := Returned(reader.con, ret, c, m);
  }

  /** drizzle_state_row_read. */
  method RowReadStep(result: ResultBuffer.Result) returns (ghost c: Change)
    requires result.con.Valid() && result.con.stack == [RowRead] && result.con.packetSize > 0
    requires result.con.bufferSize >= result.con.packetSize || result.con.bufferSize < 5
    modifies result`rowCount, result`rowCurrent, result.reader`fieldCurrent
    modifies result.con`stack, result.con`bufferPtr, result.con`bufferSize
    ensures Leads(old(View(result.con, true)), c, result.con)
  {
    hide Connection.Window, Allocation;
    ghost var m, w := View(result.con, true), result.con.Window();
    result.StateRowRead();
    c := if result.con.stack == [Read, RowRead] then MORE_DATA
         else if result.con.stack == [ResultRead] then Replace([ResultRead]) else POP;
    assert [Read, RowRead] == [Read] + [RowRead] && [ResultRead] + [RowRead][1..] == [ResultRead];
    assert |result.con.Window()| == result.con.bufferSize;
    if c == POP {
      Popped(m, View(result.con, false));
    }
  }

  /** drizzle_state_field_read. */
  method FieldReadStep(reader: Rows.FieldReader, ghost packet: bool) returns (ghost c: Change)
    requires reader.con.Valid() && reader.con.stack == [FieldRead] && reader.con.packetSize > 0
    requires reader.fieldOffset + reader.fieldSize <= reader.fieldTotal
    requires Rows.Covered(reader.Cur(), reader.con.Window(), reader.con.packetSize)
    modifies reader
    modifies reader.con`stack, reader.con`bufferPtr, reader.con`bufferSize, reader.con`packetSize
    ensures Leads(old(View(reader.con, packet)), c, reader.con)
  {
    hide Connection.Window, Allocation, Rows.FieldStep, Rows.Covered;
    ghost var m := View(reader.con, packet);
    reader.StateFieldRead();
    c := if reader.con.stack == [Read, FieldRead] then MORE_DATA else if reader.con.stack == [] then POP else Stay;
    assert [Read, FieldRead] == [Read] + [FieldRead];
    if c == POP {
      Popped(m, View(reader.con, packet));
    }
  }

  /** drizzle_state_handshake_server_read, without SSL: with the packet just announced,
      or without one after it has reported an error.  Without one it fails unless the
      stale byte it looks at is 255. */
  method ServerReadStep(session: Handshake.Session, ghost packet: bool) returns (ret: Ret, ghost c: Change)
    requires session.Valid() && session.con.stack != [] && session.con.stack[0] == HandshakeServerRead
    requires packet || session.con.packetSize == 0
    requires session.con.packetSize <= session.con.bufferSize ==> session.con.bufferPtr < session.con.buffer.Length
    modifies session, session.replies, session.scrambleBuffer, session.con
    ensures Leads(old(View(session.con, packet)), c, session.con)
    ensures Closes(ret) ==> c == ClearAll
    ensures !packet ==> c == if old(session.con.First()) == 255 then Stay else ClearAll
  {
    hide Connection.Window, Allocation, Handshake.ReadGreeting, Handshake.Session.HasRead;
    ghost var m, w := View(session.con, packet), session.con.Window();
    GreetingReturns(w, session.con.packetSize);
    var wild;
    ret, wild := session.StateServerRead();
    c := if m.bufferSize < m.packetSize then MORE_DATA
         else if ret == ErrorCode then Stay else Replace(Answer(false));
    assert Answer(false) == [HandshakeClientWrite, Write, PacketRead, HandshakeResultRead];
    c := Returned(session.con, ret, c, m);
  }

  lemma GreetingReturns(w: seq<byte>, size: nat)
    ensures Handshake.ReadGreeting(w, size).NeedBytes? <==> |w| < size
    ensures Handshake.ReadGreeting(w, size).Bad? ==>
      var p := Handshake.ReadGreeting(w, size).problem;
      if p == Handshake.ErrorPacket then Handshake.RetOf(p) == ErrorCode else Closes(Handshake.RetOf(p))
    ensures size == 0 ==> Handshake.ReadGreeting(w, size) == Handshake.Bad(Handshake.BadSize)
  {
    hide FindZero;
  }

  /** drizzle_state_handshake_client_write, without SSL. */
  method ClientWriteStep(session: Handshake.Session, ghost packet: bool) returns (ret: Ret, ghost c: Change)
    requires session.Valid() && session.con.stack != [] && session.con.stack[0] == HandshakeClientWrite
    requires session.con.bufferPtr == 0 && session.con.bufferSize == 0
    modifies session`capabilities, session.con, session.con.buffer
    ensures Leads(old(View(session.con, packet)), c, session.con)
    ensures Closes(ret) ==> c == ClearAll
  {
    hide Connection.Window, Allocation, Frame, Handshake.LoginBytes, Handshake.Session.Sends;
    ghost var m := View(session.con, packet);
    ret := session.StateClientWrite();
    c := POP;
    if ret == Ok {
      Popped(m, View(session.con, packet));
    }
    c := Returned(session.con, ret, c, m);
  }

  /** drizzle_state_write. */
  method WriteStep(w: Command.Writer) returns (ret: Ret, ghost c: Change)
    requires w.Valid() && w.stack != [] && w.stack[0] == Write
    modifies w`bufferPtr, w`bufferSize, w`stack, w`packetNumber, w.peer
    ensures Step(old(ViewOf(w)), c, ViewOf(w))
    ensures Closes(ret) ==> c == ClearAll
  {
    hide Command.Writer.Pending;
    ghost var m := ViewOf(w);
    ret := w.StateWrite();
    c := if ret == Ok then POP else Stay;
    if ret == Ok {
      Popped(m, ViewOf(w));
    } else if ret != IoWait {
      w.Close();
      c := ClearAll;
    }
  }

  /** drizzle_state_command_write. */
  method CommandWriteStep(w: Command.Writer) returns (ret: Ret, ghost c: Change)
    requires w.Writing() && w.stack == [CommandWrite]
    modifies w`bufferPtr, w`bufferSize, w`packetSize, w`packetNumber, w`commandData, w`commandOffset, w`stack, w.buffer
    ensures ret == Ok || ret == Pause
    ensures Step(old(ViewOf(w)), c, ViewOf(w))
  {
    hide Command.Writer.Pending, Command.Owed, Command.Header;
    ret := w.StateCommandWrite();
    c := if ret == Pause then Stay
         else if CommandWrite in w.stack then Put([Write])
         else if w.Reply() == [] then Replace([Write])
         else Replace([Write, PacketRead, ResultRead]);
    assert [Write] + [CommandWrite] == [Write, CommandWrite] && [CommandWrite][1..] == [];
    assert [Write] + [PacketRead, ResultRead] == [Write, PacketRead, ResultRead];
  }

  /** drizzle_state_binary_null_read. */
  method NullReadStep(reader: BinaryRows.BinaryReader, ghost packet: bool) returns (ghost c: Change)
    requires reader.con.Valid() && reader.con.stack == [BinaryNullRead]
    requires 1 + BinaryRows.BitmapLength(|reader.types|) <= reader.con.packetSize <= reader.con.bufferSize
    modifies reader`nullBitmap, reader`nullBitcount
    modifies reader.con`stack, reader.con`bufferPtr, reader.con`bufferSize, reader.con`packetSize
    ensures Leads(old(View(reader.con, packet)), c, reader.con)
  {
    hide Connection.Window, Allocation, BinaryRows.BinaryReader.Left;
    ghost var m := View(reader.con, packet);
    reader.StateNullRead();
    c := POP;
    Popped(m, View(reader.con, packet));
  }

  /** drizzle_state_binary_field_read: it takes a value, waits at a length that is cut,
      or fails. */
  method BinaryFieldReadStep(reader: BinaryRows.BinaryReader, ghost packet: bool, ghost next: nat)
    returns (ret: Ret, ghost c: Change)
    requires reader.con.Valid() && reader.con.stack == [BinaryFieldRead]
    requires reader.con.packetSize <= reader.con.bufferSize
    requires reader.nullBitmap.Length == BinaryRows.BitmapLength(|reader.types|)
    requires reader.fieldCurrentRead <= next < |reader.types| && !BinaryRows.NullBit(reader.nullBitmap[..], next)
    requires forall k :: reader.fieldCurrentRead <= k < next ==> BinaryRows.NullBit(reader.nullBitmap[..], k)
    requires reader.ValueInPacket(reader.types[next])
    modifies reader`fieldCurrent, reader`fieldCurrentRead, reader`fieldSize, reader`field, reader.con
    ensures Leads(old(View(reader.con, packet)), c, reader.con)
  {
    hide Connection.Window, Allocation, BinaryRows.BinaryReader.Left, BinaryRows.WidthOf, BinaryRows.NullBit;
    hide BinaryRows.BinaryReader.ValueInPacket, DecodeLength, Leads, Closes;
    ghost var m := View(reader.con, packet);
    ret := reader.StateFieldRead(next);
    c := if ret == Ok then POP else Stay;
    ValueLeads(m, c, reader.con, ret);
    c := Returned(reader.con, ret, c, m);
  }

  lemma ValueLeads(m: Machine, c: Change, con: Connection, ret: Ret)
    requires m.stack == [BinaryFieldRead] && ret in {Ok, IoWait, UnexpectedData, NullLength}
    requires if ret == Ok then c == POP && con.stack == [] else c == Stay && con.stack == m.stack
    ensures !Closes(ret) ==> Leads(m, c, con)
  {
    if ret == Ok {
      Popped(m, View(con, PacketAfter(m, c)));
    }
  }

  /** drizzle_state_connect and drizzle_state_connecting. */
  method ConnectStep(connector: Connect.Connector, attempt: Connect.Attempt, state: Connect.SocketState,
                     ghost addresses: seq<Connect.Address>, ghost beneath: seq<StateFn>)
    returns (ret: Ret, ghost c: Change)
    requires connector.InStep(addresses, beneath) && |connector.stack| > |beneath|
    modifies connector
    ensures Step(Machine(old(connector.stack), 0, 0, false), c, Machine(connector.stack, 0, 0, false))
    ensures Closes(ret) ==> c == ClearAll
  {
    ghost var m := Machine(connector.stack, 0, 0, false);
    ret := connector.Step(attempt, state, addresses, beneath);
    ghost var n := Machine(connector.stack, 0, 0, false);
    c := if n.stack == m.stack then Stay else if |n.stack| < |m.stack| then POP else Replace(n.stack[..1]);
    if Closes(ret) {
      connector.stack := [];
      c := ClearAll;
    } else if c == POP {
      Popped(m, n);
    } else if c != Stay {
      assert n.stack == n.stack[..1] + m.stack[1..] && n.stack[..1] == [n.stack[0]];
    }
  }
}
