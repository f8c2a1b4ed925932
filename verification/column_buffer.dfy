/** drizzle_column_read and drizzle_column_buffer of src/column.cc: the definitions of a
    result, from the byte stream into column_buffer. */
module ColumnBuffer {
  import opened Bytes
  import opened Pack
  import opened StateStack
  import opened Connection
  import opened Consume

  /** The columns of a result on the wire, and the EOF packet behind them. */
  function ColumnStream(defs: seq<ColumnDef>, end: ColumnPacket, number: byte): seq<byte> {
    if defs == [] then Frame(number, PacketBytes(end))
    else Frame(number, ColumnBytes(defs[0])) + ColumnStream(defs[1..], end, (number + 1) % 256)
  }

  predicate ColumnsFit(defs: seq<ColumnDef>, end: ColumnPacket) {
    && (forall i :: 0 <= i < |defs| ==> DefFits(defs[i]) && |ColumnBytes(defs[i])| < 0x100_0000)
    && end.EndOfColumns? && PacketFits(end)
  }

  function AllStored(defs: seq<ColumnDef>): (s: seq<ColumnDef>)
    ensures |s| == |defs|
    ensures forall i :: 0 <= i < |defs| ==> s[i] == Stored(defs[i])
  {
    if defs == [] then [] else [Stored(defs[0])] + AllStored(defs[1..])
  }

  /** The packet at the head of the columns, and what is behind it. */
  function Head(defs: seq<ColumnDef>, end: ColumnPacket): ColumnPacket {
    if defs == [] then end else Definition(defs[0])
  }

  function Behind(defs: seq<ColumnDef>, end: ColumnPacket, number: byte, rest: seq<byte>): seq<byte> {
    if defs == [] then rest else ColumnStream(defs[1..], end, (number + 1) % 256) + rest
  }

  lemma NextColumn(defs: seq<ColumnDef>, end: ColumnPacket, number: byte, rest: seq<byte>)
    requires ColumnsFit(defs, end)
    ensures PacketFits(Head(defs, end)) && |PacketBytes(Head(defs, end))| < 0x100_0000
    ensures ColumnStream(defs, end, number) + rest ==
      Frame(number, PacketBytes(Head(defs, end))) + Behind(defs, end, number, rest)
  {
    hide ColumnBytes, Frame;
    if defs != [] {
      Regroup(Frame(number, ColumnBytes(defs[0])), ColumnStream(defs[1..], end, (number + 1) % 256), rest);
    }
  }

  /** A column struct as it is constructed. */
  const BLANK := ColumnDef([], [], [], [], [], [], 0, 0, 0, 0, 0, [])

  /** n writes from index k on stay inside an array of `count` entries. */
  predicate Inside(count: nat, k: nat, n: nat) {
    n == 0 || k + n <= count
  }

  predicate InArray(count: nat, index: nat) {
    index < count
  }

  lemma EveryIndexInside(count: nat, k: nat, n: nat)
    ensures (forall j :: k <= j < k + n ==> InArray(count, j)) <==> Inside(count, k, n)
  {
    assert !Inside(count, k, n) ==> !InArray(count, k + n - 1);
  }

  /** A server that announces one column and defines two. */
  lemma OneColumnTooMany()
    ensures !Inside(1, 0, 2) && Inside(1, 0, 1)
  {
  }

  /** The result struct, as far as its columns are buffered. */
  class ColumnList {
    const reader: ColumnReader
    const con: Connection
    const columnCount: nat
    /** column_buffer; empty while it is NULL. */
    var columnBuffer: seq<ColumnDef>
    /** DRIZZLE_RESULT_BUFFER_COLUMN. */
    var buffered: bool

    constructor (reader: ColumnReader, columnCount: nat)
      ensures this.reader == reader && con == reader.con && this.columnCount == columnCount
      ensures columnBuffer == [] && !buffered
    {
      this.reader, con, this.columnCount := reader, reader.con, columnCount;
      columnBuffer, buffered := [], false;
    }

    /** `defs` are still to come. */
    ghost predicate Between(defs: seq<ColumnDef>, end: ColumnPacket, rest: seq<byte>)
      reads con`buffer, con`bufferPtr, con`bufferSize, con`packetNumber, con`stack, con.buffer, con.socket
    {
      && con.Valid() && ColumnsFit(defs, end)
      && con.Unread() == ColumnStream(defs, end, con.packetNumber) + rest
      && (con.stack == [] || (con.Reading() && con.stack[|con.stack| - 1] == ColumnRead))
    }

    /** drizzle_column_read: the next definition is stored where result->column points,
        or the EOF packet sets it to NULL.  An interrupted call can be repeated. */
    method Read(ghost defs: seq<ColumnDef>, ghost end: ColumnPacket, ghost rest: seq<byte>) returns (ret: Ret)
      requires reader.con == con && !reader.skip && Between(defs, end, rest)
      modifies reader, con, con.buffer, con.socket
      ensures con.Valid() && (con.buffer == old(con.buffer) || fresh(con.buffer))
      ensures ret == Ok && defs != [] ==>
        Between(defs[1..], end, rest) && con.stack == [] && reader.column == Some(Stored(defs[0])) &&
        reader.columnCurrent == old(reader.columnCurrent) + 1
      ensures ret == Ok && defs == [] ==>
        con.stack == [] && con.Unread() == rest && reader.column == None &&
        reader.columnCurrent == old(reader.columnCurrent) &&
        reader.warningCount == end.warnings && reader.status == end.status
      ensures ret == IoWait ==>
        Between(defs, end, rest) && con.nonBlocking && reader.columnCurrent == old(reader.columnCurrent)
      ensures ret.Ok? || ret.IoWait? || (SocketFailure(ret) && con.Cut())
    {
      hide Connection.Window, NextPacket, Allocation, PacketBytes, PacketFits, DefFits, ColumnBytes, Frame, Stored;
      hide Connection.Cut, ColumnStream, Facing;
      NextColumn(defs, end, con.packetNumber, rest);
      ghost var p, behind := Head(defs, end), Behind(defs, end, con.packetNumber, rest);
      FrameParses(con.packetNumber, PacketBytes(p), behind);
      if con.stack == [] {
        con.stack := [ColumnRead] + con.stack;
        con.stack := [PacketRead] + con.stack;
      }
      ret := con.AwaitPacket();
      if ret == Ok {
        FacingPacket(PacketBytes(p));
        ret := reader.StateColumnRead(p, con.Window()[con.packetSize..]);
      }
    }

    lemma FacingPacket(packet: seq<byte>)
      requires con.Valid() && con.packetSize <= con.bufferSize && con.Window()[..con.packetSize] == packet
      ensures Facing(con, packet, con.Window()[con.packetSize..])
    {
      assert con.Window() == con.Window()[..con.packetSize] + con.Window()[con.packetSize..];
    }

    /** What drizzle_column_buffer has of the definitions when the first n of them have
        come: it found the entries `before` and k columns counted. */
    ghost predicate Filled(before: seq<ColumnDef>, k: nat, defs: seq<ColumnDef>, n: nat)
      reads this`columnBuffer
    {
      && n <= |defs| && |columnBuffer| == |before| == columnCount && Inside(columnCount, k, n)
      && forall i :: 0 <= i < columnCount ==>
           columnBuffer[i] == if k <= i < k + n then Stored(defs[i - k]) else before[i]
    }

    /** The entries drizzle_column_buffer finds or allocates. */
    ghost function Entries(): seq<ColumnDef>
      reads this`columnBuffer
    {
      if columnBuffer == [] then seq(columnCount, _ => BLANK) else columnBuffer
    }

    /** One round of the loop of drizzle_column_buffer. */
    method BufferNext(ghost before: seq<ColumnDef>, ghost k: nat, ghost defs: seq<ColumnDef>, ghost n: nat,
                      ghost end: ColumnPacket, ghost rest: seq<byte>) returns (ret: Ret, more: bool, overrun: bool)
      requires reader.con == con && !reader.skip && n <= |defs| && Between(defs[n..], end, rest)
      requires Filled(before, k, defs, n) && reader.columnCurrent == k + n
      modifies this`columnBuffer, reader, con, con.buffer, con.socket
      ensures con.Valid() && (con.buffer == old(con.buffer) || fresh(con.buffer))
      ensures overrun ==> ret == Ok && !Inside(columnCount, k, |defs|)
      ensures ret == Ok && more && !overrun ==>
        n < |defs| && Filled(before, k, defs, n + 1) && reader.columnCurrent == k + n + 1 && Between(defs[n + 1..], end, rest)
      ensures ret == Ok && !more && !overrun ==>
        n == |defs| && Filled(before, k, defs, n) && reader.columnCurrent == k + n &&
        con.Unread() == rest && con.stack == [] && reader.warningCount == end.warnings && reader.status == end.status
      ensures ret == IoWait ==>
        Filled(before, k, defs, n) && reader.columnCurrent == k + n && Between(defs[n..], end, rest) && con.nonBlocking
      ensures ret.Ok? || ret.IoWait? || (SocketFailure(ret) && con.Cut())
    {
      hide Connection.Window, Connection.Unread, Allocation, Between, Stored, Connection.Cut, Inside, Filled;
      more, overrun := true, false;
      BetweenIs(defs[n..], end, rest);
      reader.column := Some(if reader.columnCurrent < |columnBuffer| then columnBuffer[reader.columnCurrent] else BLANK);
      ret := Read(defs[n..], end, rest);
      if ret == Ok {
        more := reader.column.Some?;
        if more {
          SliceOfTail(defs, n, 1);
          overrun := Store(before, k, defs, n);
        }
      }
    }

    /** drizzle_column_buffer, from any number k of columns read before.  It tests no
        index: a definition is written behind the array exactly when the server sends
        more of them than the array has entries from k on; the model stops there.
        Otherwise every definition is stored in its entry, in order, and nothing else
        changes.  An interrupted call can be repeated; `done` definitions are then in. */
    method Buffer(ghost defs: seq<ColumnDef>, ghost end: ColumnPacket, ghost rest: seq<byte>)
      returns (ret: Ret, overrun: bool, ghost done: nat)
      requires reader.con == con && !reader.skip && Between(defs, end, rest)
      requires columnBuffer == [] || |columnBuffer| == columnCount
      modifies this, reader, con, con.buffer, con.socket
      ensures columnCount == 0 ==> ret == Ok && buffered && !overrun && Between(defs, end, rest)
      ensures columnCount > 0 ==>
        && (overrun <==> ret == Ok && !Inside(columnCount, old(reader.columnCurrent), |defs|))
        && (ret == Ok && !overrun ==>
              buffered && reader.columnCurrent == 0 && con.Valid() && con.Unread() == rest && con.stack == [] &&
              done == |defs| && reader.warningCount == end.warnings && reader.status == end.status)
        && (ret == IoWait ==>
              done <= |defs| && Between(defs[done..], end, rest) && con.nonBlocking &&
              reader.columnCurrent == old(reader.columnCurrent) + done)
        && (ret == IoWait || (ret == Ok && !overrun) ==>
              |columnBuffer| == columnCount && done <= |defs| &&
              Inside(columnCount, old(reader.columnCurrent), done) &&
              forall i :: 0 <= i < columnCount ==>
                columnBuffer[i] ==
                  if old(reader.columnCurrent) <= i < old(reader.columnCurrent) + done
                  then Stored(defs[i - old(reader.columnCurrent)]) else old(Entries())[i])
      ensures ret.Ok? || ret.IoWait? || (SocketFailure(ret) && con.Cut())
    {
      hide Connection.Window, Connection.Unread, Allocation, Between, Stored, Connection.Cut, Inside, Filled, Entries;
      ghost var before, k := Entries(), reader.columnCurrent;
      EntriesAre();
      overrun, done := false, 0;
      if columnBuffer == [] {
        if columnCount == 0 {
          buffered := true;
          return Ok, overrun, done;
        }
        columnBuffer := seq(columnCount, _ => BLANK);
      }
      NoneFilled(before, k, defs);
      BetweenIs(defs, end, rest);
      var more := true;
      while more
        invariant done <= |defs| && Filled(before, k, defs, done) && !overrun && reader.columnCurrent == k + done
        invariant con.Valid() && (con.buffer == old(con.buffer) || fresh(con.buffer))
        invariant more ==> Between(defs[done..], end, rest)
        invariant !more ==>
          done == |defs| && con.Unread() == rest && con.stack == [] &&
          reader.warningCount == end.warnings && reader.status == end.status
        decreases more, |defs| - done
      {
        ret, more, overrun := BufferNext(before, k, defs, done, end, rest);
        if ret != Ok || overrun {
          if ret == IoWait {
            FilledIs(before, k, defs, done);
          }
          return;
        }
        done := if more then done + 1 else done;
      }
      FilledIs(before, k, defs, done);
      reader.columnCurrent := 0;
      buffered := true;
      ret := Ok;
    }

    lemma EntriesAre()
      ensures Entries() == if columnBuffer == [] then seq(columnCount, _ => BLANK) else columnBuffer
    {
    }

    lemma BetweenIs(defs: seq<ColumnDef>, end: ColumnPacket, rest: seq<byte>)
      requires Between(defs, end, rest)
      ensures con.Valid() && end.EndOfColumns? && defs[0..] == defs
    {
    }

    lemma NoneFilled(before: seq<ColumnDef>, k: nat, defs: seq<ColumnDef>)
      requires columnBuffer == before && |before| == columnCount
      ensures Filled(before, k, defs, 0)
    {
    }

    /** drizzle_state_column_read has written through result->column; `overrun` says that
        the pointer was behind the array. */
    method Store(ghost before: seq<ColumnDef>, ghost k: nat, ghost defs: seq<ColumnDef>, ghost n: nat)
      returns (overrun: bool)
      requires Filled(before, k, defs, n) && n < |defs| && reader.columnCurrent == k + n + 1
      requires reader.column == Some(Stored(defs[n]))
      modifies this`columnBuffer
      ensures if overrun then !Inside(columnCount, k, |defs|) else Filled(before, k, defs, n + 1)
    {
      hide Stored;
      var index := reader.columnCurrent - 1;
      overrun := index >= |columnBuffer|;
      if !overrun {
        columnBuffer := columnBuffer[index := reader.column.value];
      }
    }

    lemma FilledIs(before: seq<ColumnDef>, k: nat, defs: seq<ColumnDef>, n: nat)
      requires Filled(before, k, defs, n)
      ensures n <= |defs| && |columnBuffer| == columnCount && Inside(columnCount, k, n)
      ensures forall i :: 0 <= i < columnCount ==>
        columnBuffer[i] == if k <= i < k + n then Stored(defs[i - k]) else before[i]
    {
    }
  }
}
