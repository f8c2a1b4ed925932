/** Buffering of fields, rows and whole results: drizzle_field_buffer of
    src/field.cc, drizzle_row_read, drizzle_row_buffer and the row cursor of
    src/row.cc, drizzle_result_buffer of src/result.cc. */
module ResultBuffer {
  import opened Bytes
  import opened Pack
  import opened StateStack
  import opened Connection
  import opened Rows
  import Consume

  type Buffer? = array?<byte>
  type RowList = seq<Option<seq<Buffer?>>>

  /** The arrays among a list of pointers. */
  ghost function Arrays(s: seq<Buffer?>): set<array<byte>> {
    set a: array<byte> | a in s
  }

  /** No two columns share a buffer. */
  ghost predicate Unshared(s: seq<Buffer?>) {
    forall c, d :: 0 <= c < d < |s| && s[c] != null ==> s[c] != s[d]
  }

  /** At most column i has got another buffer. */
  ghost predicate OnlyColumn(before: seq<Buffer?>, after: seq<Buffer?>, i: nat) {
    && (before == [] || |after| == |before|)
    && (forall c :: 0 <= c < |after| && c != i ==> after[c] == if c < |before| then before[c] else null)
  }

  lemma SameColumns(s: seq<Buffer?>, i: nat)
    ensures OnlyColumn(s, s, i)
  {
  }

  // ------------------------------------------------------------------- fields

  /** The part of the result struct that gathers fields. */
  class FieldGatherer {
    const reader: FieldReader
    const con: Connection
    /** field_buffer, one growing buffer a column; empty while it is NULL. */
    var fieldBuffer: seq<Buffer?>

    constructor (reader: FieldReader)
      ensures this.reader == reader && con == reader.con && fieldBuffer == []
    {
      this.reader := reader;
      con := reader.con;
      fieldBuffer := [];
    }

    ghost predicate Shaped()
      reads this`fieldBuffer, con`buffer
    {
      && reader.con == con
      && (|fieldBuffer| == 0 || |fieldBuffer| == reader.columnCount)
      && Unshared(fieldBuffer)
      && con.buffer !in Arrays(fieldBuffer)
    }

    /** The buffer of column i, if it has one. */
    ghost function BufferOf(i: nat): set<array<byte>>
      reads this`fieldBuffer
    {
      if i < |fieldBuffer| && fieldBuffer[i] != null then {fieldBuffer[i]} else {}
    }

    /** Column i has room for v, and its first `done` bytes. */
    ghost predicate Holds(i: nat, v: seq<byte>, done: nat)
      reads this`fieldBuffer, BufferOf(i)
    {
      && i < |fieldBuffer| && fieldBuffer[i] != null
      && done <= |v| < fieldBuffer[i].Length && fieldBuffer[i][..done] == v[..done]
    }

    /** What has been handed over of the current field is in its buffer. */
    ghost predicate Partial(row: seq<Field>, i: nat, done: nat)
      reads this`fieldBuffer, BufferOf(i)
    {
      done > 0 ==> i < |row| && row[i].Some? && Holds(i, row[i].value, done)
    }

    /** realloc: column i gets room for `total` bytes and a terminator and keeps
        its contents. */
    method Reserve(i: nat, total: nat, ghost v: seq<byte>, ghost done: nat)
      requires Shaped() && i < reader.columnCount && total == |v|
      requires done > 0 ==> Holds(i, v, done)
      modifies this`fieldBuffer
      ensures Shaped() && i < |fieldBuffer| && Holds(i, v, done)
      ensures OnlyColumn(old(fieldBuffer), fieldBuffer, i)
      ensures BufferOf(i) == old(BufferOf(i)) || (fresh(BufferOf(i)) && fieldBuffer[i].Length == total + 1)
      ensures fieldBuffer[i].Length >= total + 1
      ensures old(fieldBuffer != [] && fieldBuffer[i] != null) ==>
        var was := old(fieldBuffer[i]);
        fieldBuffer[i].Length >= was.Length && fieldBuffer[i][..was.Length] == old(fieldBuffer[i][..]) &&
        (was.Length >= total + 1 ==> fieldBuffer[i] == was)
    {
      if fieldBuffer == [] {
        fieldBuffer := seq(reader.columnCount, _ => null);
      }
      if fieldBuffer[i] == null || fieldBuffer[i].Length < total + 1 {
        var larger := new byte[total + 1];
        if fieldBuffer[i] != null {
          forall k | 0 <= k < fieldBuffer[i].Length {
            larger[k] := fieldBuffer[i][k];
          }
        }
        fieldBuffer := fieldBuffer[i := larger];
      }
    }

    /** Field i has come in up to and including the piece last handed over. */
    ghost predicate Gathered(row: seq<Field>, rest: seq<byte>, i: nat)
      reads this`fieldBuffer, BufferOf(i)
      reads reader`fieldCurrent, reader`fieldOffset, reader`fieldSize, reader`fieldTotal
      reads reader.con`buffer, reader.con`bufferPtr, reader.con`bufferSize, reader.con`packetSize
      reads reader.con.buffer, reader.con.socket, con`stack
    {
      && reader.Reading(row, rest) && con.stack == []
      && i < |row| && row[i].Some? && reader.fieldTotal == |row[i].value|
      && Holds(i, row[i].value, reader.fieldOffset + reader.fieldSize)
      && reader.fieldCurrent == (if reader.fieldOffset + reader.fieldSize == reader.fieldTotal then i + 1 else i)
    }

    /** memcpy of the piece just handed over to its place in the field; current_field
        is worked out from whether the field is complete. */
    method StorePiece(ghost row: seq<Field>, ghost rest: seq<byte>, ghost i: nat, ghost done: nat) returns (current: nat)
      requires Shaped() && reader.Reading(row, rest) && i < |row| && row[i].Some? && con.stack == []
      requires reader.Handed(row, i, done) && Holds(i, row[i].value, done)
      modifies BufferOf(i)
      ensures Shaped() && Gathered(row, rest, i) && current == i
    {
      hide Connection.Cut, Connection.Window, At, Allocation;
      ghost var v := row[i].value;
      current :=
        if reader.fieldOffset + reader.fieldSize != reader.fieldTotal then reader.fieldCurrent else reader.fieldCurrent - 1;
      var p := reader.field.value;
      var piece := con.buffer[p..p + reader.fieldSize];
      Copy(fieldBuffer[current], reader.fieldOffset, piece);
      assert v[..done + reader.fieldSize] == v[..done] + piece;
    }

    /** One more piece of a field that has a buffer already. */
    method NextPiece(ghost row: seq<Field>, ghost rest: seq<byte>, ghost i: nat) returns (ret: Ret, current: nat)
      requires Shaped() && Gathered(row, rest, i) && reader.Cur().Inside()
      modifies BufferOf(i), con.buffer, con.socket
      modifies reader`field, reader`fieldCurrent, reader`fieldOffset, reader`fieldSize, reader`fieldTotal
      modifies con`buffer, con`bufferPtr, con`bufferSize, con`packetSize, con`packetNumber, con`stack, con`readable
      ensures con.Valid() && Shaped() && (con.buffer == old(con.buffer) || fresh(con.buffer))
      ensures ret == Ok ==>
        Gathered(row, rest, i) && current == i && con.packetNumber == old(con.packetNumber) &&
        reader.fieldOffset + reader.fieldSize > old(reader.fieldOffset + reader.fieldSize)
      ensures ret == IoWait ==>
        reader.Reading(row, rest) && reader.Resumable(row) && reader.fieldCurrent == i &&
        Partial(row, i, reader.Cur().Done())
      ensures ret.Ok? || ret.IoWait? || SocketFailure(ret)
      ensures SocketFailure(ret) ==> con.Cut()
    {
      hide Connection.Cut, Connection.Window, At, Allocation;
      ghost var done := reader.fieldOffset + reader.fieldSize;
      assert reader.fieldCurrent == i && reader.Cur().Done() == done;
      ret := reader.ReadField(row, rest);
      if ret != Ok {
        return ret, 0;
      }
      current := StorePiece(row, rest, i, done);
    }

    /** The loop of drizzle_field_buffer. */
    method GatherRest(ghost row: seq<Field>, ghost rest: seq<byte>, ghost i: nat, total: nat) returns (ret: Ret)
      requires Shaped() && Gathered(row, rest, i) && total == |row[i].value|
      modifies BufferOf(i), con.buffer, con.socket
      modifies reader`field, reader`fieldCurrent, reader`fieldOffset, reader`fieldSize, reader`fieldTotal
      modifies con`buffer, con`bufferPtr, con`bufferSize, con`packetSize, con`packetNumber, con`stack, con`readable
      ensures con.Valid() && Shaped() && (con.buffer == old(con.buffer) || fresh(con.buffer))
      ensures ret == Ok ==>
        Gathered(row, rest, i) && con.packetNumber == old(con.packetNumber) &&
        reader.fieldOffset + reader.fieldSize == total
      ensures ret == IoWait ==>
        reader.Reading(row, rest) && reader.Resumable(row) && reader.fieldCurrent == i &&
        Partial(row, i, reader.Cur().Done())
      ensures ret.Ok? || ret.IoWait? || SocketFailure(ret)
      ensures SocketFailure(ret) ==> con.Cut()
      ensures old(!reader.Cur().Inside()) ==>
        ret == Ok && con.buffer == old(con.buffer) && con.bufferSize == old(con.bufferSize) &&
        con.packetSize == old(con.packetSize)
    {
      hide Connection.Cut, Connection.Window, At, Allocation;
      while reader.fieldOffset + reader.fieldSize != total
        invariant Shaped() && Gathered(row, rest, i) && con.packetNumber == old(con.packetNumber)
        invariant con.buffer == old(con.buffer) || fresh(con.buffer)
        invariant old(!reader.Cur().Inside()) ==>
          !reader.Cur().Inside() && con.buffer == old(con.buffer) && con.bufferSize == old(con.bufferSize) &&
          con.packetSize == old(con.packetSize)
        decreases total - (reader.fieldOffset + reader.fieldSize)
      {
        var current;
        ret, current := NextPiece(row, rest, i);
        if ret != Ok {
          return;
        }
      }
      ret := Ok;
    }

    /** The NUL behind the finished field. */
    method Terminate(ghost row: seq<Field>, ghost rest: seq<byte>, current: nat, total: nat) returns (field: Buffer?)
      requires Shaped() && Gathered(row, rest, current) && reader.fieldOffset + reader.fieldSize == total
      requires total == |row[current].value|
      modifies BufferOf(current)
      ensures Shaped() && reader.Reading(row, rest) && Holds(current, row[current].value, total)
      ensures field == fieldBuffer[current] && field != null && total < field.Length && field[total] == 0
    {
      hide Connection.Cut, Connection.Window, At, Allocation;
      field := fieldBuffer[current];
      field[total] := 0;
    }

    /** Room for the whole field, and the piece just handed over in its place. */
    method FirstPiece(ghost row: seq<Field>, ghost rest: seq<byte>, ghost i: nat, ghost done: nat, at: nat)
      returns (current: nat)
      requires Shaped() && reader.Reading(row, rest) && i < |row| && row[i].Some? && con.stack == []
      requires reader.Handed(row, i, done) && Partial(row, i, done) && at == i
      modifies this`fieldBuffer, BufferOf(i)
      ensures Shaped() && Gathered(row, rest, i) && current == i
      ensures OnlyColumn(old(fieldBuffer), fieldBuffer, i)
      ensures BufferOf(i) == old(BufferOf(i)) || fresh(BufferOf(i))
    {
      hide Connection.Window, At, Allocation, OnlyColumn, Unshared;
      Reserve(at, reader.fieldTotal, row[i].value, done);
      current := StorePiece(row, rest, i, done);
    }

    /** drizzle_field_buffer from the first piece on. */
    method FillField(ghost row: seq<Field>, ghost rest: seq<byte>, ghost i: nat, ghost done: nat)
      returns (ret: Ret, field: Buffer?, total: nat)
      requires Shaped() && reader.Reading(row, rest) && i < |row| && row[i].Some? && con.stack == []
      requires reader.Handed(row, i, done) && Partial(row, i, done)
      modifies this`fieldBuffer, BufferOf(i), con.buffer, con.socket
      modifies reader`field, reader`fieldCurrent, reader`fieldOffset, reader`fieldSize, reader`fieldTotal
      modifies con`buffer, con`bufferPtr, con`bufferSize, con`packetSize, con`packetNumber, con`stack, con`readable
      ensures con.Valid() && Shaped() && (con.buffer == old(con.buffer) || fresh(con.buffer))
      ensures ret == Ok ==>
        reader.Reading(row, rest) && con.stack == [] && !reader.Cur().Inside() &&
        con.packetNumber == old(con.packetNumber) && reader.fieldCurrent == i + 1
      ensures ret == Ok ==>
        total == |row[i].value| && Holds(i, row[i].value, total) && field == fieldBuffer[i] && field[total] == 0
      ensures ret == IoWait ==>
        reader.Reading(row, rest) && reader.Resumable(row) && reader.fieldCurrent == i &&
        Partial(row, i, reader.Cur().Done())
      ensures ret.Ok? || ret.IoWait? || SocketFailure(ret)
      ensures SocketFailure(ret) ==> con.Cut()
      ensures OnlyColumn(old(fieldBuffer), fieldBuffer, i)
      ensures BufferOf(i) == old(BufferOf(i)) || fresh(BufferOf(i))
      ensures old(!reader.Cur().Inside()) ==>
        ret == Ok && con.buffer == old(con.buffer) && con.bufferSize == old(con.bufferSize) &&
        con.packetSize == old(con.packetSize)
    {
      hide Connection.Cut, Connection.Window, At, Allocation, OnlyColumn, Unshared;
      total := reader.fieldTotal;
      var current :=
        if reader.fieldOffset + reader.fieldSize != reader.fieldTotal then reader.fieldCurrent else reader.fieldCurrent - 1;
      current := FirstPiece(row, rest, i, done, current);
      ret := GatherRest(row, rest, i, total);
      if ret != Ok {
        return ret, null, 0;
      }
      field := Terminate(row, rest, current, total);
    }

    /** drizzle_field_buffer: the whole field, rebuilt from its pieces, or NULL.
        It can be interrupted anywhere and called again. */
    method FieldBuffer(ghost row: seq<Field>, ghost rest: seq<byte>) returns (ret: Ret, field: Buffer?, total: nat)
      requires Shaped() && reader.Reading(row, rest) && reader.Resumable(row)
      requires Partial(row, reader.fieldCurrent, reader.Cur().Done())
      modifies this`fieldBuffer, BufferOf(reader.fieldCurrent), con.buffer, con.socket
      modifies reader`field, reader`fieldCurrent, reader`fieldOffset, reader`fieldSize, reader`fieldTotal
      modifies con`buffer, con`bufferPtr, con`bufferSize, con`packetSize, con`packetNumber, con`stack, con`readable
      ensures con.Valid() && Shaped() && (con.buffer == old(con.buffer) || fresh(con.buffer))
      ensures ret == RowEnd <==> old(reader.fieldCurrent) == |row|
      ensures ret == RowEnd || ret == Ok ==>
        reader.Reading(row, rest) && con.stack == [] && !reader.Cur().Inside() && con.packetNumber == old(con.packetNumber)
      ensures ret == Ok ==> old(reader.fieldCurrent) < |row| && reader.fieldCurrent == old(reader.fieldCurrent) + 1
      ensures ret == Ok ==>
        match row[old(reader.fieldCurrent)]
        case None => field == null && total == 0
        case Some(v) =>
          total == |v| && Holds(old(reader.fieldCurrent), v, total) &&
          field == fieldBuffer[old(reader.fieldCurrent)] && field[total] == 0
      ensures ret == IoWait ==>
        reader.Reading(row, rest) && reader.Resumable(row) && reader.fieldCurrent == old(reader.fieldCurrent) &&
        Partial(row, reader.fieldCurrent, reader.Cur().Done())
      ensures ret.Ok? || ret.IoWait? || ret.RowEnd? || SocketFailure(ret)
      ensures SocketFailure(ret) ==> con.Cut()
      ensures OnlyColumn(old(fieldBuffer), fieldBuffer, old(reader.fieldCurrent))
      ensures ret == RowEnd ==> fieldBuffer == old(fieldBuffer) && reader.fieldCurrent == old(reader.fieldCurrent)
      ensures BufferOf(old(reader.fieldCurrent)) == old(BufferOf(reader.fieldCurrent)) ||
              fresh(BufferOf(old(reader.fieldCurrent)))
      ensures old(con.stack) == [] && old(con.bufferSize >= con.packetSize) ==>
        (ret == Ok || ret == RowEnd) && con.bufferSize >= con.packetSize && con.buffer == old(con.buffer)
    {
      hide Connection.Cut, Connection.Window, At, Allocation, OnlyColumn, Unshared;
      ghost var i, done := reader.fieldCurrent, reader.Cur().Done();
      SameColumns(fieldBuffer, i);
      ret := reader.ReadField(row, rest);
      if ret != Ok {
        return ret, null, 0;
      }
      if reader.field == None {
        return Ok, null, 0;
      }
      ret, field, total := FillField(row, rest, i, done);
    }
  }

  // ------------------------------------------------------------ rows and results

  predicate RowPacket(row: seq<Field>, columns: nat) {
    |row| == columns && RowFits(row) && |RowBytes(row)| < 0x100_0000
  }

  /** An end-of-rows packet. */
  predicate EofPacket(final: seq<byte>) {
    |final| == 5 && final[0] == 254
  }

  /** An error packet in the place of a row.  With fewer than nine bytes its size wraps
      (Consume.ErrorPacketEnds). */
  predicate ErrorPacket(final: seq<byte>) {
    9 <= |final| < 0x100_0000 && final[0] == 255
  }

  /** What ends the rows of a result. */
  predicate EndPacket(final: seq<byte>) {
    EofPacket(final) || ErrorPacket(final)
  }

  /** The error code and the SQL state in an error packet. */
  function ToldBy(final: seq<byte>): (nat, seq<byte>)
    requires ErrorPacket(final)
  {
    (LeValue(final[1..3]), final[4..9])
  }

  /** The rest of a result on the wire: a packet for each row, then what ends
      them. */
  function RowStream(rows: seq<seq<Field>>, final: seq<byte>, number: byte): seq<byte> {
    if rows == [] then Frame(number, final)
    else Frame(number, RowBytes(rows[0])) + RowStream(rows[1..], final, (number + 1) % 256)
  }

  /** The copy of a row that is kept: all sizes, and the bytes of every field that
      has any. */
  ghost predicate Kept(list: seq<Buffer?>, sizes: seq<nat>, row: seq<Field>)
    reads Arrays(list)
  {
    && |list| == |sizes| == |row|
    && forall c :: 0 <= c < |row| ==>
         && sizes[c] == (if row[c].Some? then |row[c].value| else 0)
         && (sizes[c] == 0 ==> list[c] == null)
         && (sizes[c] > 0 ==>
               list[c] != null && list[c].Length == sizes[c] + 1 && list[c][..sizes[c]] == row[c].value &&
               list[c][sizes[c]] == 0)
  }

  /** row_list[r] is there and has been written. */
  predicate Written(list: RowList, r: nat) {
    r < |list| && list[r].Some?
  }

  predicate AllWritten(list: RowList, n: nat) {
    forall r :: 0 <= r < n ==> Written(list, r)
  }

  /** The entries below k are those of `before`, and those from k to n are written. */
  ghost predicate RowsFrom(list: RowList, before: RowList, k: nat, n: nat) {
    && (forall r :: 0 <= r < k ==> (Written(list, r) <==> Written(before, r)))
    && (forall r :: 0 <= r < k && Written(list, r) && Written(before, r) ==> list[r] == before[r])
    && (forall r :: k <= r < n ==> Written(list, r))
  }

  lemma MoreEntries(list: RowList, more: RowList, before: RowList, k: nat, n: nat)
    requires RowsFrom(list, before, k, n) && forall r :: 0 <= r < |more| ==> more[r].None?
    ensures RowsFrom(list + more, before, k, n)
  {
    forall r: nat
      ensures Written(list + more, r) <==> Written(list, r)
      ensures Written(list, r) ==> (list + more)[r] == list[r]
    {
    }
  }

  lemma OneMoreRow(list: RowList, entry: Option<seq<Buffer?>>, before: RowList, k: nat, n: nat)
    requires RowsFrom(list, before, k, n) && k <= n < |list| && entry.Some?
    ensures RowsFrom(list[n := entry], before, k, n + 1)
  {
    var now := list[n := entry];
    forall r: nat | r != n
      ensures Written(now, r) <==> Written(list, r)
      ensures Written(list, r) ==> now[r] == list[r]
    {
    }
  }

  lemma AllRows(list: RowList, before: RowList, k: nat, n: nat)
    requires RowsFrom(list, before, k, n) && k <= n
    ensures AllWritten(list, n) <==> AllWritten(before, k)
  {
    if AllWritten(list, n) {
      forall r | 0 <= r < k
        ensures Written(before, r)
      {
        assert Written(list, r);
      }
    }
  }

  /** What a row function hands out: a kept row, the indeterminate pointer of an entry
      nobody wrote, or whatever lies behind the list. */
  datatype Entry = Behind | Unwritten | Row(list: seq<Buffer?>)

  /** The packet at the head of a result stream. */
  lemma HeadPacket(rows: seq<seq<Field>>, final: seq<byte>, number: byte, rest: seq<byte>, columns: nat)
    requires EndPacket(final)
    requires rows != [] ==> RowPacket(rows[0], columns)
    ensures NextPacket(RowStream(rows, final, number) + rest, number) ==
      if rows == [] then Packet(final, rest)
      else Packet(RowBytes(rows[0]), RowStream(rows[1..], final, (number + 1) % 256) + rest)
  {
    hide NextPacket, Frame;
    if rows == [] {
      FrameParses(number, final, rest);
    } else {
      var next := RowStream(rows[1..], final, (number + 1) % 256);
      Regroup(Frame(number, RowBytes(rows[0])), next, rest);
      FrameParses(number, RowBytes(rows[0]), next + rest);
    }
  }

  /** The result struct, as far as rows go. */
  class Result {
    const gatherer: FieldGatherer
    const reader: FieldReader
    const con: Connection
    /** The fields an error packet sets. */
    const replies: Consume.ReplyReader
    var rowCount: nat
    var rowCurrent: nat
    var rowListSize: nat
    /** row_list; None is an entry that realloc gave and nobody wrote. */
    var rowList: RowList
    var fieldSizesList: seq<seq<nat>>
    /** The arrays the kept rows live in. */
    ghost var kept: set<array<byte>>

    constructor (gatherer: FieldGatherer, replies: Consume.ReplyReader)
      ensures this.gatherer == gatherer && reader == gatherer.reader && con == gatherer.con && this.replies == replies
      ensures rowCount == rowCurrent == rowListSize == 0 && rowList == [] && fieldSizesList == [] && kept == {}
    {
      this.gatherer := gatherer;
      reader := gatherer.reader;
      con := gatherer.con;
      this.replies := replies;
      rowCount, rowCurrent, rowListSize := 0, 0, 0;
      rowList, fieldSizesList, kept := [], [], {};
    }

    /** No row is being read; `rows` are still to come. */
    ghost predicate Between(rows: seq<seq<Field>>, final: seq<byte>, rest: seq<byte>)
      reads reader`fieldCurrent, reader`fieldOffset, reader`fieldSize, reader`fieldTotal
      reads con`buffer, con`bufferPtr, con`bufferSize, con`packetNumber, con`stack, con.buffer, con.socket
    {
      && con.Valid() && !reader.Cur().Inside() && replies.con == con
      && con.Unread() == RowStream(rows, final, con.packetNumber) + rest
      && (con.stack == [] || (con.Reading() && con.stack[|con.stack| - 1] == RowRead))
    }

    /** drizzle_state_row_read: it only looks at the packet.  ReadRow shows that the
        branch that asks for more data is not taken. */
    method StateRowRead()
      requires con.Valid() && con.stack == [RowRead] && con.packetSize > 0
      modifies this`rowCount, this`rowCurrent, reader`fieldCurrent, con`stack, con`bufferPtr, con`bufferSize
      ensures con.Valid() && con.buffer == old(con.buffer)
      ensures var w := old(con.Window());
        if |w| < con.packetSize && |w| < 5 then
          con.stack == [Read, RowRead] && con.Window() == w && rowCurrent == old(rowCurrent) &&
          rowCount == old(rowCount) && reader.fieldCurrent == old(reader.fieldCurrent)
        else if con.packetSize == 5 && w[0] == 254 then
          con.stack == [] && con.Window() == w[5..] && rowCurrent == 0 && rowCount == old(rowCount) &&
          reader.fieldCurrent == old(reader.fieldCurrent)
        else if w[0] == 255 then
          con.stack == [ResultRead] && con.Window() == w && rowCurrent == old(rowCurrent) && rowCount == old(rowCount) &&
          reader.fieldCurrent == old(reader.fieldCurrent)
        else
          con.stack == [] && con.Window() == w && rowCurrent == old(rowCurrent) + 1 && rowCount == old(rowCount) + 1 &&
          reader.fieldCurrent == 0
    {
      hide Connection.Window;
      if con.packetSize != 0 && con.bufferSize < con.packetSize && con.bufferSize < 5 {
        con.stack := [Read] + con.stack;
        return;
      }
      if con.packetSize == 5 && con.Get(0) == 254 {
        rowCurrent := 0;
        con.Advance(5);
      } else if con.Get(0) == 255 {
        con.stack := con.stack[1..];
        con.stack := [ResultRead] + con.stack;
        return;
      } else {
        rowCount := rowCount + 1;
        rowCurrent := rowCurrent + 1;
        reader.fieldCurrent := 0;
      }
      con.stack := con.stack[1..];
    }

    /** The error code and the SQL state on record. */
    function Told(): (nat, seq<byte>)
      reads replies`errorCode, replies`sqlstate
    {
      (replies.errorCode, replies.sqlstate)
    }

    /** drizzle_state_result_read on the error packet that drizzle_state_row_read has left
        to it. */
    method TakeError(ghost final: seq<byte>) returns (ret: Ret)
      requires replies.con == con && con.Valid() && con.stack == [ResultRead] && con.packetSize <= con.bufferSize
      requires ErrorPacket(final) && con.Window()[..con.packetSize] == final
      modifies replies, con`stack, con`bufferPtr, con`bufferSize, con`packetSize
      ensures ret == ErrorCode && con.Valid() && con.stack == []
      ensures con.Window() == old(con.Window()[con.packetSize..]) && Told() == ToldBy(final)
    {
      hide Connection.Window, Allocation;
      ghost var window, size := con.Window(), con.packetSize;
      assert window == final + window[size..] && final == [255] + final[1..];
      var info;
      ret, info := replies.StateResultRead(Consume.AnyError(final[1..]), window[size..]);
      assert final[1..][0..2] == final[1..3] && final[1..][3..8] == final[4..9];
    }

    /** drizzle_state_row_read on a whole packet of the result. */
    method RowArrived(ghost rows: seq<seq<Field>>, ghost final: seq<byte>, ghost rest: seq<byte>) returns (ret: Ret)
      requires replies.con == con && reader.con == con && reader.columnCount > 0 && !reader.Cur().Inside() && EndPacket(final)
      requires con.Valid() && con.stack == [RowRead] && con.packetSize <= con.bufferSize
      requires rows != [] ==> RowPacket(rows[0], reader.columnCount)
      requires con.Window()[..con.packetSize] == if rows == [] then final else RowBytes(rows[0])
      requires con.Window()[con.packetSize..] + con.socket.incoming ==
        if rows == [] then rest else RowStream(rows[1..], final, con.packetNumber) + rest
      modifies this`rowCount, this`rowCurrent, reader`fieldCurrent, replies
      modifies con`stack, con`bufferPtr, con`bufferSize, con`packetSize
      ensures con.Valid() && con.stack == []
      ensures ret == (if rows == [] && ErrorPacket(final) then ErrorCode else Ok)
      ensures Told() == if ret == ErrorCode then ToldBy(final) else old(Told())
      ensures rows != [] ==>
        rowCount == old(rowCount) + 1 && rowCurrent == old(rowCurrent) + 1 &&
        reader.Reading(rows[0], RowStream(rows[1..], final, con.packetNumber) + rest) &&
        reader.fieldCurrent == 0 && !reader.Cur().Inside() && con.bufferSize >= con.packetSize
      ensures rows == [] ==>
        con.Unread() == rest && rowCount == old(rowCount) && rowCurrent == if ret == ErrorCode then old(rowCurrent) else 0
    {
      hide Connection.Window, NextPacket, RowStream, RowFits, RowPacket, Allocation, At;
      if rows == [] {
        AtEnd(con.Window(), con.packetSize, final, con.socket.incoming, rest);
      } else {
        AtRow(rows[0], con.Window(), con.packetSize, reader.Cur(), con.socket.incoming,
              RowStream(rows[1..], final, con.packetNumber) + rest, reader.columnCount);
        CountsColumns(rows[0], reader.columnCount);
      }
      StateRowRead();
      ret := Ok;
      if con.stack != [] {
        ret := TakeError(final);
      }
    }

    /** The wait of drizzle_row_read for the packet at the head of the result. */
    method AwaitRow(ghost rows: seq<seq<Field>>, ghost final: seq<byte>, ghost rest: seq<byte>) returns (ret: Ret)
      requires reader.con == con
      requires Between(rows, final, rest) && EndPacket(final) && (rows != [] ==> RowPacket(rows[0], reader.columnCount))
      modifies con.buffer, con.socket
      modifies con`buffer, con`bufferPtr, con`bufferSize, con`packetSize, con`packetNumber, con`stack, con`readable
      ensures con.Valid() && (con.buffer == old(con.buffer) || fresh(con.buffer))
      ensures ret == Ok ==>
        con.stack == [RowRead] && con.packetSize <= con.bufferSize &&
        con.Window()[..con.packetSize] == (if rows == [] then final else RowBytes(rows[0])) &&
        con.Window()[con.packetSize..] + con.socket.incoming ==
          if rows == [] then rest else RowStream(rows[1..], final, con.packetNumber) + rest
      ensures ret == IoWait ==> Between(rows, final, rest)
      ensures ret.Ok? || ret.IoWait? || SocketFailure(ret)
      ensures SocketFailure(ret) ==> con.Cut()
    {
      hide Connection.Cut, Connection.Window, Connection.Unread, NextPacket, RowStream, RowFits, RowPacket, Allocation;
      hide Connection.TooSoon, Connection.AllThere, Between;
      Begin(rows, final, rest);
      HeadPacket(rows, final, con.packetNumber, rest, reader.columnCount);
      ret := con.AwaitPacket();
      if ret == IoWait {
        StillBetween(rows, final, rest);
      }
    }

    /** The states drizzle_row_read pushes when none is left. */
    method Begin(ghost rows: seq<seq<Field>>, ghost final: seq<byte>, ghost rest: seq<byte>)
      requires Between(rows, final, rest)
      modifies con`stack
      ensures con.Valid() && !reader.Cur().Inside() && con.Reading() && con.stack[|con.stack| - 1] == RowRead
      ensures replies.con == con
      ensures con.Unread() == RowStream(rows, final, con.packetNumber) + rest
    {
      hide Connection.Window, Connection.Unread, RowStream, Allocation, NextPacket;
      if con.stack == [] {
        con.stack := [RowRead] + con.stack;
        con.stack := [PacketRead] + con.stack;
      }
    }

    lemma StillBetween(rows: seq<seq<Field>>, final: seq<byte>, rest: seq<byte>)
      requires con.Valid() && !reader.Cur().Inside() && replies.con == con
      requires con.Unread() == RowStream(rows, final, con.packetNumber) + rest
      requires con.Reading() && con.stack[|con.stack| - 1] == RowRead
      ensures Between(rows, final, rest)
    {
    }

    /** drizzle_row_read: it stands at the first field of the next row, all of which
        is in the buffer, or has passed the end marker. */
    method ReadRow(ghost rows: seq<seq<Field>>, ghost final: seq<byte>, ghost rest: seq<byte>) returns (ret: Ret)
      requires reader.con == con && reader.columnCount > 0
      requires Between(rows, final, rest) && EndPacket(final)
      requires forall r :: 0 <= r < |rows| ==> RowPacket(rows[r], reader.columnCount)
      modifies this`rowCount, this`rowCurrent, reader`fieldCurrent, con.buffer, con.socket, replies
      modifies con`buffer, con`bufferPtr, con`bufferSize, con`packetSize, con`packetNumber, con`stack, con`readable
      ensures con.Valid() && (con.buffer == old(con.buffer) || fresh(con.buffer))
      ensures ret == Ok && rows != [] ==>
        rowCount == old(rowCount) + 1 && rowCurrent == old(rowCurrent) + 1 && con.stack == [] &&
        reader.Reading(rows[0], RowStream(rows[1..], final, con.packetNumber) + rest) &&
        reader.fieldCurrent == 0 && !reader.Cur().Inside() && con.bufferSize >= con.packetSize
      ensures ret == Ok && rows == [] ==>
        rowCount == old(rowCount) && rowCurrent == 0 && con.stack == [] && con.Unread() == rest
      ensures ret == IoWait ==>
        Between(rows, final, rest) && rowCount == old(rowCount) && rowCurrent == old(rowCurrent)
      ensures ret.Ok? || ret.IoWait? || ret.ErrorCode? || SocketFailure(ret)
      ensures ret == ErrorCode ==>
        rows == [] && ErrorPacket(final) && con.stack == [] && con.Unread() == rest && rowCount == old(rowCount) &&
        rowCurrent == old(rowCurrent)
      ensures Told() == if ret == ErrorCode then ToldBy(final) else old(Told())
      ensures ret == Ok && rows == [] ==> EofPacket(final)
      ensures SocketFailure(ret) ==> con.Cut()
    {
      hide Connection.Cut, Connection.Window, Connection.Unread, RowStream, RowPacket, Allocation, FieldReader.Reading, Between;
      OutsideField(rows, final, rest);
      ret := AwaitRow(rows, final, rest);
      if ret == Ok {
        ret := RowArrived(rows, final, rest);
      }
    }

    lemma OutsideField(rows: seq<seq<Field>>, final: seq<byte>, rest: seq<byte>)
      requires Between(rows, final, rest)
      ensures !reader.Cur().Inside() && replies.con == con
    {
    }

    /** The first `i` columns of the row being buffered point into their buffers. */
    ghost predicate Columns(list: seq<Buffer?>, sizes: seq<nat>, row: seq<Field>, i: nat)
      reads gatherer`fieldBuffer, Arrays(gatherer.fieldBuffer)
    {
      && |list| == |sizes| == |row| && i <= |row|
      && forall c :: 0 <= c < i ==> Column(list[c], sizes[c], row[c], c)
    }

    ghost predicate Column(p: Buffer?, size: nat, f: Field, c: nat)
      reads gatherer`fieldBuffer, Arrays(gatherer.fieldBuffer)
    {
      match f
      case None => p == null && size == 0
      case Some(v) => c < |gatherer.fieldBuffer| && p == gatherer.fieldBuffer[c] && size == |v| && gatherer.Holds(c, v, |v|)
    }

    /** One round of the loop of drizzle_row_buffer. */
    method BufferField(ghost row: seq<Field>, ghost rest: seq<byte>, list0: seq<Buffer?>, sizes0: seq<nat>)
      returns (end: bool, list: seq<Buffer?>, sizes: seq<nat>)
      requires gatherer.Shaped() && gatherer.reader == reader && gatherer.con == con && reader.con == con
      requires reader.Reading(row, rest) && con.stack == [] && !reader.Cur().Inside()
      requires con.bufferSize >= con.packetSize
      requires Columns(list0, sizes0, row, reader.fieldCurrent)
      modifies gatherer`fieldBuffer, gatherer.BufferOf(reader.fieldCurrent), con.buffer, con.socket
      modifies reader`field, reader`fieldCurrent, reader`fieldOffset, reader`fieldSize, reader`fieldTotal
      modifies con`buffer, con`bufferPtr, con`bufferSize, con`packetSize, con`packetNumber, con`stack, con`readable
      ensures gatherer.Shaped() && con.buffer == old(con.buffer) && con.packetNumber == old(con.packetNumber)
      ensures reader.Reading(row, rest) && con.stack == [] && !reader.Cur().Inside() && con.bufferSize >= con.packetSize
      ensures Columns(list, sizes, row, reader.fieldCurrent)
      ensures end <==> old(reader.fieldCurrent) == |row|
      ensures reader.fieldCurrent == old(reader.fieldCurrent) + if end then 0 else 1
      ensures forall a :: a in Arrays(gatherer.fieldBuffer) ==> a in old(Arrays(gatherer.fieldBuffer)) || fresh(a)
    {
      hide Connection.Cut, Connection.Window, At, Allocation;
      list, sizes := list0, sizes0;
      ghost var before, i := gatherer.fieldBuffer, reader.fieldCurrent;
      var ret, field, total := gatherer.FieldBuffer(row, rest);
      end := ret == RowEnd;
      forall c | 0 <= c < i && row[c].Some?
        ensures c < |gatherer.fieldBuffer| && gatherer.fieldBuffer[c] == before[c]
        ensures gatherer.Holds(c, row[c].value, |row[c].value|)
      {
        assert old(Column(list0[c], sizes0[c], row[c], c));
        assert old(gatherer.Holds(c, row[c].value, |row[c].value|));
      }
      if !end {
        list := list[reader.fieldCurrent - 1 := field];
        sizes := sizes[reader.fieldCurrent - 1 := total];
      }
    }

    /** drizzle_row_buffer: the next row as pointers into the column buffers, None
        behind the last row.  It is interrupted between rows only. */
    method BufferRow(ghost rows: seq<seq<Field>>, ghost final: seq<byte>, ghost rest: seq<byte>)
      returns (ret: Ret, list: Option<seq<Buffer?>>, sizes: seq<nat>)
      requires gatherer.Shaped() && gatherer.reader == reader && gatherer.con == con && reader.con == con
      requires reader.columnCount > 0 && Between(rows, final, rest) && EndPacket(final)
      requires forall r :: 0 <= r < |rows| ==> RowPacket(rows[r], reader.columnCount)
      modifies this`rowCount, this`rowCurrent, gatherer`fieldBuffer, Arrays(gatherer.fieldBuffer), con.buffer, con.socket, replies
      modifies reader`field, reader`fieldCurrent, reader`fieldOffset, reader`fieldSize, reader`fieldTotal
      modifies con`buffer, con`bufferPtr, con`bufferSize, con`packetSize, con`packetNumber, con`stack, con`readable
      ensures con.Valid() && gatherer.Shaped() && (con.buffer == old(con.buffer) || fresh(con.buffer))
      ensures forall a :: a in Arrays(gatherer.fieldBuffer) ==> a in old(Arrays(gatherer.fieldBuffer)) || fresh(a)
      ensures ret == Ok && rows != [] ==>
        list.Some? && Columns(list.value, sizes, rows[0], |rows[0]|) && Between(rows[1..], final, rest) &&
        con.stack == [] && rowCount == old(rowCount) + 1 && rowCurrent == old(rowCurrent) + 1
      ensures ret == Ok && rows == [] ==>
        list == None && rowCount == old(rowCount) && rowCurrent == 0 && con.stack == [] && con.Unread() == rest
      ensures ret == IoWait ==>
        Between(rows, final, rest) && rowCount == old(rowCount) && rowCurrent == old(rowCurrent)
      ensures ret.Ok? || ret.IoWait? || ret.ErrorCode? || SocketFailure(ret)
      ensures ret == ErrorCode ==>
        rows == [] && ErrorPacket(final) && con.stack == [] && con.Unread() == rest && rowCount == old(rowCount) &&
        rowCurrent == old(rowCurrent)
      ensures Told() == if ret == ErrorCode then ToldBy(final) else old(Told())
      ensures ret == Ok && rows == [] ==> EofPacket(final)
      ensures SocketFailure(ret) ==> con.Cut()
    {
      hide Connection.Cut, Connection.Window, At, Allocation, RowStream, RowFits, Column;
      list, sizes := None, [];
      ret := ReadRow(rows, final, rest);
      if ret != Ok || rowCurrent == 0 {
        return;
      }
      ghost var row, behind := rows[0], RowStream(rows[1..], final, con.packetNumber) + rest;
      ghost var number := con.packetNumber;
      var pointers: seq<Buffer?> := seq(reader.columnCount, _ => null);
      sizes := seq(reader.columnCount, _ => 0);
      var end := false;
      while !end
        invariant gatherer.Shaped() && con.packetNumber == number
        invariant con.buffer == old(con.buffer) || fresh(con.buffer)
        invariant reader.Reading(row, behind) && con.stack == [] && !reader.Cur().Inside()
        invariant con.bufferSize >= con.packetSize && reader.fieldCurrent <= |row|
        invariant Columns(pointers, sizes, row, reader.fieldCurrent)
        invariant end ==> reader.fieldCurrent == |row|
        invariant forall a :: a in Arrays(gatherer.fieldBuffer) ==> a in old(Arrays(gatherer.fieldBuffer)) || fresh(a)
        invariant rowCount == old(rowCount) + 1 && rowCurrent == old(rowCurrent) + 1 && Told() == old(Told())
        decreases |row| - reader.fieldCurrent, if end then 0 else 1
      {
        end, pointers, sizes := BufferField(row, behind, pointers, sizes);
      }
      EndOfRow(row, behind);
      list := Some(pointers);
    }

    /** Behind its last field a row leaves what followed it. */
    lemma EndOfRow(row: seq<Field>, rest: seq<byte>)
      requires reader.Reading(row, rest) && reader.con == con && reader.fieldCurrent == |row| && !reader.Cur().Inside()
      ensures con.Unread() == rest
    {
      hide RowFits;
      assert [] + rest == rest;
    }

    /** Entry r of row_list. */
    function EntryAt(r: nat): (e: Entry)
      reads this`rowList
      ensures e.Row? <==> Written(rowList, r)
    {
      if r >= |rowList| then Behind else if rowList[r].None? then Unwritten else Row(rowList[r].value)
    }

    /** What row_list has of the first n rows is kept, in arrays nothing else uses.  A
        row that was read without being kept has no entry, or one nobody wrote. */
    ghost predicate Saved(all: seq<seq<Field>>, n: nat)
      reads this`rowListSize, this`rowList, this`fieldSizesList, this`kept, kept
      reads gatherer`fieldBuffer, con`buffer
    {
      && |rowList| == |fieldSizesList| == rowListSize && n <= |all|
      && (forall r :: 0 <= r < |rowList| && rowList[r].Some? ==> r < n && Arrays(rowList[r].value) <= kept)
      && (forall r :: 0 <= r < |rowList| && rowList[r].Some? ==> Kept(rowList[r].value, fieldSizesList[r], all[r]))
      && kept !! Arrays(gatherer.fieldBuffer) && con.buffer !in kept
    }

    /** The copies of one row's fields: an array for every field that has bytes. */
    method CopyRow(list: seq<Buffer?>, sizes: seq<nat>, ghost row: seq<Field>) returns (copy: seq<Buffer?>)
      requires Columns(list, sizes, row, |row|)
      ensures Kept(copy, sizes, row) && fresh(Arrays(copy))
    {
      copy := seq(|sizes|, _ => null);
      var x := 0;
      while x < |sizes|
        invariant x <= |sizes| && |copy| == |sizes|
        invariant fresh(Arrays(copy))
        invariant forall c :: x <= c < |copy| ==> copy[c] == null
        invariant forall c :: 0 <= c < x ==> if sizes[c] == 0 then copy[c] == null else
          copy[c] != null && copy[c].Length == sizes[c] + 1 && row[c].Some? && copy[c][..sizes[c]] == row[c].value &&
          copy[c][sizes[c]] == 0
      {
        assert Column(list[x], sizes[x], row[x], x);
        if sizes[x] > 0 {
          var field := new byte[sizes[x] + 1](_ => 0);
          Copy(field, 0, list[x][..sizes[x]]);
          ghost var before := copy;
          copy := copy[x := field];
          assert Arrays(copy) <= Arrays(before) + {field};
        }
        x := x + 1;
      }
      assert forall c :: 0 <= c < |row| ==> Column(list[c], sizes[c], row[c], c);
    }

    /** How far drizzle_result_buffer has come that found the list `before` and k rows
        counted, when it has kept those up to n. */
    ghost predicate Underway(all: seq<seq<Field>>, before: RowList, k: nat, n: nat)
      reads this`rowListSize, this`rowList, this`fieldSizesList, this`kept, kept
      reads gatherer`fieldBuffer, con`buffer
    {
      && k <= n && Saved(all, n) && RowsFrom(rowList, before, k, n)
      && rowListSize == SizeAfter(|before|, k, n - k)
    }

    /** The lists grow by 8192 entries when they are shorter than the count. */
    method GrowLists(ghost all: seq<seq<Field>>, ghost before: RowList, ghost k: nat)
      requires rowCount > 0 && Underway(all, before, k, rowCount - 1)
      modifies this`rowListSize, this`rowList, this`fieldSizesList
      ensures |rowList| == |fieldSizesList| == rowListSize && RowsFrom(rowList, before, k, rowCount - 1)
      ensures Saved(all, rowCount - 1)
      ensures rowListSize == Grown(old(rowListSize), rowCount) == SizeAfter(|before|, k, rowCount - k)
    {
      if rowListSize < rowCount {
        MoreEntries(rowList, seq(8192, _ => None), before, k, rowCount - 1);
        rowList := rowList + seq(8192, _ => None);
        fieldSizesList := fieldSizesList + seq(8192, _ => []);
        rowListSize := rowListSize + 8192;
      }
    }

    /** One round of drizzle_result_buffer: the new row is written behind the others.
        `overrun` is the write behind the end of the list, where the model stops. */
    method KeepRow(ghost all: seq<seq<Field>>, list: seq<Buffer?>, sizes: seq<nat>,
                   ghost before: RowList, ghost k: nat) returns (overrun: bool)
      requires 0 < rowCurrent == rowCount <= |all| && Underway(all, before, k, rowCount - 1)
      requires Columns(list, sizes, all[rowCount - 1], |all[rowCount - 1]|)
      modifies this`rowListSize, this`rowList, this`fieldSizesList, this`kept
      ensures overrun <==> rowCount > old(rowListSize) + 8192
      ensures !overrun ==> Underway(all, before, k, rowCount) && rowCount <= rowListSize
      ensures kept >= old(kept) && fresh(kept - old(kept))
    {
      hide Columns, SizeAfter, Kept, RowsFrom, Written;
      GrowLists(all, before, k);
      overrun := rowCurrent > rowListSize;
      if !overrun {
        var copy := CopyRow(list, sizes, all[rowCount - 1]);
        OneMoreRow(rowList, Some(copy), before, k, rowCount - 1);
        rowList := rowList[rowCurrent - 1 := Some(copy)];
        fieldSizesList := fieldSizesList[rowCurrent - 1 := sizes];
        kept := kept + Arrays(copy);
      }
    }

    /** One round of drizzle_result_buffer. */
    method BufferNext(ghost all: seq<seq<Field>>, ghost final: seq<byte>, ghost rest: seq<byte>,
                      ghost before: RowList, ghost k: nat)
      returns (ret: Ret, end: bool, overrun: bool)
      requires con.Valid() && gatherer.Shaped() && gatherer.reader == reader && gatherer.con == con && reader.con == con
      requires reader.columnCount > 0 && EndPacket(final)
      requires forall r :: 0 <= r < |all| ==> RowPacket(all[r], reader.columnCount)
      requires rowCurrent == rowCount <= |all| && Underway(all, before, k, rowCount) && Between(all[rowCount..], final, rest)
      modifies this, gatherer`fieldBuffer, Arrays(gatherer.fieldBuffer), con.buffer, con.socket, replies
      modifies reader`field, reader`fieldCurrent, reader`fieldOffset, reader`fieldSize, reader`fieldTotal
      modifies con`buffer, con`bufferPtr, con`bufferSize, con`packetSize, con`packetNumber, con`stack, con`readable
      ensures con.Valid() && gatherer.Shaped() && (con.buffer == old(con.buffer) || fresh(con.buffer))
      ensures forall a :: a in Arrays(gatherer.fieldBuffer) ==> a in old(Arrays(gatherer.fieldBuffer)) || fresh(a)
      ensures overrun <==> ret == Ok && rowCount > old(rowCount) && rowCount > old(rowListSize) + 8192
      ensures overrun ==> ret == Ok && !end && rowCount == old(rowCount) + 1
      ensures ret == Ok && end ==>
        rowCurrent == 0 && rowCount == |all| == old(rowCount) && Underway(all, before, k, rowCount) && con.Unread() == rest
      ensures ret == Ok && !end && !overrun ==>
        rowCurrent == rowCount == old(rowCount) + 1 <= |all| && Underway(all, before, k, rowCount) &&
        rowCount <= rowListSize && Between(all[rowCount..], final, rest)
      ensures ret == IoWait ==>
        rowCurrent == rowCount == old(rowCount) && Underway(all, before, k, rowCount) && Between(all[rowCount..], final, rest)
      ensures ret.Ok? || ret.IoWait? || ret.ErrorCode? || SocketFailure(ret)
      ensures ret == ErrorCode ==>
        ErrorPacket(final) && con.stack == [] && con.Unread() == rest && rowCurrent == rowCount == |all| &&
        rowCount == old(rowCount) && Underway(all, before, k, rowCount)
      ensures Told() == if ret == ErrorCode then ToldBy(final) else old(Told())
      ensures ret == Ok && end ==> EofPacket(final)
      ensures SocketFailure(ret) ==> con.Cut()
    {
      hide Connection.Window, Allocation, RowStream, RowFits, Columns, Between, Kept, Connection.Cut, RowsFrom, SizeAfter, Grown;
      hide RowPacket, EndPacket, FieldGatherer.Shaped;
      var list, sizes;
      overrun := false;
      ret, list, sizes := BufferRow(all[rowCount..], final, rest);
      end := list == None;
      if ret == Ok && list.Some? {
        overrun := KeepRow(all, list.value, sizes, before, k);
      }
    }

    /** drizzle_result_buffer, for a result that has columns, from any number of rows
        that were read before and any list of rows kept before.  It writes behind the
        list exactly when a row arrives and 8192 more entries would not have held the
        rows counted before.  Otherwise every row from there on is kept, in order,
        although all of them passed through the same column buffers, and every entry
        is a row sent exactly when the earlier ones were.  An interrupted call can be
        repeated. */
    method BufferResult(ghost all: seq<seq<Field>>, ghost final: seq<byte>, ghost rest: seq<byte>)
      returns (ret: Ret, overrun: bool)
      requires con.Valid() && gatherer.Shaped() && gatherer.reader == reader && gatherer.con == con && reader.con == con
      requires reader.columnCount > 0 && EndPacket(final)
      requires forall r :: 0 <= r < |all| ==> RowPacket(all[r], reader.columnCount)
      requires rowCurrent == rowCount <= |all| && Saved(all, rowCount) && Between(all[rowCount..], final, rest)
      modifies this, gatherer`fieldBuffer, Arrays(gatherer.fieldBuffer), con.buffer, con.socket, replies
      modifies reader`field, reader`fieldCurrent, reader`fieldOffset, reader`fieldSize, reader`fieldTotal
      modifies con`buffer, con`bufferPtr, con`bufferSize, con`packetSize, con`packetNumber, con`stack, con`readable
      ensures con.Valid() && gatherer.Shaped()
      ensures overrun <==> ret == Ok && rowCount > old(rowCount) && old(rowCount) >= old(rowListSize) + 8192
      ensures ret == Ok && !overrun ==> rowCurrent == 0 && rowCount == |all| && Saved(all, |all|) && con.Unread() == rest
      ensures ret == Ok && !overrun ==>
        rowListSize == SizeAfter(old(rowListSize), old(rowCount), |all| - old(rowCount)) &&
        (old(rowCount) < |all| ==> |all| <= rowListSize)
      ensures ret == Ok && !overrun ==> RowsFrom(rowList, old(rowList), old(rowCount), |all|)
      ensures ret == Ok && !overrun ==>
        (AllWritten(rowList, |all|) <==> old(AllWritten(rowList, rowCount)))
      ensures ret == IoWait ==>
        rowCurrent == rowCount <= |all| && Saved(all, rowCount) && Between(all[rowCount..], final, rest) &&
        RowsFrom(rowList, old(rowList), old(rowCount), rowCount)
      ensures ret.Ok? || ret.IoWait? || ret.ErrorCode? || SocketFailure(ret)
      ensures ret == ErrorCode ==>
        ErrorPacket(final) && con.stack == [] && con.Unread() == rest && rowCurrent == rowCount == |all| &&
        Saved(all, |all|) && RowsFrom(rowList, old(rowList), old(rowCount), |all|)
      ensures Told() == if ret == ErrorCode then ToldBy(final) else old(Told())
      ensures ret == Ok && !overrun ==> EofPacket(final)
      ensures SocketFailure(ret) ==> con.Cut()
    {
      hide Connection.Window, Allocation, RowStream, RowFits, Between, Saved, RowPacket, RowsFrom, SizeAfter, Connection.Cut;
      ghost var before, k := rowList, rowCount;
      NoneKept(all);
      var end := false;
      overrun := false;
      while !end
        invariant con.Valid() && gatherer.Shaped()
        invariant !overrun && rowCount <= |all| && Underway(all, before, k, rowCount)
        invariant !end ==> rowCurrent == rowCount && Between(all[rowCount..], final, rest)
        invariant end ==> rowCurrent == 0 && rowCount == |all| && con.Unread() == rest && EofPacket(final)
        invariant Told() == old(Told())
        invariant if rowCount == k then rowListSize == |before| else rowCount <= rowListSize && k < |before| + 8192
        invariant con.buffer == old(con.buffer) || fresh(con.buffer)
        invariant forall a :: a in Arrays(gatherer.fieldBuffer) ==> a in old(Arrays(gatherer.fieldBuffer)) || fresh(a)
        decreases |all| - rowCount, if end then 0 else 1
      {
        ret, end, overrun := BufferNext(all, final, rest, before, k);
        if ret != Ok || overrun {
          return;
        }
      }
      ret := Ok;
      AllRows(rowList, before, k, |all|);
    }

    /** The row behind the cursor, as the row functions return it. */
    ghost predicate IsRow(all: seq<seq<Field>>, r: nat, list: seq<Buffer?>, sizes: seq<nat>)
      reads Arrays(list)
    {
      r < |all| && Kept(list, sizes, all[r])
    }

    /** drizzle_row_next. */
    method RowNext(ghost all: seq<seq<Field>>) returns (row: Option<Entry>, sizes: seq<nat>)
      requires rowCount == |all| && rowCurrent <= rowCount && Saved(all, |all|)
      modifies this`rowCurrent
      ensures row.None? <==> old(rowCurrent) == |all|
      ensures row.Some? ==> row.value == EntryAt(old(rowCurrent))
      ensures row.Some? && row.value.Row? ==> IsRow(all, old(rowCurrent), row.value.list, sizes)
      ensures rowCurrent == old(rowCurrent) + (if row.None? then 0 else 1)
      ensures Saved(all, |all|)
    {
      sizes := [];
      if rowCurrent == rowCount {
        return None, sizes;
      }
      if rowCurrent < |fieldSizesList| {
        sizes := fieldSizesList[rowCurrent];
      }
      rowCurrent := rowCurrent + 1;
      row := Some(EntryAt(rowCurrent - 1));
    }

    /** drizzle_row_prev. */
    method RowPrev(ghost all: seq<seq<Field>>) returns (row: Option<Entry>, sizes: seq<nat>)
      requires rowCount == |all| && rowCurrent <= rowCount && Saved(all, |all|)
      modifies this`rowCurrent
      ensures row.None? <==> old(rowCurrent) == 0
      ensures row.Some? ==> row.value == EntryAt(old(rowCurrent) - 1)
      ensures row.Some? && row.value.Row? ==> IsRow(all, old(rowCurrent) - 1, row.value.list, sizes)
      ensures rowCurrent == old(rowCurrent) - (if row.None? then 0 else 1)
      ensures Saved(all, |all|)
    {
      sizes := [];
      if rowCurrent == 0 {
        return None, sizes;
      }
      rowCurrent := rowCurrent - 1;
      if rowCurrent < |fieldSizesList| {
        sizes := fieldSizesList[rowCurrent];
      }
      row := Some(EntryAt(rowCurrent));
    }

    /** drizzle_row_seek: a position behind the last row is ignored. */
    method RowSeek(row: nat)
      requires rowCurrent <= rowCount
      modifies this`rowCurrent
      ensures rowCurrent == if row <= rowCount then row else old(rowCurrent)
      ensures rowCurrent <= rowCount
    {
      if row <= rowCount {
        rowCurrent := row;
      }
    }

    /** Walking all the way forward meets every entry once and in order, and walking
        back meets the same entries in the opposite order. */
    method ThereAndBack(ghost all: seq<seq<Field>>) returns (there: seq<Entry>, back: seq<Entry>)
      requires rowCount == |all| && rowCurrent == 0 && Saved(all, |all|)
      modifies this`rowCurrent
      ensures |there| == |back| == |all| && rowCurrent == 0 && Saved(all, |all|)
      ensures forall r :: 0 <= r < |all| ==> there[r] == EntryAt(r) && back[|all| - 1 - r] == there[r]
    {
      there, back := [], [];
      while rowCurrent < rowCount
        invariant rowCurrent == |there| <= rowCount && Saved(all, |all|)
        invariant forall r :: 0 <= r < |there| ==> there[r] == EntryAt(r)
        decreases rowCount - rowCurrent
      {
        var row, sizes := RowNext(all);
        there := there + [row.value];
      }
      while rowCurrent > 0
        invariant rowCurrent + |back| == |all| && Saved(all, |all|)
        invariant forall r :: 0 <= r < |back| ==> back[r] == EntryAt(|all| - 1 - r)
        decreases rowCurrent
      {
        var row, sizes := RowPrev(all);
        back := back + [row.value];
      }
    }

    lemma NoneKept(all: seq<seq<Field>>)
      requires rowCount <= |all| && Saved(all, rowCount)
      ensures Underway(all, rowList, rowCount, rowCount) && |rowList| == rowListSize
    {
    }
  }

  // --------------------------------------------------------- the size of the list

  /** The list's size after the test in a round that finds n rows counted. */
  function Grown(size: nat, n: nat): nat {
    if size < n then size + 8192 else size
  }

  /** The list's size after `rounds` more rows, when k rows were counted before. */
  function SizeAfter(size: nat, k: nat, rounds: nat): nat {
    if rounds == 0 then size else Grown(SizeAfter(size, k, rounds - 1), k + rounds)
  }

  /** The index written in round j. */
  predicate InList(size: nat, k: nat, j: nat)
    requires j > 0
  {
    k + j - 1 < SizeAfter(size, k, j)
  }

  /** However many rows follow, every index stays inside the list exactly when the rows
      counted before are fewer than 8192 beyond its size. */
  lemma {:induction false} IndexStaysInList(size: nat, k: nat, rounds: nat)
    requires rounds > 0
    ensures (forall j :: 0 < j <= rounds ==> InList(size, k, j)) <==> k < size + 8192
  {
    assert SizeAfter(size, k, 1) == Grown(SizeAfter(size, k, 0), k + 1);
    assert InList(size, k, 1) <==> k < size + 8192;
    if rounds > 1 {
      IndexStaysInList(size, k, rounds - 1);
      assert InList(size, k, rounds - 1) ==> InList(size, k, rounds);
    }
  }

  /** 8192 rows read and not kept: the next one kept is written behind the list. */
  lemma OneRowTooMany()
    ensures !InList(0, 8192, 1)
    ensures forall k :: 0 <= k < 8192 ==> InList(0, k, 1)
  {
    assert forall k: nat :: SizeAfter(0, k, 1) == Grown(SizeAfter(0, k, 0), k + 1);
  }

  lemma CountsColumns(row: seq<Field>, columns: nat)
    requires RowPacket(row, columns)
    ensures |row| == columns
  {
  }

  lemma AtEnd(window: seq<byte>, size: nat, final: seq<byte>, incoming: seq<byte>, rest: seq<byte>)
    requires size <= |window| && window[..size] == final && EndPacket(final) && window[size..] + incoming == rest
    ensures if ErrorPacket(final) then size >= 9 && window[0] == 255
            else size == 5 && window[0] == 254 && window[5..] + incoming == rest
  {
  }

  lemma AtRow(row: seq<Field>, window: seq<byte>, size: nat, c: Cursor, incoming: seq<byte>, rest: seq<byte>,
              columns: nat)
    requires size <= |window| && window[..size] == RowBytes(row) && window[size..] + incoming == rest
    requires columns > 0 && RowPacket(row, columns) && !c.Inside()
    ensures size > 0 && window[0] != 255 && !(size == 5 && window[0] == 254)
    ensures At(row, rest, c.(current := 0), window, incoming, size)
  {
    hide RowFits;
    RowIsNoMarker(row);
    assert RowBytes(row) != [] by { RowStep(row, 0); assert row[0..] == row; }
    assert row[0..] == row;
    assert window == window[..size] + window[size..];
    Regroup(window[..size], window[size..], incoming);
  }
}
