/** The rows of a prepared statement from the byte stream to the parameters:
    drizzle_stmt_fetch and drizzle_stmt_buffer of src/statement.cc over
    drizzle_row_buffer of src/row.cc. */
module Statements {
  import opened Bytes
  import opened StateStack
  import opened Connection
  import opened Bitmaps
  import opened Rows
  import opened BinaryRows
  import opened StatementFetch
  import ResultBuffer

  // ------------------------------------------------------------------ the wire

  /** A row as a server sends it. */
  datatype SentRow = SentRow(bitmap: seq<Octet>, row: seq<Field>)

  /** The packet of a binary row. */
  function RowPacket(types: seq<ColumnType>, p: SentRow): (s: seq<byte>)
    requires |types| == |p.row|
    ensures s != [] && s[0] == 0
  {
    [0] + WireOf(p.bitmap) + Values(types, p.row, 0)
  }

  predicate SentFits(types: seq<ColumnType>, p: SentRow) {
    && RowFitsTypes(types, p.row) && Marks(p.bitmap, p.row) && NoStrayBits(p.bitmap, |p.row|)
    && |RowPacket(types, p)| < 0x100_0000
  }

  predicate AllFit(types: seq<ColumnType>, rows: seq<SentRow>, final: seq<byte>) {
    ResultBuffer.EndPacket(final) && forall r :: 0 <= r < |rows| ==> SentFits(types, rows[r])
  }

  /** The packet at the head of the rows. */
  function Head(types: seq<ColumnType>, rows: seq<SentRow>, final: seq<byte>): seq<byte>
    requires AllFit(types, rows, final)
  {
    if rows == [] then final else RowPacket(types, rows[0])
  }

  /** The rest of a result on the wire. */
  function RowStream(types: seq<ColumnType>, rows: seq<SentRow>, final: seq<byte>, number: byte): seq<byte>
    requires AllFit(types, rows, final)
  {
    if rows == [] then Frame(number, final)
    else Frame(number, RowPacket(types, rows[0])) + RowStream(types, rows[1..], final, (number + 1) % 256)
  }

  function Behind(types: seq<ColumnType>, rows: seq<SentRow>, final: seq<byte>, number: byte, rest: seq<byte>): seq<byte>
    requires AllFit(types, rows, final)
  {
    if rows == [] then rest else RowStream(types, rows[1..], final, (number + 1) % 256) + rest
  }

  lemma BehindIs(types: seq<ColumnType>, rows: seq<SentRow>, final: seq<byte>, number: byte, rest: seq<byte>)
    requires AllFit(types, rows, final)
    ensures Behind(types, rows, final, number, rest) ==
      if rows == [] then rest else RowStream(types, rows[1..], final, (number + 1) % 256) + rest
  {
  }

  lemma HeadArrives(types: seq<ColumnType>, rows: seq<SentRow>, final: seq<byte>, number: byte, rest: seq<byte>)
    requires AllFit(types, rows, final)
    ensures NextPacket(RowStream(types, rows, final, number) + rest, number) ==
      Packet(Head(types, rows, final), Behind(types, rows, final, number, rest))
  {
    hide NextPacket, Frame, RowPacket;
    if rows == [] {
      FrameParses(number, final, rest);
    } else {
      var next := RowStream(types, rows[1..], final, (number + 1) % 256);
      Regroup(Frame(number, RowPacket(types, rows[0])), next, rest);
      FrameParses(number, RowPacket(types, rows[0]), next + rest);
    }
  }

  // ------------------------------------------------------ what a fetch answers

  /** A column that drizzle_field_read refuses holds a value. */
  predicate HasRefused(columns: seq<Column>, row: seq<Field>)
    requires |columns| == |row|
  {
    exists c :: 0 <= c < |row| && row[c].Some? && WidthOf(columns[c].kind).Unreadable?
  }

  /** How the wait for the next packet ends. */
  datatype Arrival = Arrived | Waits | Fails

  /** What drizzle_stmt_fetch returns with `rows` still to come: whenever
      drizzle_row_buffer gives no row, whatever its reason. */
  function Answer(columns: seq<Column>, rows: seq<seq<Field>>, arrival: Arrival): Ret
    requires RowsOf(columns, rows)
  {
    if arrival != Arrived || rows == [] || HasRefused(columns, rows[0]) then RowEnd else Ok
  }

  predicate RowsOf(columns: seq<Column>, rows: seq<seq<Field>>) {
    forall r :: 0 <= r < |rows| ==> RowFitsTypes(TypesOf(columns), rows[r])
  }

  /** How the server ends the rows: with an EOF packet, or with an error in their place. */
  datatype Ending = Complete | Erred

  /** How a wait can end on such a connection. */
  predicate Possible(arrival: Arrival, nonBlocking: bool, failing: bool) {
    arrival == Arrived || (arrival == Waits && nonBlocking) || (arrival == Fails && failing)
  }

  /** ROW_END, if it is the answer, comes behind the last row of a complete result. */
  predicate MeansEnd(columns: seq<Column>, rows: seq<seq<Field>>, ending: Ending, arrival: Arrival)
    requires RowsOf(columns, rows)
  {
    Answer(columns, rows, arrival) == RowEnd ==> rows == [] && ending == Complete
  }

  predicate AllReadable(columns: seq<Column>) {
    forall c :: 0 <= c < |columns| ==> !WidthOf(columns[c].kind).Unreadable?
  }

  /** The row of a result that only column c of it has a value in. */
  function OneValue(columns: seq<Column>, c: nat, v: seq<byte>): (row: seq<Field>)
    ensures |row| == |columns|
    ensures forall d :: 0 <= d < |row| ==> row[d] == if d == c then Some(v) else None
  {
    seq(|columns|, d => if d == c then Some(v) else None)
  }

  /** ROW_END always means the end of a complete result exactly when the connection
      blocks, the network does not fail, no column has a type that is refused, and the
      server does not end the rows with an error. */
  lemma RowEndMeansEnd(columns: seq<Column>, nonBlocking: bool, failing: bool, erring: bool)
    ensures (forall rows, ending, arrival ::
        RowsOf(columns, rows) && Possible(arrival, nonBlocking, failing) && (ending == Complete || erring) ==>
          MeansEnd(columns, rows, ending, arrival)) <==>
      !nonBlocking && !failing && !erring && AllReadable(columns)
  {
    hide WidthOf;
    var nulls := [OneValue(columns, |columns|, [])];
    if nonBlocking {
      assert RowsOf(columns, nulls) && Possible(Waits, nonBlocking, failing) && !MeansEnd(columns, nulls, Complete, Waits);
    }
    if failing {
      assert RowsOf(columns, nulls) && Possible(Fails, nonBlocking, failing) && !MeansEnd(columns, nulls, Complete, Fails);
    }
    if erring {
      assert RowsOf(columns, []) && Possible(Arrived, nonBlocking, failing) && !MeansEnd(columns, [], Erred, Arrived);
    }
    if !AllReadable(columns) {
      var c :| 0 <= c < |columns| && WidthOf(columns[c].kind).Unreadable?;
      var rows := [OneValue(columns, c, [])];
      RefusedEnds(columns, c, []);
      assert RowsOf(columns, rows) && Possible(Arrived, nonBlocking, failing) && !MeansEnd(columns, rows, Complete, Arrived);
    }
  }

  /** A server that interrupts a query: the answer is that of an empty result, and the
      error packet tells 1317 and the SQL state 70100. */
  lemma InterruptedEnds(columns: seq<Column>)
    ensures var final: seq<byte> := [255, 37, 5, 35, 55, 48, 49, 48, 48];
      && ResultBuffer.ErrorPacket(final) && ResultBuffer.ToldBy(final) == (1317, [55, 48, 49, 48, 48])
      && RowsOf(columns, []) && Answer(columns, [], Arrived) == RowEnd && !MeansEnd(columns, [], Erred, Arrived)
  {
    var final: seq<byte> := [255, 37, 5, 35, 55, 48, 49, 48, 48];
    assert final[1..3] == [37, 5] && final[4..9] == [55, 48, 49, 48, 48];
    assert LeValue([37, 5]) == 37 + 256 * LeValue([5]) && LeValue([5]) == 5 + 256 * LeValue([]);
  }

  lemma RefusedEnds(columns: seq<Column>, c: nat, v: seq<byte>)
    requires c < |columns| && WidthOf(columns[c].kind).Unreadable?
    ensures var rows := [OneValue(columns, c, v)];
      RowsOf(columns, rows) && Answer(columns, rows, Arrived) == RowEnd
  {
    hide WidthOf, ValueFits;
    var row := OneValue(columns, c, v);
    assert row[c].Some?;
  }

  /** A row of one geometry value is answered as if there were no row. */
  lemma GeometryEnds(v: seq<byte>)
    ensures var columns, rows := [Column(Geometry, false)], [[Some(v)]];
      RowsOf(columns, rows) && Answer(columns, rows, Arrived) == RowEnd
  {
    var columns := [Column(Geometry, false)];
    RefusedEnds(columns, 0, v);
    assert OneValue(columns, 0, v) == [Some(v)];
  }

  // -------------------------------------------------------------- the statement

  datatype Stage = Prepared | Executed | FetchedRows

  /** A row in row_list, with its sizes and its NULL bitmap. */
  datatype BufferedRow = BufferedRow(bitmap: seq<Octet>, values: seq<seq<byte>>)

  function EntryOf(p: SentRow): BufferedRow {
    BufferedRow(p.bitmap, Compressed(p.row, |p.row|))
  }

  /** The fields of the rows. */
  function Fields(rows: seq<SentRow>): (s: seq<seq<Field>>)
    ensures |s| == |rows| && forall r :: 0 <= r < |rows| ==> s[r] == rows[r].row
  {
    seq(|rows|, r requires 0 <= r < |rows| => rows[r].row)
  }

  class Statement {
    const con: Connection
    /** execute_result: as far as its rows are counted, and its fields read. */
    const result: ResultBuffer.Result
    const reader: BinaryReader
    const columns: seq<Column>
    const params: array<Bind>
    var stage: Stage
    /** DRIZZLE_RESULT_BUFFER_ROW. */
    var buffered: bool
    var rowList: seq<BufferedRow>

    constructor (result: ResultBuffer.Result, reader: BinaryReader, columns: seq<Column>, params: array<Bind>)
      ensures this.result == result && this.reader == reader && con == reader.con
      ensures this.columns == columns && this.params == params
      ensures stage == Prepared && !buffered && rowList == []
    {
      this.result, this.reader, con := result, reader, reader.con;
      this.columns, this.params := columns, params;
      stage, buffered, rowList := Prepared, false, [];
    }

    /** The parts belong together. */
    ghost predicate Joined()
      reads con`buffer
    {
      && result.con == con == reader.con && result.replies.con == con && reader.types == TypesOf(columns) && params.Length == |columns|
      && params as object != con.buffer as object
    }

    /** `rows` and what ends them are still on the wire. */
    ghost predicate Coming(rows: seq<SentRow>, final: seq<byte>, rest: seq<byte>)
      reads con`buffer, con`bufferPtr, con`bufferSize, con`packetNumber, con`stack, con.buffer, con.socket
    {
      && con.Valid() && AllFit(TypesOf(columns), rows, final)
      && con.Unread() == RowStream(TypesOf(columns), rows, final, con.packetNumber) + rest
      && (con.stack == [] || (con.Reading() && con.stack[|con.stack| - 1] == RowRead))
    }

    /** drizzle_row_read up to the packet at the head of the rows. */
    method AwaitRow(ghost rows: seq<SentRow>, ghost final: seq<byte>, ghost rest: seq<byte>) returns (ret: Ret)
      requires Joined() && Coming(rows, final, rest)
      modifies con.buffer, con.socket
      modifies con`buffer, con`bufferPtr, con`bufferSize, con`packetSize, con`packetNumber, con`stack, con`readable
      ensures con.Valid() && (con.buffer == old(con.buffer) || fresh(con.buffer))
      ensures ret == Ok ==>
        con.stack == [RowRead] && con.packetSize <= con.bufferSize && AllFit(TypesOf(columns), rows, final) &&
        con.Window()[..con.packetSize] == Head(TypesOf(columns), rows, final) &&
        con.Window()[con.packetSize..] + con.socket.incoming ==
          (if rows == [] then rest else RowStream(TypesOf(columns), rows[1..], final, con.packetNumber) + rest)
      ensures ret == IoWait ==> Coming(rows, final, rest) && con.nonBlocking && !con.readable
      ensures ret.Ok? || ret.IoWait? || (SocketFailure(ret) && con.Cut() && con.stack == [])
      ensures old(con.TooSoon()) ==> ret == IoWait
      ensures old(con.AllThere()) ==> ret == Ok
    {
      hide Connection.Window, Connection.Unread, NextPacket, RowStream, Head, Behind, AllFit, Allocation, Connection.Cut;
      hide Connection.TooSoon, Connection.AllThere, Coming;
      Begin(rows, final, rest);
      HeadArrives(TypesOf(columns), rows, final, con.packetNumber, rest);
      ret := con.AwaitPacket();
      if ret == Ok {
        BehindIs(TypesOf(columns), rows, final, old(con.packetNumber), rest);
      } else if ret == IoWait {
        StillComing(rows, final, rest);
      }
    }

    /** The states drizzle_row_read pushes when none is left. */
    method Begin(ghost rows: seq<SentRow>, ghost final: seq<byte>, ghost rest: seq<byte>)
      requires Coming(rows, final, rest)
      modifies con`stack
      ensures con.Valid() && con.Reading() && con.stack[|con.stack| - 1] == RowRead
      ensures AllFit(TypesOf(columns), rows, final)
      ensures con.Unread() == RowStream(TypesOf(columns), rows, final, con.packetNumber) + rest
    {
      hide Connection.Window, Connection.Unread, RowStream, AllFit, Allocation, NextPacket;
      if con.stack == [] {
        con.stack := [RowRead] + con.stack;
        con.stack := [PacketRead] + con.stack;
      }
    }

    lemma StillComing(rows: seq<SentRow>, final: seq<byte>, rest: seq<byte>)
      requires con.Valid() && AllFit(TypesOf(columns), rows, final)
      requires con.Unread() == RowStream(TypesOf(columns), rows, final, con.packetNumber) + rest
      requires con.Reading() && con.stack[|con.stack| - 1] == RowRead
      ensures Coming(rows, final, rest)
    {
    }

    /** drizzle_state_row_read on the whole packet, and drizzle_state_result_read when that
        is an error packet. */
    method RowArrived(ghost rows: seq<SentRow>, ghost final: seq<byte>) returns (ret: Ret)
      requires Joined() && con.Valid() && con.stack == [RowRead] && con.packetSize <= con.bufferSize
      requires AllFit(TypesOf(columns), rows, final)
      requires con.Window()[..con.packetSize] == Head(TypesOf(columns), rows, final)
      modifies reader`fieldCurrent, reader`fieldCurrentRead, result`rowCount, result`rowCurrent
      modifies result.reader`fieldCurrent, result.replies
      modifies con`stack, con`bufferPtr, con`bufferSize, con`packetSize
      ensures con.Valid() && con.stack == []
      ensures ret == if rows == [] && ResultBuffer.ErrorPacket(final) then ErrorCode else Ok
      ensures result.Told() == if ret == ErrorCode then ResultBuffer.ToldBy(final) else old(result.Told())
      ensures rows == [] ==>
        con.Window() == old(con.Window()[con.packetSize..]) && result.rowCount == old(result.rowCount) &&
        result.rowCurrent == if ret == ErrorCode then old(result.rowCurrent) else 0
      ensures rows != [] ==>
        reader.BeforeRow(rows[0].bitmap, rows[0].row) && con.Window() == old(con.Window()) &&
        con.packetSize == old(con.packetSize) &&
        result.rowCount == old(result.rowCount) + 1 && result.rowCurrent == old(result.rowCurrent) + 1
    {
      hide Connection.Window, Allocation, NoStrayBits, Marks, RowFitsTypes;
      AtFront(con.Window(), Head(TypesOf(columns), rows, final), con.packetSize);
      result.StateRowRead();
      ret := Ok;
      if con.stack != [] {
        ret := result.TakeError(final);
      } else if result.rowCurrent != 0 {
        reader.fieldCurrent, reader.fieldCurrentRead := 0, 0;
      }
    }

    /** drizzle_row_buffer: the values of the next row, or None behind the last, and
        whenever the packet has not come, is an error, or a value is refused. */
    method RowBuffer(ghost rows: seq<SentRow>, ghost final: seq<byte>, ghost rest: seq<byte>)
      returns (ret: Ret, row: Option<seq<seq<byte>>>)
      requires Joined() && Coming(rows, final, rest)
      modifies reader, result`rowCount, result`rowCurrent, result.reader`fieldCurrent, result.replies
      modifies con, con.buffer, con.socket
      ensures con.Valid() && Joined() && (con.buffer == old(con.buffer) || fresh(con.buffer))
      ensures ret == Ok && rows != [] ==>
        row == Some(EntryOf(rows[0]).values) && reader.nullBitmap[..] == rows[0].bitmap &&
        Coming(rows[1..], final, rest) && con.stack == [] && |rows[0].row| == |columns| && !HasRefused(columns, rows[0].row) &&
        result.rowCount == old(result.rowCount) + 1 && result.rowCurrent == old(result.rowCurrent) + 1
      ensures ret == Ok && rows == [] ==>
        ResultBuffer.EofPacket(final) && row == None && con.stack == [] && con.Unread() == rest && result.rowCurrent == 0 &&
        result.rowCount == old(result.rowCount)
      ensures ret != Ok ==> row == None
      ensures ret == IoWait ==>
        Coming(rows, final, rest) && con.nonBlocking && result.rowCount == old(result.rowCount) &&
        result.rowCurrent == old(result.rowCurrent)
      ensures ret == UnexpectedData ==>
        rows != [] && |rows[0].row| == |columns| && HasRefused(columns, rows[0].row) && con.stack == [] && con.Window() == []
      ensures ret == ErrorCode ==>
        rows == [] && ResultBuffer.ErrorPacket(final) && con.stack == [] && con.Unread() == rest
      ensures result.Told() == if ret == ErrorCode then ResultBuffer.ToldBy(final) else old(result.Told())
      ensures ret.Ok? || ret.IoWait? || ret.UnexpectedData? || ret.ErrorCode? || (SocketFailure(ret) && con.Cut())
      ensures old(con.TooSoon()) ==> ret == IoWait
      ensures old(con.AllThere()) ==> ret.Ok? || ret.UnexpectedData? || ret.ErrorCode?
    {
      hide Connection.Window, NextPacket, Allocation, Connection.Cut, RowStream, SentFits, HasRefused, Coming;
      hide BinaryReader.BeforeRow, Connection.TooSoon, Connection.AllThere;
      row := None;
      ComingFits(rows, final, rest);
      ret := AwaitRow(rows, final, rest);
      if ret != Ok {
        return;
      }
      ret := RowArrived(rows, final);
      if ret != Ok || result.rowCurrent == 0 {
        return;
      }
      ret, row := TakeRow(rows, final, rest);
    }

    lemma ComingFits(rows: seq<SentRow>, final: seq<byte>, rest: seq<byte>)
      requires Coming(rows, final, rest)
      ensures con.Valid() && AllFit(TypesOf(columns), rows, final)
    {
    }

    /** The loop of drizzle_row_buffer; the state loop closes the connection at a value
        that is refused. */
    method TakeRow(ghost rows: seq<SentRow>, ghost final: seq<byte>, ghost rest: seq<byte>)
      returns (ret: Ret, row: Option<seq<seq<byte>>>)
      requires Joined() && con.Valid() && con.stack == [] && rows != [] && AllFit(TypesOf(columns), rows, final)
      requires reader.BeforeRow(rows[0].bitmap, rows[0].row)
      requires con.Window()[con.packetSize..] + con.socket.incoming ==
        RowStream(TypesOf(columns), rows[1..], final, con.packetNumber) + rest
      modifies reader, con`stack, con`bufferPtr, con`bufferSize, con`packetSize, con`packetNumber, con`readable
      ensures con.Valid() && (ret.Ok? || ret.UnexpectedData?)
      ensures ret == Ok ==>
        row == Some(EntryOf(rows[0]).values) && reader.nullBitmap[..] == rows[0].bitmap &&
        Coming(rows[1..], final, rest) && con.stack == [] && |rows[0].row| == |columns| && !HasRefused(columns, rows[0].row)
      ensures ret == UnexpectedData ==>
        row == None && |rows[0].row| == |columns| && HasRefused(columns, rows[0].row) && con.stack == [] && con.Window() == []
    {
      hide Connection.Window, Allocation, RowStream, SentFits, WidthOf, BinaryReader.BeforeRow;
      row := None;
      RowSize(rows[0]);
      var values;
      ret, values := reader.ReadValues(rows[0].bitmap, rows[0].row);
      if ret != Ok {
        con.Close();
        return;
      }
      row := Some(values);
    }

    lemma RowSize(p: SentRow)
      requires reader.types == TypesOf(columns) && SentFits(TypesOf(columns), p)
      ensures |p.row| == |columns|
    {
    }

    /** The rows that fetches will meet: those behind the cursor of a buffered result, or
        those on the wire. */
    ghost predicate Ahead(rows: seq<SentRow>, final: seq<byte>, rest: seq<byte>)
      reads this`buffered, this`rowList, result`rowCount, result`rowCurrent
      reads con`buffer, con`bufferPtr, con`bufferSize, con`packetNumber, con`stack, con.buffer, con.socket
    {
      && AllFit(TypesOf(columns), rows, final)
      && if buffered then
           result.rowCurrent <= result.rowCount == |rowList| && Listed(rowList[result.rowCurrent..], rows)
         else Coming(rows, final, rest)
    }

    /** The entries of row_list are these rows, none of which was refused. */
    ghost predicate Listed(list: seq<BufferedRow>, rows: seq<SentRow>) {
      && |list| == |rows|
      && forall r :: 0 <= r < |rows| ==>
           list[r] == EntryOf(rows[r]) && |rows[r].row| == |columns| && !HasRefused(columns, rows[r].row)
    }

    /** The call meets the error packet that ends the rows on the wire. */
    ghost predicate Errs(rows: seq<SentRow>, final: seq<byte>, arrival: Arrival)
      reads this`buffered
    {
      !buffered && rows == [] && arrival == Arrived && ResultBuffer.ErrorPacket(final)
    }

    /** The branch of drizzle_stmt_fetch for a buffered result: drizzle_row_next. */
    method RowNext(ghost rows: seq<SentRow>, ghost final: seq<byte>, ghost rest: seq<byte>)
      returns (bitmap: seq<Octet>, row: Option<seq<seq<byte>>>)
      requires buffered && Ahead(rows, final, rest)
      modifies result`rowCurrent
      ensures rows == [] ==> row == None && Ahead(rows, final, rest)
      ensures rows != [] ==>
        row == Some(EntryOf(rows[0]).values) && bitmap == rows[0].bitmap && |rows[0].row| == |columns| &&
        !HasRefused(columns, rows[0].row) && Ahead(rows[1..], final, rest)
    {
      hide HasRefused, SentFits;
      bitmap := [];
      if result.rowCurrent == result.rowCount {
        return bitmap, None;
      }
      var entry := rowList[result.rowCurrent];
      assert entry == rowList[result.rowCurrent..][0];
      SliceOfTail(rowList, result.rowCurrent, 1);
      assert rowList[result.rowCurrent..][1..] == rowList[result.rowCurrent + 1..];
      result.rowCurrent := result.rowCurrent + 1;
      bitmap, row := entry.bitmap, Some(entry.values);
    }

    /** The first half of drizzle_stmt_fetch: the next row, from row_list or from the
        wire. */
    method NextRow(ghost rows: seq<SentRow>, ghost final: seq<byte>, ghost rest: seq<byte>)
      returns (bitmap: seq<Octet>, row: Option<seq<seq<byte>>>, ghost arrival: Arrival)
      requires Joined() && Ahead(rows, final, rest)
      modifies reader, result`rowCount, result`rowCurrent, result.reader`fieldCurrent, result.replies
      modifies con, con.buffer, con.socket
      ensures Joined() && (con.buffer == old(con.buffer) || fresh(con.buffer))
      ensures row.None? <==> arrival != Arrived || rows == [] || (|rows[0].row| == |columns| && HasRefused(columns, rows[0].row))
      ensures row.Some? ==>
        row.value == EntryOf(rows[0]).values && bitmap == rows[0].bitmap && |rows[0].row| == |columns| &&
        Ahead(rows[1..], final, rest)
      ensures arrival == Waits ==> Ahead(rows, final, rest) && con.nonBlocking
      ensures arrival == Fails ==> con.Cut()
      ensures arrival == Arrived && rows == [] && !buffered ==> con.Valid() && con.stack == [] && con.Unread() == rest
      ensures buffered ==> arrival == Arrived && (rows != [] ==> row.Some?)
      ensures result.Told() == if Errs(rows, final, arrival) then ResultBuffer.ToldBy(final) else old(result.Told())
      ensures !buffered && old(con.Valid() && con.TooSoon()) ==> arrival == Waits
      ensures !buffered && old(con.Valid() && con.AllThere()) ==> arrival == Arrived
    {
      hide HasRefused, SentFits, Listed, Coming, Connection.TooSoon, Connection.AllThere, Connection.Cut, Connection.Window;
      arrival := Arrived;
      if buffered {
        bitmap, row := RowNext(rows, final, rest);
      } else {
        ComingFits(rows, final, rest);
        var why;
        why, row := RowBuffer(rows, final, rest);
        bitmap := reader.nullBitmap[..];
        arrival := if why == IoWait then Waits else if SocketFailure(why) then Fails else Arrived;
      }
    }

    /** drizzle_stmt_fetch.  With no row it returns ROW_END, whatever the reason; with
        one, the parameters hold it.  The error code changes only when the server ended
        the rows with an error. */
    method Fetch(ghost rows: seq<SentRow>, ghost final: seq<byte>, ghost rest: seq<byte>)
      returns (ret: Ret, ghost arrival: Arrival)
      requires Joined() && Ahead(rows, final, rest)
      modifies this`stage, params, reader, result`rowCount, result`rowCurrent, result.reader`fieldCurrent, result.replies
      modifies con, con.buffer, con.socket
      ensures Joined() && (con.buffer == old(con.buffer) || fresh(con.buffer))
      ensures RowsOf(columns, Fields(rows))
      ensures if old(stage) == Prepared then ret == UnexpectedData else ret == Answer(columns, Fields(rows), arrival)
      ensures old(stage) == Prepared ==> Ahead(rows, final, rest) && params[..] == old(params[..]) && stage == Prepared
      ensures ret == Ok ==>
        rows != [] && arrival == Arrived && Ahead(rows[1..], final, rest) && stage == FetchedRows &&
        |rows[0].row| == |columns| && RowFitsTypes(TypesOf(columns), rows[0].row) &&
        FetchedTo(old(params[..]), params[..], columns, rows[0].row, |columns|)
      ensures ret == RowEnd ==> params[..] == old(params[..]) && stage == old(stage)
      ensures arrival == Waits ==> Ahead(rows, final, rest) && con.nonBlocking
      ensures arrival == Fails ==> con.Cut()
      ensures arrival == Arrived && rows == [] && !buffered && old(stage) != Prepared ==>
        con.Valid() && con.stack == [] && con.Unread() == rest
      ensures buffered ==> arrival == Arrived && (rows != [] && old(stage) != Prepared ==> ret == Ok)
      ensures result.Told() ==
        if old(stage) != Prepared && Errs(rows, final, arrival) then ResultBuffer.ToldBy(final) else old(result.Told())
      ensures !buffered && old(stage) != Prepared && old(con.Valid() && con.TooSoon()) ==> arrival == Waits
      ensures !buffered && old(stage) != Prepared && old(con.Valid() && con.AllThere()) ==> arrival == Arrived
    {
      hide HasRefused, SentFits, Listed, Coming, Connection.TooSoon, Connection.AllThere, Connection.Cut, Connection.Window;
      hide FetchedTo, Compressed, Marks, RowFitsTypes;
      FieldsFit(rows, final);
      if stage == Prepared {
        return UnexpectedData, Arrived;
      }
      var bitmap, row;
      bitmap, row, arrival := NextRow(rows, final, rest);
      if row == None {
        return RowEnd, arrival;
      }
      HeadFits(rows, final);
      ghost var done;
      ret, done := StmtFetch(params, columns, bitmap, row.value, rows[0].row);
      NoneUnsupported(rows[0].row);
      stage := FetchedRows;
    }

    /** A connection that does not block answers ROW_END before the row has come; the row
        is then still ahead. */
    method FetchTooSoon(ghost rows: seq<SentRow>, ghost final: seq<byte>, ghost rest: seq<byte>) returns (ret: Ret)
      requires Joined() && Ahead(rows, final, rest) && !buffered && stage != Prepared
      requires con.Valid() && con.TooSoon()
      modifies this`stage, params, reader, result`rowCount, result`rowCurrent, result.reader`fieldCurrent, result.replies
      modifies con, con.buffer, con.socket
      ensures ret == RowEnd && Ahead(rows, final, rest)
    {
      hide Ahead, Connection.TooSoon;
      ghost var arrival;
      ret, arrival := Fetch(rows, final, rest);
    }

    /** The first rows came one by one, each in the parameters after its call. */
    ghost predicate Came(got: seq<seq<Bind>>, rows: seq<SentRow>) {
      && |got| <= |rows|
      && forall k :: 0 <= k < |got| ==>
           |rows[k].row| == |columns| && RowFitsTypes(TypesOf(columns), rows[k].row) &&
           Presents(got[k], columns, rows[k].row)
    }

    /** The loop of the documentation: fetch until ROW_END.  Call k yields row k.  The
        loop ends behind the last row when the rows are buffered, or the connection
        blocks, the network does not fail and no column has a type that is refused;
        otherwise it may end before.  What the server ended the rows with is told by the
        error code alone. */
    method FetchAll(ghost rows: seq<SentRow>, ghost final: seq<byte>, ghost rest: seq<byte>)
      returns (got: seq<seq<Bind>>, ghost arrival: Arrival)
      requires Joined() && Ahead(rows, final, rest) && stage != Prepared
      modifies this`stage, params, reader, result`rowCount, result`rowCurrent, result.reader`fieldCurrent, result.replies
      modifies con, con.buffer, con.socket
      ensures Came(got, rows)
      ensures match arrival
        case Arrived =>
          |got| == |rows| ||
          (!buffered && |rows[|got|].row| == |columns| && HasRefused(columns, rows[|got|].row))
        case Waits => con.nonBlocking && !buffered
        case Fails => con.Cut() && !buffered
      ensures buffered == old(buffered)
      ensures buffered || (!con.nonBlocking && !con.Cut() && AllReadable(columns)) ==> |got| == |rows|
      ensures result.Told() ==
        if |got| == |rows| && Errs([], final, arrival) then ResultBuffer.ToldBy(final) else old(result.Told())
      ensures result.Told().0 != old(result.Told().0) <==>
        |got| == |rows| && Errs([], final, arrival) && ResultBuffer.ToldBy(final).0 != old(result.Told().0)
    {
      hide Ahead, Connection.Cut, FetchedTo, RowFitsTypes, Presents, HasRefused;
      got := [];
      ghost var left := rows;
      while true
        invariant Joined() && Ahead(left, final, rest) && stage != Prepared && buffered == old(buffered)
        invariant con.buffer == old(con.buffer) || fresh(con.buffer)
        invariant Came(got, rows) && left == rows[|got|..] && result.Told() == old(result.Told())
        decreases |left|
      {
        ghost var before := params[..];
        var ret;
        ret, arrival := Fetch(left, final, rest);
        if ret == RowEnd {
          if left != [] {
            FirstFits(left);
            ReadableIsTaken(left[0].row);
          }
          return;
        }
        FetchedPresents(before, params[..], columns, left[0].row);
        got := got + [params[..]];
        left := left[1..];
      }
    }

    lemma FirstFits(rows: seq<SentRow>)
      requires RowsOf(columns, Fields(rows)) && rows != []
      ensures |rows[0].row| == |columns| && Fields(rows)[0] == rows[0].row
    {
      assert RowFitsTypes(TypesOf(columns), Fields(rows)[0]);
    }

    lemma ReadableIsTaken(row: seq<Field>)
      ensures |row| == |columns| && AllReadable(columns) ==> !HasRefused(columns, row)
    {
      hide WidthOf;
    }

    /** drizzle_stmt_buffer.  The stage is set before the rows have come, so that a call
        that had to wait cannot be repeated.  Unlike a fetch it reports the error that the
        server ends the rows with. */
    method StmtBuffer(ghost rows: seq<SentRow>, ghost final: seq<byte>, ghost rest: seq<byte>)
      returns (ret: Ret, ghost kept: nat)
      requires Joined() && Ahead(rows, final, rest) && stage != Prepared
      requires stage == Executed ==> !buffered && rowList == [] && result.rowCount == result.rowCurrent == 0
      modifies this`stage, this`buffered, this`rowList, reader, result`rowCount, result`rowCurrent
      modifies result.reader`fieldCurrent, result.replies, con, con.buffer, con.socket
      ensures Joined() && stage == FetchedRows && (con.buffer == old(con.buffer) || fresh(con.buffer))
      ensures old(stage) == FetchedRows ==>
        ret == UnexpectedData && Ahead(rows, final, rest) && buffered == old(buffered) && result.Told() == old(result.Told())
      ensures old(stage) == Executed ==>
        && kept <= |rows|
        && (ret == Ok ==>
              kept == |rows| && buffered && Ahead(rows, final, rest) && con.Valid() && con.stack == [] &&
              con.Unread() == rest && ResultBuffer.EofPacket(final))
        && (ret == ErrorCode ==>
              kept == |rows| && !buffered && con.Valid() && con.stack == [] && con.Unread() == rest &&
              ResultBuffer.ErrorPacket(final))
        && result.Told() == (if ret == ErrorCode then ResultBuffer.ToldBy(final) else old(result.Told()))
        && (ret == IoWait ==> !buffered && con.nonBlocking && Ahead(rows[kept..], final, rest))
        && (ret == UnexpectedData ==>
              kept < |rows| && |rows[kept].row| == |columns| && HasRefused(columns, rows[kept].row))
        && (ret.Ok? || ret.IoWait? || ret.UnexpectedData? || ret.ErrorCode? || (SocketFailure(ret) && con.Cut()))
    {
      hide HasRefused, SentFits, Coming, Connection.TooSoon, Connection.AllThere, Connection.Cut, Connection.Window;
      hide Compressed, Connection.Unread;
      kept := 0;
      if stage == FetchedRows {
        return UnexpectedData, kept;
      }
      stage := FetchedRows;
      assert rows[0..] == rows;
      while true
        invariant Joined() && stage == FetchedRows && (con.buffer == old(con.buffer) || fresh(con.buffer))
        invariant kept <= |rows| && Coming(rows[kept..], final, rest) && !buffered
        invariant result.rowCount == result.rowCurrent == kept && Listed(rowList, rows[..kept])
        invariant result.Told() == old(result.Told())
        decreases |rows| - kept
      {
        var row;
        ret, row := RowBuffer(rows[kept..], final, rest);
        if ret != Ok {
          return;
        }
        if row == None {
          break;
        }
        // row_list[row_current - 1]
        assert result.rowCurrent - 1 == |rowList|;
        OneMore(rowList, rows, kept, BufferedRow(reader.nullBitmap[..], row.value));
        rowList := rowList + [BufferedRow(reader.nullBitmap[..], row.value)];
        kept := kept + 1;
      }
      buffered := true;
      assert rows[..kept] == rows && rowList[0..] == rowList;
    }

    lemma OneMore(list: seq<BufferedRow>, rows: seq<SentRow>, n: nat, entry: BufferedRow)
      requires n < |rows| && Listed(list, rows[..n]) && entry == EntryOf(rows[n])
      requires |rows[n].row| == |columns| && !HasRefused(columns, rows[n].row)
      ensures Listed(list + [entry], rows[..n + 1])
    {
      hide HasRefused, Compressed;
    }

    /** Buffering, and again if it had to wait, and then fetching.  The second attempt is
        refused, and the rows kept before the wait come out of no fetch. */
    method BufferThenFetch(ghost rows: seq<SentRow>, ghost final: seq<byte>, ghost rest: seq<byte>)
      returns (first: Ret, second: Ret, got: seq<seq<Bind>>, ghost kept: nat)
      requires Joined() && Ahead(rows, final, rest) && stage == Executed
      requires !buffered && rowList == [] && result.rowCount == result.rowCurrent == 0
      modifies this`stage, this`buffered, this`rowList, reader, result`rowCount, result`rowCurrent
      modifies result.reader`fieldCurrent, result.replies, con, con.buffer, con.socket, params
      ensures first == Ok ==> Came(got, rows) && |got| == |rows| && ResultBuffer.EofPacket(final)
      ensures first == ErrorCode ==> ResultBuffer.ErrorPacket(final) && result.Told() == ResultBuffer.ToldBy(final)
      ensures first == IoWait ==> second == UnexpectedData && kept <= |rows| && Came(got, rows[kept..])
    {
      hide Ahead, Connection.Cut, Came, HasRefused;
      got, second := [], Ok;
      ghost var arrival;
      first, kept := StmtBuffer(rows, final, rest);
      if first == Ok {
        got, arrival := FetchAll(rows, final, rest);
      } else if first == IoWait {
        ghost var again;
        second, again := StmtBuffer(rows[kept..], final, rest);
        got, arrival := FetchAll(rows[kept..], final, rest);
      }
    }

    lemma FieldsFit(rows: seq<SentRow>, final: seq<byte>)
      requires AllFit(TypesOf(columns), rows, final)
      ensures RowsOf(columns, Fields(rows))
    {
      hide RowFitsTypes, Marks, NoStrayBits;
    }

    lemma HeadFits(rows: seq<SentRow>, final: seq<byte>)
      requires AllFit(TypesOf(columns), rows, final) && rows != []
      ensures RowFitsTypes(TypesOf(columns), rows[0].row) && Marks(rows[0].bitmap, rows[0].row)
      ensures |rows[0].row| == |columns|
    {
    }

    lemma NoneUnsupported(row: seq<Field>)
      requires |row| == |columns| && !HasRefused(columns, row)
      ensures forall c :: 0 <= c < |row| ==> !Unsupported(columns[c], row[c])
    {
      hide WidthOf;
    }
  }

  lemma AtFront(w: seq<byte>, head: seq<byte>, size: nat)
    requires size <= |w| && w[..size] == head && head != []
    ensures size == |head| > 0 && w[0] == head[0]
  {
  }
}
