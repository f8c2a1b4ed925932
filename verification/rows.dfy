/** Text rows: drizzle_state_field_read and drizzle_field_buffer of src/field.cc,
    drizzle_state_row_read of src/row.cc.  A row is one packet. */
module Rows {
  import opened Bytes
  import opened Pack
  import opened StateStack
  import opened Connection

  /** A field is a byte string or NULL. */
  type Field = Option<seq<byte>>

  predicate FieldFits(f: Field) {
    f.Some? ==> |f.value| <= MAX_LENGTH
  }

  predicate RowFits(row: seq<Field>) {
    forall i :: 0 <= i < |row| ==> FieldFits(row[i])
  }

  /** A field on the wire. */
  function FieldBytes(f: Field): (s: seq<byte>)
    ensures s != []
  {
    match f
    case None => [251]
    case Some(v) => BinaryBytes(v)
  }

  function RowBytes(row: seq<Field>): seq<byte> {
    if row == [] then [] else FieldBytes(row[0]) + RowBytes(row[1..])
  }

  /** What is left of a row: after `off` bytes of field i when its length has been
      taken already, before field i otherwise. */
  function Remaining(row: seq<Field>, i: nat, inside: bool, off: nat): seq<byte>
    requires i <= |row|
    requires inside ==> i < |row| && row[i].Some? && off < |row[i].value|
  {
    if inside then row[i].value[off..] + RowBytes(row[i + 1..]) else RowBytes(row[i..])
  }

  /** The first byte of a row never looks like an error packet, and looks like an
      end-of-rows packet only when the packet is far larger than one. */
  lemma RowIsNoMarker(row: seq<Field>)
    requires row != [] && RowFits(row)
    ensures RowBytes(row)[0] != 255
    ensures RowBytes(row)[0] == 254 ==> |RowBytes(row)| > 0x100_0000
  {
    if row[0].Some? {
      FirstByte(|row[0].value|);
    }
  }

  /** The window of a stream that starts with a field's length: the decoder
      either waits or finds that length. */
  lemma WindowAtField(window: seq<byte>, v: seq<byte>, more: seq<byte>, incoming: seq<byte>)
    requires window != [] && |v| <= MAX_LENGTH
    requires window + incoming == BinaryBytes(v) + more
    ensures DecodeLength(window) == Wait ==> |window| <= 8
    ensures !DecodeLength(window).Wait? ==> DecodeLength(window) == Length(|v|, |LengthBytes(|v|)|)
    ensures |window| >= |LengthBytes(|v|)| ==> !DecodeLength(window).Wait?
  {
    hide LengthBytes, DecodeLength;
    Regroup(LengthBytes(|v|), v, more);
    LengthRoundTrip(|v|, v + more);
    assert window + incoming == LengthBytes(|v|) + (v + more);
    if !DecodeLength(window).Wait? {
      MoreBytesSameLength(window, incoming);
    }
    if |window| >= |LengthBytes(|v|)| {
      DropFront(window, incoming, LengthBytes(|v|), v + more, |LengthBytes(|v|)|);
      assert window == LengthBytes(|v|) + window[|LengthBytes(|v|)|..];
      LengthRoundTrip(|v|, window[|LengthBytes(|v|)|..]);
    }
    WaitIsShort(window);
  }

  lemma WaitIsShort(s: seq<byte>)
    requires s != []
    ensures DecodeLength(s).Wait? ==> |s| <= 8
  {
  }

  /** Taking bytes off the front of a stream. */
  lemma DropFront<T>(window: seq<T>, incoming: seq<T>, front: seq<T>, rest: seq<T>, k: nat)
    requires window + incoming == front + rest && k <= |front| && k <= |window|
    ensures window[k..] + incoming == front[k..] + rest
    ensures window[..k] == front[..k]
  {
    assert (window + incoming)[k..] == window[k..] + incoming;
    assert (front + rest)[k..] == front[k..] + rest;
    assert (window + incoming)[..k] == window[..k];
    assert (front + rest)[..k] == front[..k];
  }

  lemma RowStep(row: seq<Field>, i: nat)
    requires i < |row|
    ensures RowBytes(row[i..]) == FieldBytes(row[i]) + RowBytes(row[i + 1..])
  {
    assert row[i..][1..] == row[i + 1..];
  }

  /** field_current, field_offset, field_size and field_total of the result. */
  datatype Cursor = Cursor(current: nat, offset: nat, size: nat, total: nat) {
    /** Inside field `current`: its length is known, bytes are missing. */
    predicate Inside() {
      offset + size != total
    }

    /** How much of field `current` has been handed over. */
    function Done(): nat {
      if Inside() then offset + size else 0
    }
  }

  /** What one run of drizzle_state_field_read does. */
  datatype Outcome = NeedMore | Nothing | NullField | Piece(data: seq<byte>)

  datatype Step = Step(cursor: Cursor, window: seq<byte>, packetSize: nat, outcome: Outcome)

  /** The packet covers the length that begins the next field. */
  predicate Covered(c: Cursor, window: seq<byte>, packetSize: nat) {
    !c.Inside() && window != [] && DecodeLength(window).Length? ==> DecodeLength(window).used <= packetSize
  }

  /** drizzle_state_field_read on the unread bytes in the buffer. */
  function FieldStep(c: Cursor, window: seq<byte>, packetSize: nat): Step
    requires packetSize > 0 && c.offset + c.size <= c.total && Covered(c, window, packetSize)
  {
    if window == [] then Step(c, window, packetSize, NeedMore)
    else if c.Inside() then PieceStep(c.(offset := c.offset + c.size), window, packetSize)
    else
      match DecodeLength(window)
      case NullSize => Step(Cursor(c.current + 1, 0, 0, 0), window[1..], packetSize - 1, NullField)
      case Wait => Step(Cursor(c.current, 0, 0, 0), window, packetSize, NeedMore)
      case Length(value, used) =>
        PieceStep(Cursor(c.current, 0, 0, value), window[used..], packetSize - used)
  }

  /** The second half: as much of the field as the buffer and the packet hold. */
  function PieceStep(c: Cursor, window: seq<byte>, packetSize: nat): Step
    requires c.offset <= c.total
  {
    var available := if |window| < packetSize then |window| else packetSize;
    var size := if c.total - c.offset <= available then c.total - c.offset else available;
    var current := if c.offset + size == c.total then c.current + 1 else c.current;
    Step(Cursor(current, c.offset, size, c.total), window[size..], packetSize - size,
         if c.total == 0 || size > 0 || packetSize == size then Piece(window[..size]) else Nothing)
  }

  lemma PieceStepIs(c: Cursor, window: seq<byte>, packetSize: nat, size: nat)
    requires c.offset <= c.total && size <= |window| && size <= packetSize && size <= c.total - c.offset
    requires size in {|window|, packetSize, c.total - c.offset}
    ensures PieceStep(c, window, packetSize) ==
      Step(Cursor(if c.offset + size == c.total then c.current + 1 else c.current, c.offset, size, c.total),
           window[size..], packetSize - size,
           if c.total == 0 || size > 0 || packetSize == size then Piece(window[..size]) else Nothing)
  {
  }

  /** The reader is somewhere in `row`, the unread stream is what is left of it
      followed by `rest`, and packet_size counts what is left. */
  ghost predicate At(row: seq<Field>, rest: seq<byte>, c: Cursor, window: seq<byte>, incoming: seq<byte>, size: nat) {
    && RowFits(row) && c.current <= |row|
    && c.offset + c.size <= c.total
    && (c.Inside() ==> c.current < |row| && row[c.current].Some? && c.total == |row[c.current].value|)
    && var left := Remaining(row, c.current, c.Inside(), c.offset + c.size);
      window + incoming == left + rest && size == |left|
  }

  /** A step hands over exactly what follows the part already handed over. */
  ghost predicate Continues(row: seq<Field>, i: nat, done: nat, s: Step)
    requires i < |row|
  {
    match s.outcome
    case NullField => row[i] == None && s.cursor == Cursor(i + 1, 0, 0, 0)
    case Piece(data) =>
      && row[i].Some? && s.cursor.offset == done && s.cursor.size == |data| && s.cursor.total == |row[i].value|
      && done + |data| <= |row[i].value| && data == row[i].value[done..done + |data|]
      && (data != [] || row[i].value == [])
      && s.cursor.current == (if done + |data| == |row[i].value| then i + 1 else i)
    case _ => s.cursor.current == i && s.cursor.Done() == done
  }

  lemma RemainingIs(row: seq<Field>, i: nat, off: nat)
    requires i < |row| && row[i].Some? && off <= |row[i].value|
    ensures var v := row[i].value;
      (if off < |v| then Remaining(row, i, true, off) else Remaining(row, i + 1, false, off)) ==
      v[off..] + RowBytes(row[i + 1..])
  {
    hide RowBytes;
  }

  /** The reader faces field `c.current`, a string of which c.offset bytes are gone. */
  ghost predicate Facing(row: seq<Field>, rest: seq<byte>, c: Cursor, window: seq<byte>, incoming: seq<byte>, size: nat)
  {
    && c.current < |row| && row[c.current].Some? && RowFits(row)
    && c.total == |row[c.current].value| && (c.offset < c.total || c.offset == c.total == 0)
    && var left := row[c.current].value[c.offset..] + RowBytes(row[c.current + 1..]);
      window + incoming == left + rest && size == |left|
  }

  lemma PieceAt(row: seq<Field>, rest: seq<byte>, c: Cursor, window: seq<byte>, incoming: seq<byte>, size: nat)
    requires Facing(row, rest, c, window, incoming, size)
    ensures var s := PieceStep(c, window, size); At(row, rest, s.cursor, s.window, incoming, s.packetSize)
  {
    hide RowBytes, RowFits, Remaining;
    var v, tail := row[c.current].value, RowBytes(row[c.current + 1..]);
    var k := PieceStep(c, window, size).cursor.size;
    assert |v[c.offset..] + tail| == |v| - c.offset + |tail|;
    StreamAfter(row, c.current, c.offset, k, rest, window, incoming, size);
  }

  lemma StreamAfter(row: seq<Field>, i: nat, off: nat, k: nat, rest: seq<byte>, window: seq<byte>, incoming: seq<byte>,
                    size: nat)
    requires i < |row| && row[i].Some? && off + k <= |row[i].value| && k <= |window|
    requires var left := row[i].value[off..] + RowBytes(row[i + 1..]);
      window + incoming == left + rest && size == |left|
    ensures var left := if off + k < |row[i].value| then Remaining(row, i, true, off + k)
                        else Remaining(row, i + 1, false, off + k);
      window[k..] + incoming == left + rest && size - k == |left|
  {
    hide RowBytes, Remaining;
    RemainingIs(row, i, off + k);
    PieceTaken(window, incoming, row[i].value, off, RowBytes(row[i + 1..]), rest, k);
  }

  lemma PieceContinues(row: seq<Field>, rest: seq<byte>, c: Cursor, window: seq<byte>, incoming: seq<byte>, size: nat)
    requires Facing(row, rest, c, window, incoming, size)
    ensures var s := PieceStep(c, window, size);
      && Continues(row, c.current, c.offset, s)
      && (s.outcome.Piece? || (s.outcome == Nothing && s.window == []))
      && (|window| >= size ==> |s.window| >= s.packetSize && s.outcome.Piece? && !s.cursor.Inside())
  {
    hide RowBytes, RowFits;
    var s, v, tail := PieceStep(c, window, size), row[c.current].value, RowBytes(row[c.current + 1..]);
    PieceTaken(window, incoming, v, c.offset, tail, rest, s.cursor.size);
  }

  lemma BeginKeeps(row: seq<Field>, rest: seq<byte>, c: Cursor, window: seq<byte>, incoming: seq<byte>, size: nat)
    requires At(row, rest, c, window, incoming, size) && c.current < |row| && !c.Inside() && window != []
    ensures size > 0
    ensures row[c.current].None? ==>
      DecodeLength(window) == NullSize &&
      window[1..] + incoming == RowBytes(row[c.current + 1..]) + rest && size - 1 == |RowBytes(row[c.current + 1..])|
    ensures row[c.current].Some? ==> !DecodeLength(window).NullSize?
    ensures DecodeLength(window) == Wait ==> |window| <= 8 && |window| < size
    ensures DecodeLength(window).Length? ==>
      row[c.current].Some? && DecodeLength(window).value == |row[c.current].value| &&
      DecodeLength(window).used <= size
    ensures DecodeLength(window).Length? ==>
      var left := row[c.current].value[0..] + RowBytes(row[c.current + 1..]);
      window[DecodeLength(window).used..] + incoming == left + rest &&
      size - DecodeLength(window).used == |left|
  {
    hide DecodeLength, LengthBytes;
    var tail := RowBytes(row[c.current + 1..]);
    RowStep(row, c.current);
    if row[c.current].Some? {
      StringAhead(window, incoming, row[c.current].value, tail, rest, size);
    } else {
      NullAhead(window, incoming, tail, rest);
    }
  }

  /** Every step, on every part of the packet the buffer may hold, keeps the
      reader in step with the row; with the whole packet in the buffer it
      finishes the field. */
  lemma FieldStepKeeps(row: seq<Field>, rest: seq<byte>, c: Cursor, window: seq<byte>, incoming: seq<byte>, size: nat)
    requires At(row, rest, c, window, incoming, size) && c.current < |row|
    ensures size > 0 && Covered(c, window, size)
    ensures var s := FieldStep(c, window, size);
      && At(row, rest, s.cursor, s.window, incoming, s.packetSize)
      && Continues(row, c.current, c.Done(), s)
      && (s.outcome == NeedMore ==> |s.window| <= 8 && |s.window| < s.packetSize && s.window == window)
      && (s.outcome == Nothing ==> s.window == [] && window != [])
      && (|window| >= size ==>
            |s.window| >= s.packetSize && (s.outcome.Piece? || s.outcome.NullField?) && !s.cursor.Inside())
  {
    hide DecodeLength, PieceStep, RowBytes, RowFits;
    LeftIsSomething(row, rest, c, window, incoming, size);
    if window == [] {
    } else if c.Inside() {
      PieceAt(row, rest, c.(offset := c.offset + c.size), window, incoming, size);
      PieceContinues(row, rest, c.(offset := c.offset + c.size), window, incoming, size);
    } else {
      BeginKeeps(row, rest, c, window, incoming, size);
      match DecodeLength(window)
      case NullSize =>
      case Wait =>
      case Length(value, used) =>
        PieceAt(row, rest, Cursor(c.current, 0, 0, value), window[used..], incoming, size - used);
        PieceContinues(row, rest, Cursor(c.current, 0, 0, value), window[used..], incoming, size - used);
    }
  }

  /** The reader's place depends only on the bytes to come, not on how many of them
      are in the buffer. */
  lemma MoreArrived(row: seq<Field>, rest: seq<byte>, c: Cursor, w: seq<byte>, incoming: seq<byte>, more: seq<byte>,
                    later: seq<byte>, size: nat)
    requires At(row, rest, c, w, incoming, size) && w + incoming == more + later
    ensures At(row, rest, c, more, later, size)
  {
  }

  lemma PacketAhead(row: seq<Field>, rest: seq<byte>, c: Cursor, window: seq<byte>, incoming: seq<byte>, size: nat)
    requires At(row, rest, c, window, incoming, size)
    ensures size <= |window + incoming|
  {
  }

  lemma AtOffset(row: seq<Field>, rest: seq<byte>, c: Cursor, window: seq<byte>, incoming: seq<byte>, size: nat)
    requires At(row, rest, c, window, incoming, size)
    ensures c.offset + c.size <= c.total
  {
  }

  lemma LeftIsSomething(row: seq<Field>, rest: seq<byte>, c: Cursor, window: seq<byte>, incoming: seq<byte>, size: nat)
    requires At(row, rest, c, window, incoming, size) && c.current < |row|
    ensures size > 0
  {
    if !c.Inside() {
      RowStep(row, c.current);
    }
  }

  /** What the decoder sees at the front of a string field. */
  lemma StringAhead(window: seq<byte>, incoming: seq<byte>, v: seq<byte>, tail: seq<byte>, rest: seq<byte>,
                    size: nat)
    requires window != [] && |v| <= MAX_LENGTH
    requires window + incoming == BinaryBytes(v) + tail + rest && size == |BinaryBytes(v) + tail|
    ensures !DecodeLength(window).NullSize?
    ensures DecodeLength(window) == Wait ==> |window| <= 8 && |window| < size
    ensures DecodeLength(window).Length? ==>
      var used := DecodeLength(window).used;
      DecodeLength(window).value == |v| && used <= size &&
      window[used..] + incoming == v[0..] + tail + rest && size - used == |v[0..] + tail|
  {
    hide LengthBytes, DecodeLength;
    var head := LengthBytes(|v|);
    Regroup(BinaryBytes(v), tail, rest);
    WindowAtField(window, v, tail + rest, incoming);
    if DecodeLength(window).Length? {
      Regroup(head, v, tail + rest);
      DropFront(window, incoming, head, v + (tail + rest), |head|);
      assert head[|head|..] + (v + (tail + rest)) == v[0..] + tail + rest;
    }
  }

  lemma PieceTaken(window: seq<byte>, incoming: seq<byte>, v: seq<byte>, off: nat, tail: seq<byte>, rest: seq<byte>,
                   k: nat)
    requires off + k <= |v| && k <= |window|
    requires window + incoming == v[off..] + tail + rest
    ensures window[k..] + incoming == v[off + k..] + tail + rest
    ensures window[..k] == v[off..off + k]
    ensures v[|v|..] + tail == tail
  {
    Regroup(v[off..], tail, rest);
    DropFront(window, incoming, v[off..], tail + rest, k);
    assert v[off..][k..] == v[off + k..] && v[off..][..k] == v[off..off + k];
    Regroup(v[off + k..], tail, rest);
  }

  lemma NullAhead(window: seq<byte>, incoming: seq<byte>, tail: seq<byte>, rest: seq<byte>)
    requires window != [] && window + incoming == [251] + tail + rest
    ensures DecodeLength(window) == NullSize
    ensures window[1..] + incoming == tail + rest
  {
    assert (window + incoming)[0] == window[0];
    Regroup([251], tail, rest);
    DropFront(window, incoming, [251], tail + rest, 1);
    assert [251][1..] + (tail + rest) == tail + rest;
  }

  /** The result struct, as far as reading fields goes. */
  class FieldReader {
    const con: Connection
    const columnCount: nat
    var fieldCurrent: nat
    var fieldOffset: nat
    var fieldSize: nat
    var fieldTotal: nat
    /** The pointer `field` into the connection's buffer; NULL for a NULL field. */
    var field: Option<nat>

    constructor (con: Connection, columnCount: nat)
      ensures this.con == con && this.columnCount == columnCount && Cur() == Cursor(0, 0, 0, 0)
    {
      this.con := con;
      this.columnCount := columnCount;
      fieldCurrent, fieldOffset, fieldSize, fieldTotal := 0, 0, 0, 0;
      field := None;
    }

    ghost function Cur(): Cursor
      reads this`fieldCurrent, this`fieldOffset, this`fieldSize, this`fieldTotal
    {
      Cursor(fieldCurrent, fieldOffset, fieldSize, fieldTotal)
    }

    /** The reader stands in `row`, which `rest` follows on the stream. */
    ghost predicate Reading(row: seq<Field>, rest: seq<byte>)
      reads this`fieldCurrent, this`fieldOffset, this`fieldSize, this`fieldTotal
      reads con`buffer, con`bufferPtr, con`bufferSize, con`packetSize, con.buffer, con.socket
    {
      && con.Valid() && |row| == columnCount
      && At(row, rest, Cur(), con.Window(), con.socket.incoming, con.packetSize)
    }

    /** The bytes `field` points at. */
    ghost predicate PointsAt(data: seq<byte>)
      reads this`field, con`buffer, con.buffer
    {
      && field.Some? && field.value + |data| <= con.buffer.Length
      && con.buffer[field.value..field.value + |data|] == data
    }

    /** drizzle_state_field_read, as FieldStep describes it.  Its special case for
        a field_size above packet_size is absent: field_size never exceeds the
        available data, which packet_size bounds. */
    method StateFieldRead()
      requires con.Valid() && con.stack == [FieldRead] && con.packetSize > 0
      requires fieldOffset + fieldSize <= fieldTotal && Covered(Cur(), con.Window(), con.packetSize)
      modifies this`field, this`fieldCurrent, this`fieldOffset, this`fieldSize, this`fieldTotal
      modifies con`stack, con`bufferPtr, con`bufferSize, con`packetSize
      ensures con.Valid() && con.buffer == old(con.buffer)
      ensures var s := FieldStep(old(Cur()), old(con.Window()), old(con.packetSize));
        && Cur() == s.cursor && con.Window() == s.window && con.packetSize == s.packetSize
        && match s.outcome
           case NeedMore => con.stack == [Read, FieldRead]
           case Nothing => con.stack == [FieldRead]
           case NullField => con.stack == [] && field == None
           case Piece(data) => con.stack == [] && PointsAt(data)
    {
      hide DecodeLength, Connection.Window, PieceStep, Allocation;
      if con.bufferSize == 0 {
        con.stack := [Read] + con.stack;
        return;
      }
      fieldOffset := fieldOffset + fieldSize;
      if fieldOffset == fieldTotal {
        fieldOffset := 0;
        fieldSize := 0;
        var r := con.UnpackLength();
        match r {
          case NullSize =>
            fieldTotal := 0;
            field := None;
            fieldCurrent := fieldCurrent + 1;
            con.stack := con.stack[1..];
            return;
          case Wait =>
            fieldTotal := 0;
            con.stack := [Read] + con.stack;
            return;
          case Length(value, _) =>
            fieldTotal := value;
        }
      }
      FinishFieldRead();
    }

    /** `field` is set to the next field_size bytes, and they are taken. */
    method HandOver()
      requires con.Valid() && fieldSize <= con.bufferSize && fieldSize <= con.packetSize
      modifies this`field, con`bufferPtr, con`bufferSize, con`packetSize
      ensures con.Valid() && con.buffer == old(con.buffer) && PointsAt(old(con.Window())[..fieldSize])
      ensures con.Window() == old(con.Window())[fieldSize..] && con.packetSize == old(con.packetSize) - fieldSize
    {
      hide Connection.Window, Allocation;
      field := Some(con.bufferPtr);
      con.TakeField(fieldSize);
    }

    /** The end of drizzle_state_field_read.  The source computes field_size in two
        places, once behind a length and once inside a field, by the same rule. */
    method FinishFieldRead()
      requires con.Valid() && con.stack == [FieldRead] && fieldOffset <= fieldTotal
      modifies this`field, this`fieldCurrent, this`fieldSize
      modifies con`stack, con`bufferPtr, con`bufferSize, con`packetSize
      ensures con.Valid() && con.buffer == old(con.buffer)
      ensures var s := PieceStep(old(Cur()), old(con.Window()), old(con.packetSize));
        && Cur() == s.cursor && con.Window() == s.window && con.packetSize == s.packetSize
        && (s.outcome.Piece? || s.outcome.Nothing?)
        && (s.outcome.Piece? ==> con.stack == [] && PointsAt(s.outcome.data))
        && (s.outcome.Nothing? ==> con.stack == [FieldRead])
    {
      hide Connection.Window, Allocation, PointsAt, PieceStep;
      ghost var c, w, size := Cur(), con.Window(), con.packetSize;
      var available := if con.bufferSize < con.packetSize then con.bufferSize else con.packetSize;
      var remaining := fieldTotal - fieldOffset;
      if remaining <= available {
        fieldSize := remaining;
      } else {
        fieldSize := available;
      }
      PieceStepIs(c, w, size, fieldSize);
      HandOver();
      if fieldOffset + fieldSize == fieldTotal {
        fieldCurrent := fieldCurrent + 1;
      }
      if fieldTotal == 0 || fieldSize > 0 || con.packetSize == 0 {
        con.stack := con.stack[1..];
      }
    }

    /** The piece of field i that follows its first `done` bytes has been handed
        over, or its NULL. */
    ghost predicate Handed(row: seq<Field>, i: nat, done: nat)
      reads this`fieldCurrent, this`fieldOffset, this`fieldSize, this`fieldTotal, this`field, con`buffer, con.buffer
      requires i < |row|
    {
      match row[i]
      case None => field == None && Cur() == Cursor(i + 1, 0, 0, 0)
      case Some(v) =>
        && fieldOffset == done && fieldTotal == |v| && done + fieldSize <= |v|
        && PointsAt(v[done..done + fieldSize])
        && (fieldSize > 0 || v == [])
        && fieldCurrent == (if done + fieldSize == |v| then i + 1 else i)
    }

    /** One run of drizzle_state_field_read on a row. */
    method ReadOn(ghost row: seq<Field>, ghost rest: seq<byte>)
      requires Reading(row, rest) && fieldCurrent < |row| && con.stack == [FieldRead]
      modifies this`field, this`fieldCurrent, this`fieldOffset, this`fieldSize, this`fieldTotal
      modifies con`stack, con`bufferPtr, con`bufferSize, con`packetSize
      ensures Reading(row, rest) && con.buffer == old(con.buffer)
      ensures con.stack == [] ==> Handed(row, old(fieldCurrent), old(Cur().Done()))
      ensures con.stack != [] ==> fieldCurrent == old(fieldCurrent) && Cur().Done() == old(Cur().Done())
      ensures con.stack != [] ==>
        if con.stack == [FieldRead] then con.bufferSize == 0 < old(con.bufferSize)
        else Waits()
      ensures old(con.bufferSize >= con.packetSize) ==>
        con.stack == [] && con.bufferSize >= con.packetSize && !Cur().Inside()
    {
      hide Connection.Window, FieldStep, At, Allocation, Covered, Continues, PointsAt, Handed;
      FieldStepKeeps(row, rest, Cur(), con.Window(), con.socket.incoming, con.packetSize);
      AtOffset(row, rest, Cur(), con.Window(), con.socket.incoming, con.packetSize);
      ghost var i, done, s := fieldCurrent, Cur().Done(), FieldStep(Cur(), con.Window(), con.packetSize);
      StateFieldRead();
      HandedIs(row, i, done, s);
    }

    lemma HandedIs(row: seq<Field>, i: nat, done: nat, s: Step)
      requires i < |row| && Cur() == s.cursor && Continues(row, i, done, s)
      requires s.outcome.NullField? ==> field == None
      requires s.outcome.Piece? ==> PointsAt(s.outcome.data)
      ensures s.outcome.NullField? || s.outcome.Piece? ==> Handed(row, i, done)
      ensures s.outcome.NeedMore? || s.outcome.Nothing? ==> fieldCurrent == i && Cur().Done() == done
    {
      hide PointsAt;
    }

    /** A wait for bytes of the packet that is being read. */
    ghost predicate Waits()
      reads con`stack, con`bufferSize, con`packetSize
    {
      con.stack == [Read, FieldRead] && con.bufferSize <= 8 && con.bufferSize < con.packetSize
    }

    /** drizzle_state_read in the middle of a row. */
    method ReadMore(ghost row: seq<Field>, ghost rest: seq<byte>) returns (ret: Ret)
      requires Reading(row, rest) && Waits()
      modifies con`buffer, con`bufferPtr, con`bufferSize, con`packetNumber, con`stack, con`readable
      modifies con.buffer, con.socket
      ensures con.Valid() && (con.buffer == old(con.buffer) || fresh(con.buffer))
      ensures ret == Ok || ret == IoWait ==> Reading(row, rest) && con.packetNumber == old(con.packetNumber)
      ensures ret == Ok ==> con.stack == [FieldRead] && con.socket.Left() < old(con.socket.Left())
      ensures ret == IoWait ==> Waits()
      ensures !ret.Ok? && !ret.IoWait? ==> SocketFailure(ret) && con.Cut() && con.stack == []
      ensures con.socket.Left() <= old(con.socket.Left())
      ensures ret == IoWait && old(con.readable) ==> con.socket.Left() < old(con.socket.Left())
    {
      hide Connection.Window, At, Allocation, Socket.Left, Connection.Cut;
      ghost var w, incoming := con.Window(), con.socket.incoming;
      ret := con.StateRead();
      MoreArrived(row, rest, Cur(), w, incoming, con.Window(), con.socket.incoming, con.packetSize);
      PacketAhead(row, rest, Cur(), con.Window(), con.socket.incoming, con.packetSize);
      if ret != Ok && ret != IoWait {
        con.Close();
      } else {
        assert ret == IoWait ==> |w| == |con.Window()|;
      }
    }

    /** drizzle_state_loop under drizzle_field_read.  Whatever recv does, the
        reader gets the next piece of the row; with the whole packet in the
        buffer it gets the whole rest of the field and never waits. */
    method FieldLoop(ghost row: seq<Field>, ghost rest: seq<byte>) returns (ret: Ret)
      requires Reading(row, rest) && fieldCurrent < |row|
      requires con.stack == [FieldRead] || Waits()
      modifies this`field, this`fieldCurrent, this`fieldOffset, this`fieldSize, this`fieldTotal
      modifies con`buffer, con`bufferPtr, con`bufferSize, con`packetSize, con`packetNumber, con`stack, con`readable
      modifies con.buffer, con.socket
      ensures con.Valid() && (con.buffer == old(con.buffer) || fresh(con.buffer))
      ensures ret == Ok ==> Reading(row, rest) && con.stack == [] && Handed(row, old(fieldCurrent), old(Cur().Done()))
      ensures ret == IoWait ==>
        Reading(row, rest) && Waits() &&
        fieldCurrent == old(fieldCurrent) && Cur().Done() == old(Cur().Done())
      ensures !ret.Ok? && !ret.IoWait? ==> SocketFailure(ret) && con.Cut() && con.stack == []
      ensures ret == Ok ==> con.packetNumber == old(con.packetNumber)
      ensures con.socket.Left() <= old(con.socket.Left())
      ensures ret == IoWait && old(con.readable) ==> con.socket.Left() < old(con.socket.Left())
      ensures old(con.stack) == [FieldRead] && old(con.bufferSize >= con.packetSize) ==>
        ret == Ok && con.bufferSize >= con.packetSize && con.buffer == old(con.buffer) && !Cur().Inside()
    {
      ghost var i, done := fieldCurrent, Cur().Done();
      ghost var whole := con.stack == [FieldRead] && con.bufferSize >= con.packetSize;
      hide Connection.Window, At, Allocation, Handed, Socket.Left, Connection.Cut;
      while con.stack != []
        invariant con.Valid() && (con.buffer == old(con.buffer) || fresh(con.buffer))
        invariant Reading(row, rest) && con.packetNumber == old(con.packetNumber)
        invariant con.stack == [] || con.stack == [FieldRead] || Waits()
        invariant con.socket.Left() <= old(con.socket.Left())
        invariant con.readable == old(con.readable) || con.socket.Left() < old(con.socket.Left())
        invariant con.stack == [] ==> Handed(row, i, done)
        invariant con.stack != [] ==> fieldCurrent == i && Cur().Done() == done
        invariant whole ==>
          con.stack != [Read, FieldRead] && con.bufferSize >= con.packetSize && con.buffer == old(con.buffer) &&
          (con.stack == [] ==> !Cur().Inside())
        decreases con.socket.Left(),
          if con.stack == [] then 0 else if con.stack == [Read, FieldRead] then 1 else if con.bufferSize == 0 then 2 else 3
      {
        if con.stack[0] == Read {
          ret := ReadMore(row, rest);
          if ret != Ok {
            return;
          }
        } else {
          ReadOn(row, rest);
        }
      }
      return Ok;
    }

    /** The stack drizzle_field_read may find: nothing to do, or a wait to resume. */
    ghost predicate Resumable(row: seq<Field>)
      reads this`fieldCurrent, con`stack, con`bufferSize, con`packetSize
    {
      con.stack == [] || (Waits() && fieldCurrent < |row|)
    }

    /** drizzle_field_read: the pieces of a row's fields, in order and without gap,
        then RowEnd after exactly column_count fields. */
    method ReadField(ghost row: seq<Field>, ghost rest: seq<byte>) returns (ret: Ret)
      requires Reading(row, rest) && Resumable(row)
      modifies this`field, this`fieldCurrent, this`fieldOffset, this`fieldSize, this`fieldTotal
      modifies con`buffer, con`bufferPtr, con`bufferSize, con`packetSize, con`packetNumber, con`stack, con`readable
      modifies con.buffer, con.socket
      ensures con.Valid() && (con.buffer == old(con.buffer) || fresh(con.buffer))
      ensures ret == RowEnd <==> old(fieldCurrent) == |row|
      ensures ret == RowEnd ==> Reading(row, rest) && con.stack == [] && Cur() == old(Cur()) && !Cur().Inside()
      ensures ret == Ok ==>
        old(fieldCurrent) < |row| && Reading(row, rest) && con.stack == [] &&
        Handed(row, old(fieldCurrent), old(Cur().Done()))
      ensures ret == IoWait ==>
        Reading(row, rest) && Resumable(row) && con.stack != [] &&
        fieldCurrent == old(fieldCurrent) && Cur().Done() == old(Cur().Done())
      ensures ret.Ok? || ret.IoWait? || ret.RowEnd? || SocketFailure(ret)
      ensures SocketFailure(ret) ==> con.Cut()
      ensures ret.Ok? || ret.RowEnd? ==> con.packetNumber == old(con.packetNumber)
      ensures con.socket.Left() <= old(con.socket.Left())
      ensures ret == IoWait && old(con.readable) ==> con.socket.Left() < old(con.socket.Left())
      ensures old(con.stack) == [] && old(con.bufferSize >= con.packetSize) ==>
        (ret == Ok || ret == RowEnd) && con.bufferSize >= con.packetSize && con.buffer == old(con.buffer) &&
        !Cur().Inside()
    {
      hide Connection.Window, At, Allocation, Handed, Socket.Left, Connection.Cut;
      if con.stack == [] {
        EndIsBoundary(row, rest);
        if fieldCurrent == columnCount {
          return RowEnd;
        }
        con.stack := [FieldRead] + con.stack;
      }
      ret := FieldLoop(row, rest);
    }

    lemma EndIsBoundary(row: seq<Field>, rest: seq<byte>)
      requires Reading(row, rest)
      ensures fieldCurrent <= |row|
      ensures fieldCurrent == |row| ==> !Cur().Inside() && con.packetSize == 0
    {
    }
  }

  /** `done` bytes of field i can have been handed over. */
  predicate Place(row: seq<Field>, i: nat, done: nat) {
    i <= |row| && (done > 0 ==> i < |row| && row[i].Some? && done <= |row[i].value|)
  }

  /** What a caller who reads piece by piece has of a row: the fields before `current`
      and `done` bytes of that one. */
  function SoFar(row: seq<Field>, current: nat, done: nat): seq<Field>
    requires Place(row, current, done)
  {
    if done == 0 then row[..current] else row[..current] + [Some(row[current].value[..done])]
  }

  lemma NextNull(row: seq<Field>, i: nat)
    requires i < |row| && row[i] == None
    ensures SoFar(row, i + 1, 0) == SoFar(row, i, 0) + [None]
  {
  }

  lemma NextData(row: seq<Field>, i: nat, done: nat, data: seq<byte>)
    requires i < |row| && row[i].Some? && done + |data| <= |row[i].value|
    requires data == row[i].value[done..done + |data|] && (data != [] || row[i].value == [])
    ensures var fields, v := SoFar(row, i, done), row[i].value;
      (if done == 0 then fields + [Some(data)]
       else fields[..|fields| - 1] + [Some(fields[|fields| - 1].value + data)]) ==
      if done + |data| == |v| then SoFar(row, i + 1, 0) else SoFar(row, i, done + |data|)
  {
    var fields, v := SoFar(row, i, done), row[i].value;
    assert v[..done] + data == v[..done + |data|];
    assert v[..|v|] == v && row[..i] + [row[i]] == row[..i + 1];
    if done > 0 {
      assert fields[..|fields| - 1] == row[..i];
    }
  }

  /** The bytes of a field that are still to come. */
  function Missing(row: seq<Field>, i: nat, done: nat): nat
    requires Place(row, i, done)
  {
    if i < |row| && row[i].Some? then |row[i].value| - done else 0
  }

  lemma AtPlace(row: seq<Field>, rest: seq<byte>, c: Cursor, window: seq<byte>, incoming: seq<byte>, size: nat)
    requires At(row, rest, c, window, incoming, size)
    ensures Place(row, c.current, c.Done())
    ensures c.Inside() && c.current < |row| && row[c.current].Some? ==> c.Done() < |row[c.current].value|
    ensures c.Inside() ==> c.current < |row| && row[c.current].Some? && c.total == |row[c.current].value|
  {
  }

  /** The piece handed over goes behind what the caller has. */
  method AddPiece(reader: FieldReader, fields: seq<Field>, ghost row: seq<Field>, ghost i: nat, ghost done: nat)
    returns (now: seq<Field>)
    requires Place(row, i, done) && i < |row| && reader.Handed(row, i, done) && fields == SoFar(row, i, done)
    requires row[i].None? ==> done == 0
    ensures Place(row, reader.fieldCurrent, reader.Cur().Done())
    ensures now == SoFar(row, reader.fieldCurrent, reader.Cur().Done())
    ensures reader.fieldCurrent > i ||
            (reader.fieldCurrent == i && Missing(row, i, reader.Cur().Done()) < Missing(row, i, done))
  {
    hide SoFar;
    if reader.field == None {
      NextNull(row, i);
      now := fields + [None];
    } else {
      var p := reader.field.value;
      var data := reader.con.buffer[p..p + reader.fieldSize];
      NextData(row, i, done, data);
      SoFarSize(row, i, done);
      if reader.fieldOffset == 0 {
        now := fields + [Some(data)];
      } else {
        now := fields[..|fields| - 1] + [Some(fields[|fields| - 1].value + data)];
      }
    }
  }

  lemma SoFarSize(row: seq<Field>, i: nat, done: nat)
    requires Place(row, i, done)
    ensures done > 0 ==> |SoFar(row, i, done)| == i + 1 && SoFar(row, i, done)[i].Some?
  {
  }

  /** A caller reads a row piece by piece, waits for the socket whenever told to, and
      puts the pieces together.  However the network delivers the packet, the row
      comes out as it was sent, and ROW_END comes behind its last field. */
  method ReadPieces(reader: FieldReader, ghost row: seq<Field>, ghost rest: seq<byte>)
    returns (ret: Ret, fields: seq<Field>)
    requires reader.Reading(row, rest) && reader.con.stack == [] && reader.fieldCurrent == 0 && !reader.Cur().Inside()
    modifies reader, reader.con, reader.con.buffer, reader.con.socket
    ensures ret == RowEnd ==> fields == row && reader.con.Valid() && reader.con.Unread() == rest
    ensures ret == RowEnd || (SocketFailure(ret) && reader.con.Cut())
  {
    hide Connection.Window, At, Allocation, SoFar, FieldReader.Handed, Missing, RowFits;
    hide Socket.Left, Connection.Cut;
    var con := reader.con;
    fields := [];
    NothingYet(row);
    while true
      invariant con.Valid() && (con.buffer == old(con.buffer) || fresh(con.buffer))
      invariant reader.Reading(row, rest) && reader.Resumable(row) && Place(row, reader.fieldCurrent, reader.Cur().Done())
      invariant fields == SoFar(row, reader.fieldCurrent, reader.Cur().Done())
      decreases |row| - reader.fieldCurrent, Missing(row, reader.fieldCurrent, reader.Cur().Done()),
        con.socket.Left(), if con.readable then 0 else 1
    {
      ghost var i, done := reader.fieldCurrent, reader.Cur().Done();
      AtPlace(row, rest, reader.Cur(), con.Window(), con.socket.incoming, con.packetSize);
      ret := reader.ReadField(row, rest);
      if ret == IoWait {
        con.readable := true;
      } else if ret == RowEnd {
        AllRead(row, rest, reader.Cur(), con.Window(), con.socket.incoming, con.packetSize);
        return;
      } else if ret != Ok {
        return;
      } else {
        fields := AddPiece(reader, fields, row, i, done);
      }
    }
  }

  lemma NothingYet(row: seq<Field>)
    ensures SoFar(row, 0, 0) == []
  {
  }

  lemma AllRead(row: seq<Field>, rest: seq<byte>, c: Cursor, window: seq<byte>, incoming: seq<byte>, size: nat)
    requires At(row, rest, c, window, incoming, size) && c.current == |row| && !c.Inside()
    ensures window + incoming == rest
    ensures SoFar(row, |row|, 0) == row
  {
    assert [] + rest == rest && row[..|row|] == row && row[|row|..] == [];
  }
}
