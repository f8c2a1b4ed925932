/** Binary rows: the NULL bitmap and the values behind it
    (drizzle_state_binary_null_read, drizzle_state_binary_field_read and the
    binary part of drizzle_field_read in src/field.cc), and drizzle_stmt_fetch of
    src/statement.cc, which maps the values back to columns. */
module BinaryRows {
  import opened Bytes
  import opened Pack
  import opened StateStack
  import opened Connection
  import opened Bitmaps
  import opened Rows

  datatype ColumnType =
    | NullType | Tiny | Short | Year | Int24 | Long | Float | Longlong | Double
    | Time | Date | Datetime | Timestamp
    | TinyBlob | MediumBlob | LongBlob | Blob | BitType | String | VarString | Decimal | NewDecimal | NewDate
    | Varchar | Enum | SetType | Geometry | Timestamp2 | Datetime2 | Time2

  /** How a value of a column type travels. */
  datatype Width = Fixed(n: nat) | Counted | Unreadable

  function WidthOf(t: ColumnType): Width {
    match t
    case Tiny => Fixed(1)
    case Short => Fixed(2)
    case Year => Fixed(2)
    case Int24 => Fixed(4)
    case Long => Fixed(4)
    case Float => Fixed(4)
    case Longlong => Fixed(8)
    case Double => Fixed(8)
    case NullType => Unreadable
    case Varchar => Unreadable
    case Enum => Unreadable
    case SetType => Unreadable
    case Geometry => Unreadable
    case Timestamp2 => Unreadable
    case Datetime2 => Unreadable
    case Time2 => Unreadable
    case _ => Counted
  }

  predicate ValueFits(t: ColumnType, v: seq<byte>) {
    match WidthOf(t)
    case Fixed(n) => |v| == n
    case Counted => |v| < 0x100_0000
    case Unreadable => false
  }

  function ValueBytes(t: ColumnType, v: seq<byte>): seq<byte> {
    if WidthOf(t).Counted? then BinaryBytes(v) else v
  }

  predicate RowFitsTypes(types: seq<ColumnType>, row: seq<Field>) {
    |types| == |row| &&
    forall c :: 0 <= c < |row| && row[c].Some? && !WidthOf(types[c]).Unreadable? ==> ValueFits(types[c], row[c].value)
  }

  /** The values on the wire from column c on: those that are not NULL. */
  function Values(types: seq<ColumnType>, row: seq<Field>, c: nat): seq<byte>
    requires |types| == |row| && c <= |row|
    decreases |row| - c
  {
    if c == |row| then []
    else (if row[c].Some? then ValueBytes(types[c], row[c].value) else []) + Values(types, row, c + 1)
  }

  function BitmapLength(columns: nat): nat {
    (columns + 9) / 8
  }

  /** A bit for each column behind the two that are not used, in the fewest bytes. */
  lemma SmallestBitmap(columns: nat)
    ensures columns + 2 <= 8 * BitmapLength(columns) < columns + 10
  {
  }

  /** The bit of column c, two bits into the bitmap. */
  predicate NullBit(bitmap: seq<Octet>, c: nat)
    requires c + 2 < 8 * |bitmap|
  {
    BitAt(bitmap, c + 2)
  }

  /** The bitmap marks exactly the NULL columns. */
  predicate Marks(bitmap: seq<Octet>, row: seq<Field>) {
    |bitmap| == BitmapLength(|row|) && forall c :: 0 <= c < |row| ==> (NullBit(bitmap, c) <==> row[c].None?)
  }

  /** The two leading bits and the padding bits are zero. */
  predicate NoStrayBits(bitmap: seq<Octet>, columns: nat)
    requires |bitmap| == BitmapLength(columns)
  {
    (forall j :: 0 <= j < 2 ==> !BitAt(bitmap, j)) &&
    (forall j :: columns + 2 <= j < 8 * |bitmap| ==> !BitAt(bitmap, j))
  }

  /** The number of values in the first c columns. */
  function NonNull(row: seq<Field>, c: nat): nat
    requires c <= |row|
  {
    if c == 0 then 0 else NonNull(row, c - 1) + One(row[c - 1].Some?)
  }

  /** The values of the first c columns, NULLs left out. */
  function Compressed(row: seq<Field>, c: nat): (s: seq<seq<byte>>)
    requires c <= |row|
    ensures |s| == NonNull(row, c)
  {
    if c == 0 then []
    else Compressed(row, c - 1) + (if row[c - 1].Some? then [row[c - 1].value] else [])
  }

  lemma {:induction false} CountNulls(bitmap: seq<Octet>, row: seq<Field>, c: nat)
    requires Marks(bitmap, row) && c <= |row|
    ensures CountBits(bitmap, c + 2) - CountBits(bitmap, 2) == c - NonNull(row, c)
  {
    hide BitAt;
    if c > 0 {
      CountNulls(bitmap, row, c - 1);
      assert NullBit(bitmap, c - 1) <==> row[c - 1].None?;
    }
  }

  /** null_bitcount, the number of bits set in the whole bitmap, is the number of
      NULL columns exactly when no stray bit is set. */
  lemma BitcountIsNullCount(bitmap: seq<Octet>, row: seq<Field>)
    requires Marks(bitmap, row)
    ensures CountBits(bitmap, 8 * |bitmap|) == |row| - NonNull(row, |row|) <==> NoStrayBits(bitmap, |row|)
  {
    hide BitAt;
    CountNulls(bitmap, row, |row|);
    CountGrows(bitmap, 0, 2);
    CountGrows(bitmap, |row| + 2, 8 * |bitmap|);
    CountNone(bitmap);
  }

  /** A row of one value under a bitmap whose first bit is set: it counts as NULL, and
      the row is over before its value. */
  lemma StrayBitMiscounts(v: seq<byte>)
    ensures var bitmap: seq<Octet>, row := [1], [Some(v)];
      Marks(bitmap, row) && !NoStrayBits(bitmap, 1) && CountBits(bitmap, 8) == 1 == |row| && NonNull(row, 1) == 1
  {
    var bitmap: seq<Octet>, row := [1], [Some(v)];
    assert BitAt(bitmap, 0) && !BitAt(bitmap, 2);
    assert NonNull(row, 1) == NonNull(row, 0) + One(row[0].Some?);
    CountGrows(bitmap, 1, 8);
    assert CountBits(bitmap, 1) == CountBits(bitmap, 0) + One(BitAt(bitmap, 0));
  }

  /** While not every value has been read, there is a next one. */
  lemma {:induction false} NextValue(row: seq<Field>, c: nat) returns (next: nat)
    requires c <= |row| && NonNull(row, c) < NonNull(row, |row|)
    ensures c <= next < |row| && row[next].Some? && (forall d :: c <= d < next ==> row[d].None?)
    ensures NonNull(row, next) == NonNull(row, c)
    decreases |row| - c
  {
    if row[c].Some? {
      next := c;
    } else {
      next := NextValue(row, c + 1);
    }
  }

  lemma {:induction false} SkipNulls(types: seq<ColumnType>, row: seq<Field>, c: nat, next: nat)
    requires |types| == |row| && c <= next <= |row| && forall d :: c <= d < next ==> row[d].None?
    ensures Values(types, row, c) == Values(types, row, next)
    ensures Compressed(row, next) == Compressed(row, c)
    decreases next - c
  {
    if c < next {
      SkipNulls(types, row, c + 1, next);
    }
  }

  lemma {:induction false} NonNullGrows(row: seq<Field>, c: nat, d: nat)
    requires c <= d <= |row|
    ensures NonNull(row, c) <= NonNull(row, d)
    ensures NonNull(row, c) == NonNull(row, d) ==> forall e :: c <= e < d ==> row[e].None?
    decreases d
  {
    if c < d {
      NonNullGrows(row, c, d - 1);
    }
  }

  /** A value at the front of the packet. */
  lemma ValueAhead(t: ColumnType, v: seq<byte>, more: seq<byte>, left: seq<byte>)
    requires ValueFits(t, v) && left == ValueBytes(t, v) + more
    ensures WidthOf(t).Fixed? ==> |v| <= |left| && left[..|v|] == v && left[|v|..] == more
    ensures WidthOf(t).Counted? ==>
      left != [] && DecodeLength(left) == Length(|v|, |LengthBytes(|v|)|) &&
      var behind := left[|LengthBytes(|v|)|..]; |v| <= |behind| && behind[..|v|] == v && behind[|v|..] == more
  {
    if WidthOf(t).Counted? {
      Regroup(LengthBytes(|v|), v, more);
      LengthRoundTrip(|v|, v + more);
      assert left[|LengthBytes(|v|)|..] == v + more;
    }
  }

  /** The result struct while binary rows are read. */
  class BinaryReader {
    const con: Connection
    const types: seq<ColumnType>
    var nullBitmap: array<Octet>
    var nullBitcount: nat
    var fieldCurrent: nat
    var fieldCurrentRead: nat
    var fieldSize: nat
    /** The pointer `field` into the connection's buffer. */
    var field: nat

    constructor (con: Connection, types: seq<ColumnType>)
      ensures this.con == con && this.types == types && fieldCurrent == fieldCurrentRead == 0
    {
      this.con := con;
      this.types := types;
      nullBitmap := new Octet[0];
      nullBitcount, fieldCurrent, fieldCurrentRead, fieldSize, field := 0, 0, 0, 0, 0;
    }

    /** What is left of the packet; all of it is in the buffer. */
    ghost function Left(): (s: seq<byte>)
      reads con`buffer, con`bufferPtr, con`bufferSize, con`packetSize, con.buffer
      requires con.Valid() && con.packetSize <= con.bufferSize
      ensures |s| == con.packetSize
    {
      con.Window()[..con.packetSize]
    }

    /** Takes k bytes of the packet. */
    method Take(k: nat)
      requires con.Valid() && k <= con.packetSize <= con.bufferSize
      modifies con`bufferPtr, con`bufferSize, con`packetSize
      ensures con.Valid() && con.packetSize <= con.bufferSize && Left() == old(Left())[k..]
      ensures con.Window()[con.packetSize..] == old(con.Window()[con.packetSize..])
      ensures old(con.bufferPtr) + k <= con.buffer.Length
      ensures con.buffer[old(con.bufferPtr)..old(con.bufferPtr) + k] == old(Left())[..k]
    {
      hide Connection.Window;
      ghost var window, size := con.Window(), con.packetSize;
      SplitWindow(window, size, k);
      con.TakeField(k);
    }

    /** The end of drizzle_state_binary_field_read. */
    method TakeValue()
      requires con.Valid() && fieldSize <= con.packetSize <= con.bufferSize && con.stack == [BinaryFieldRead]
      modifies this`fieldCurrent, this`fieldCurrentRead, this`field
      modifies con`stack, con`bufferPtr, con`bufferSize, con`packetSize
      ensures con.Valid() && con.packetSize <= con.bufferSize && con.stack == []
      ensures fieldCurrent == old(fieldCurrent) + 1 && fieldCurrentRead == old(fieldCurrentRead) + 1
      ensures field + fieldSize <= con.buffer.Length
      ensures con.buffer[field..field + fieldSize] == old(Left())[..fieldSize]
      ensures Left() == old(Left())[fieldSize..]
      ensures con.Window()[con.packetSize..] == old(con.Window()[con.packetSize..])
    {
      hide Connection.Window, Left;
      field := con.bufferPtr;
      Take(fieldSize);
      fieldCurrent := fieldCurrent + 1;
      fieldCurrentRead := fieldCurrentRead + 1;
      con.stack := con.stack[1..];
    }

    /** drizzle_unpack_length on a packet that is all there. */
    method TakeLength() returns (r: Unpacked)
      requires con.Valid() && 0 < con.packetSize <= con.bufferSize
      requires DecodeLength(con.Window()).Length? ==> DecodeLength(con.Window()).used <= con.packetSize
      modifies con`bufferPtr, con`bufferSize, con`packetSize
      ensures con.Valid() && con.packetSize <= con.bufferSize && r == DecodeLength(old(con.Window()))
      ensures var taken := match r { case Length(_, used) => used case NullSize => 1 case Wait => 0 };
        Left() == old(Left())[taken..]
      ensures con.Window()[con.packetSize..] == old(con.Window()[con.packetSize..])
    {
      hide Connection.Window, DecodeLength;
      ghost var window, size := con.Window(), con.packetSize;
      r := con.UnpackLength();
      SplitWindow(window, size, match r { case Length(_, used) => used case NullSize => 1 case Wait => 0 });
    }

    /** memcpy of the bitmap out of the connection's buffer. */
    method CopyBitmap(length: nat)
      requires con.Valid() && length <= con.bufferSize
      modifies this`nullBitmap
      ensures fresh(nullBitmap) && nullBitmap[..] == OctetsOf(con.Window()[..length])
    {
      hide Bits;
      nullBitmap := new Octet[length];
      forall k | 0 <= k < length {
        nullBitmap[k] := Bits(con.Get(k));
      }
    }

    /** drizzle_state_binary_null_read. */
    method StateNullRead()
      requires con.Valid() && con.stack == [BinaryNullRead]
      requires 1 + BitmapLength(|types|) <= con.packetSize <= con.bufferSize
      modifies this`nullBitmap, this`nullBitcount
      modifies con`stack, con`bufferPtr, con`bufferSize, con`packetSize
      ensures con.Valid() && con.packetSize <= con.bufferSize && con.stack == []
      ensures var n := BitmapLength(|types|);
        && fresh(nullBitmap) && nullBitmap[..] == OctetsOf(old(Left())[1..1 + n])
        && Left() == old(Left())[1 + n..]
        && nullBitcount == CountBits(nullBitmap[..], 8 * n)
      ensures con.Window()[con.packetSize..] == old(con.Window()[con.packetSize..])
    {
      hide CountBits, Bits, OctetsOf, Connection.Window;
      var length := BitmapLength(|types|);
      ghost var left := Left();
      Take(1);
      CopyBitmap(length);
      PrefixOfPrefix(con.Window(), con.packetSize, length);
      SliceOfTail(left, 1, length);
      nullBitcount := CountSetBits(nullBitmap[..]);
      Take(length);
      con.stack := con.stack[1..];
    }

    /** Where the value of a column ends in the packet, if its length is all there. */
    ghost predicate ValueInPacket(t: ColumnType)
      reads con`buffer, con`bufferPtr, con`bufferSize, con`packetSize, con.buffer
      requires con.Valid() && con.packetSize <= con.bufferSize
    {
      match WidthOf(t)
      case Unreadable => true
      case Fixed(n) => n <= con.packetSize
      case Counted =>
        con.packetSize > 0 &&
        match DecodeLength(con.Window())
        case Length(n, used) => used + n <= con.packetSize
        case _ => true
    }

    /** The loop of drizzle_state_binary_field_read. */
    method SkipNullColumns(ghost next: nat)
      requires nullBitmap.Length == BitmapLength(|types|) && fieldCurrentRead <= next < |types|
      requires !NullBit(nullBitmap[..], next) && forall c :: fieldCurrentRead <= c < next ==> NullBit(nullBitmap[..], c)
      modifies this`fieldCurrentRead
      ensures fieldCurrentRead == next
    {
      hide BitAt;
      while NullBit(nullBitmap[..], fieldCurrentRead)
        invariant fieldCurrentRead <= next
        decreases next - fieldCurrentRead
      {
        fieldCurrentRead := fieldCurrentRead + 1;
      }
    }

    /** drizzle_state_binary_field_read: NULL columns are skipped, the value of column
        `next` is taken.  A length that is cut makes it wait, although nothing more of
        the packet is to come; the null marker in its place is a failure. */
    method StateFieldRead(ghost next: nat) returns (ret: Ret)
      requires con.Valid() && con.stack == [BinaryFieldRead] && con.packetSize <= con.bufferSize
      requires nullBitmap.Length == BitmapLength(|types|) && fieldCurrentRead <= next < |types|
      requires !NullBit(nullBitmap[..], next) && forall c :: fieldCurrentRead <= c < next ==> NullBit(nullBitmap[..], c)
      requires ValueInPacket(types[next])
      modifies this`fieldCurrent, this`fieldCurrentRead, this`fieldSize, this`field
      modifies con`stack, con`bufferPtr, con`bufferSize, con`packetSize
      ensures con.Valid() && con.packetSize <= con.bufferSize
      ensures con.Window()[con.packetSize..] == old(con.Window()[con.packetSize..])
      ensures ret != Ok ==>
        con.stack == old(con.stack) && fieldCurrent == old(fieldCurrent) && fieldCurrentRead == next
      ensures match WidthOf(types[next])
        case Unreadable => ret == UnexpectedData && Left() == old(Left())
        case Fixed(n) => ret == Ok && Took(next, old(fieldCurrent), old(Left()), 0, n)
        case Counted =>
          match DecodeLength(old(con.Window()))
          case Wait => ret == IoWait && Left() == old(Left())
          case NullSize => ret == NullLength && Left() == old(Left())[1..]
          case Length(n, used) => ret == Ok && Took(next, old(fieldCurrent), old(Left()), used, n)
      ensures ret == IoWait || ret == NullLength ==> fieldSize == 0
    {
      hide BitAt, NullBit, DecodeLength, LengthBytes, Connection.Window, Left, Took;
      SkipNullColumns(next);
      ghost var left, taken := Left(), 0;
      match WidthOf(types[fieldCurrentRead]) {
        case Unreadable =>
          return UnexpectedData;
        case Fixed(n) =>
          fieldSize := n;
        case Counted =>
          var r := TakeLength();
          match r {
            case Wait =>
              fieldSize := 0;
              return IoWait;
            case NullSize =>
              fieldSize := 0;
              return NullLength;
            case Length(n, used) =>
              fieldSize := n;
              taken := used;
          }
      }
      FinishValue(left, taken);
      return Ok;
    }

    /** The end of drizzle_state_binary_field_read, behind the length. */
    method FinishValue(ghost left: seq<byte>, ghost used: nat)
      requires con.Valid() && fieldSize <= con.packetSize <= con.bufferSize && con.stack == [BinaryFieldRead]
      requires used <= |left| && Left() == left[used..]
      modifies this`fieldCurrent, this`fieldCurrentRead, this`field
      modifies con`stack, con`bufferPtr, con`bufferSize, con`packetSize
      ensures con.Valid() && con.packetSize <= con.bufferSize
      ensures Took(old(fieldCurrentRead), old(fieldCurrent), left, used, fieldSize)
      ensures con.Window()[con.packetSize..] == old(con.Window()[con.packetSize..])
    {
      hide Connection.Window, Left;
      SliceOfTail(left, used, fieldSize);
      TakeValue();
    }

    /** The value of column `next` has been taken: n bytes behind its length. */
    ghost predicate Took(next: nat, current: nat, left: seq<byte>, used: nat, n: nat)
      reads this`fieldCurrent, this`fieldCurrentRead, this`fieldSize, this`field
      reads con`stack, con`buffer, con`bufferPtr, con`bufferSize, con`packetSize, con.buffer
    {
      && con.Valid() && con.packetSize <= con.bufferSize && con.stack == []
      && fieldCurrent == current + 1 && fieldCurrentRead == next + 1
      && fieldSize == n && field + n <= con.buffer.Length && used + n <= |left|
      && con.buffer[field..field + n] == left[used..used + n] && Left() == left[used + n..]
    }

    /** A value the server packed is all there. */
    lemma ValueIsThere(t: ColumnType, v: seq<byte>, more: seq<byte>)
      requires con.Valid() && con.packetSize <= con.bufferSize
      requires !WidthOf(t).Unreadable? ==> ValueFits(t, v) && Left() == ValueBytes(t, v) + more
      ensures ValueInPacket(t)
      ensures var left := Left();
        match WidthOf(t)
        case Unreadable => true
        case Fixed(n) => n == |v| && |v| <= |left| && left[0..0 + n] == v && left[0 + n..] == more
        case Counted =>
          var used := |LengthBytes(|v|)|;
          && DecodeLength(con.Window()) == Length(|v|, used)
          && used + |v| <= |left| && left[used..used + |v|] == v && left[used + |v|..] == more
    {
      hide DecodeLength, LengthBytes, Connection.Window;
      if !WidthOf(t).Unreadable? {
        ValueAhead(t, v, more, Left());
      }
      if WidthOf(t).Counted? {
        var left, used := Left(), |LengthBytes(|v|)|;
        LengthInPacket(con.Window(), con.packetSize);
        SliceOfTail(left, used, |v|);
      }
    }

    /** The same for a value the server packed. */
    method TakeField(ghost next: nat, ghost v: seq<byte>, ghost more: seq<byte>) returns (ret: Ret)
      requires con.Valid() && con.stack == [BinaryFieldRead] && con.packetSize <= con.bufferSize
      requires nullBitmap.Length == BitmapLength(|types|) && fieldCurrentRead <= next < |types|
      requires !NullBit(nullBitmap[..], next) && forall c :: fieldCurrentRead <= c < next ==> NullBit(nullBitmap[..], c)
      requires !WidthOf(types[next]).Unreadable? ==>
        ValueFits(types[next], v) && Left() == ValueBytes(types[next], v) + more
      modifies this`fieldCurrent, this`fieldCurrentRead, this`fieldSize, this`field
      modifies con`stack, con`bufferPtr, con`bufferSize, con`packetSize
      ensures con.Valid() && con.packetSize <= con.bufferSize
      ensures WidthOf(types[next]).Unreadable? ==> ret == UnexpectedData && fieldCurrent == old(fieldCurrent)
      ensures !WidthOf(types[next]).Unreadable? ==>
        ret == Ok && con.stack == [] && fieldCurrent == old(fieldCurrent) + 1 && fieldCurrentRead == next + 1 &&
        fieldSize == |v| && field + fieldSize <= con.buffer.Length &&
        con.buffer[field..field + fieldSize] == v && Left() == more &&
        con.Window()[con.packetSize..] == old(con.Window()[con.packetSize..])
    {
      hide BitAt, DecodeLength, LengthBytes, Connection.Window, Left, ValueBytes, ValueFits, ValueInPacket;
      ValueIsThere(types[next], v, more);
      ret := StateFieldRead(next);
    }

    /** The reader stands in front of column fieldCurrentRead of a row. */
    ghost predicate InRow(bitmap: seq<Octet>, row: seq<Field>)
      reads this`nullBitmap, this`nullBitcount, this`fieldCurrent, this`fieldCurrentRead, nullBitmap
      reads con`buffer, con`bufferPtr, con`bufferSize, con`packetSize, con.buffer
    {
      && con.Valid() && con.packetSize <= con.bufferSize
      && RowFitsTypes(types, row) && Marks(bitmap, row) && NoStrayBits(bitmap, |row|)
      && nullBitmap[..] == bitmap && nullBitcount == |row| - NonNull(row, |row|)
      && fieldCurrentRead <= |row| && fieldCurrent == NonNull(row, fieldCurrentRead)
      && Left() == Values(types, row, fieldCurrentRead)
    }

    /** The reader stands in front of the packet of a row. */
    ghost predicate BeforeRow(bitmap: seq<Octet>, row: seq<Field>)
      reads this`fieldCurrent, this`fieldCurrentRead
      reads con`buffer, con`bufferPtr, con`bufferSize, con`packetSize, con.buffer
    {
      && con.Valid() && con.packetSize <= con.bufferSize
      && RowFitsTypes(types, row) && Marks(bitmap, row) && NoStrayBits(bitmap, |row|)
      && fieldCurrent == fieldCurrentRead == 0
      && Left() == [0] + WireOf(bitmap) + Values(types, row, 0)
    }

    /** The bitmap of a row is read. */
    method ReadBitmap(ghost bitmap: seq<Octet>, ghost row: seq<Field>)
      requires BeforeRow(bitmap, row) && con.stack == []
      modifies this`nullBitmap, this`nullBitcount
      modifies con`stack, con`bufferPtr, con`bufferSize, con`packetSize
      ensures InRow(bitmap, row) && con.stack == [] && fresh(nullBitmap)
      ensures con.Window()[con.packetSize..] == old(con.Window()[con.packetSize..])
    {
      hide Connection.Window, Left, WidthOf, BitAt, Values, Compressed, CountBits, OctetsOf, WireOf, Bits, ValueFits;
      ghost var values := Values(types, row, 0);
      BitmapAhead(Left(), bitmap, values);
      assert BitmapLength(|types|) == |bitmap|;
      con.stack := [BinaryNullRead] + con.stack;
      StateNullRead();
      BitcountIsNullCount(bitmap, row);
    }

    /** The part of drizzle_field_read behind the test for the end of the row. */
    method ReadValue(ghost bitmap: seq<Octet>, ghost row: seq<Field>) returns (ret: Ret, ghost next: nat)
      requires con.stack == [] && InRow(bitmap, row) && fieldCurrent < NonNull(row, |row|)
      modifies this`fieldCurrent, this`fieldCurrentRead, this`fieldSize, this`field
      modifies con`stack, con`bufferPtr, con`bufferSize, con`packetSize
      ensures con.Valid() && (ret.Ok? || ret.UnexpectedData?)
      ensures old(fieldCurrentRead) <= next < |row| && row[next].Some?
      ensures forall c :: old(fieldCurrentRead) <= c < next ==> row[c].None?
      ensures ret == Ok <==> !WidthOf(types[next]).Unreadable?
      ensures ret == Ok ==>
        InRow(bitmap, row) && con.stack == [] && fieldCurrentRead == next + 1 &&
        fieldSize == |row[next].value| && field + fieldSize <= con.buffer.Length &&
        con.buffer[field..field + fieldSize] == row[next].value
      ensures ret.Ok? ==> con.Window()[con.packetSize..] == old(con.Window()[con.packetSize..])
    {
      hide Connection.Window, Left, WidthOf, BitAt, Values, Compressed, ValueFits, ValueBytes, NonNull;
      con.stack := [BinaryFieldRead] + con.stack;
      next := NextValue(row, fieldCurrentRead);
      SkipNulls(types, row, fieldCurrentRead, next);
      ValuesStep(types, row, next);
      assert forall c :: fieldCurrentRead <= c <= next ==> (NullBit(bitmap, c) <==> row[c].None?);
      ret := TakeField(next, row[next].value, Values(types, row, next + 1));
    }

    /** drizzle_field_read on binary rows: the values of the columns that are not
        NULL, in order, then RowEnd.  `next` is the column the value belongs to. */
    method ReadField(ghost bitmap: seq<Octet>, ghost row: seq<Field>) returns (ret: Ret, ghost next: nat)
      requires con.stack == []
      requires if fieldCurrent == 0 then BeforeRow(bitmap, row) else InRow(bitmap, row)
      modifies this`nullBitmap, this`nullBitcount, this`fieldCurrent, this`fieldCurrentRead, this`fieldSize, this`field
      modifies con`stack, con`bufferPtr, con`bufferSize, con`packetSize
      ensures con.Valid() && (nullBitmap == old(nullBitmap) || fresh(nullBitmap))
      ensures ret.Ok? || ret.RowEnd? || ret.UnexpectedData?
      ensures ret == RowEnd <==> old(fieldCurrent) == NonNull(row, |row|)
      ensures ret == RowEnd ==> InRow(bitmap, row) && con.stack == [] && fieldCurrentRead == old(fieldCurrentRead)
      ensures ret != RowEnd ==>
        old(fieldCurrentRead) <= next < |row| && row[next].Some? &&
        (forall c :: old(fieldCurrentRead) <= c < next ==> row[c].None?) &&
        (ret == Ok <==> !WidthOf(types[next]).Unreadable?)
      ensures ret == Ok ==>
        InRow(bitmap, row) && con.stack == [] && fieldCurrentRead == next + 1 &&
        fieldSize == |row[next].value| && field + fieldSize <= con.buffer.Length &&
        con.buffer[field..field + fieldSize] == row[next].value
      ensures ret.Ok? || ret.RowEnd? ==> con.Window()[con.packetSize..] == old(con.Window()[con.packetSize..])
    {
      hide Connection.Window, Left, WidthOf, BitAt, Values, Compressed, ValueFits, ValueBytes, NonNull;
      next := 0;
      NoValues(row);
      if fieldCurrent == 0 {
        ReadBitmap(bitmap, row);
      }
      if fieldCurrent == |types| - nullBitcount {
        return RowEnd, next;
      }
      NonNullGrows(row, fieldCurrentRead, |row|);
      ret, next := ReadValue(bitmap, row);
    }

    /** The values of a row, one after another, as drizzle_row_buffer gathers them. */
    method ReadValues(ghost bitmap: seq<Octet>, ghost row: seq<Field>) returns (ret: Ret, values: seq<seq<byte>>)
      requires con.stack == [] && BeforeRow(bitmap, row)
      modifies this`nullBitmap, this`nullBitcount, this`fieldCurrent, this`fieldCurrentRead, this`fieldSize, this`field
      modifies con`stack, con`bufferPtr, con`bufferSize, con`packetSize
      ensures con.Valid() && (ret == Ok || ret == UnexpectedData)
      ensures ret == Ok ==>
        values == Compressed(row, |row|) && nullBitmap[..] == bitmap && con.packetSize == 0 && con.stack == [] &&
        con.Window() == old(con.Window()[con.packetSize..])
      ensures ret == UnexpectedData <==> exists c :: 0 <= c < |row| && row[c].Some? && WidthOf(types[c]).Unreadable?
    {
      hide Connection.Window, Left, WidthOf, BitAt, ValueFits, Values, NonNull, Compressed;
      values := [];
      NoValues(row);
      ghost var next;
      while true
        invariant |types| == |row| && fieldCurrentRead <= |row| && fieldCurrent == NonNull(row, fieldCurrentRead)
        invariant con.stack == [] && values == Compressed(row, fieldCurrentRead)
        invariant if fieldCurrent == 0 then BeforeRow(bitmap, row) else InRow(bitmap, row)
        invariant nullBitmap == old(nullBitmap) || fresh(nullBitmap)
        invariant con.Window()[con.packetSize..] == old(con.Window()[con.packetSize..])
        invariant forall c :: 0 <= c < fieldCurrentRead && row[c].Some? ==> !WidthOf(types[c]).Unreadable?
        decreases |row| - fieldCurrentRead
      {
        ghost var c := fieldCurrentRead;
        ret, next := ReadField(bitmap, row);
        if ret == RowEnd {
          NonNullGrows(row, c, |row|);
          SkipNulls(types, row, c, |row|);
          ValuesStep(types, row, |row|);
          assert Left() == [] && con.Window()[0..] == con.Window();
          break;
        }
        if ret != Ok {
          return;
        }
        SkipNulls(types, row, c, next);
        values := values + [con.buffer[field..field + fieldSize]];
        AddValue(row, next);
      }
      ret := Ok;
    }
  }

  lemma BitmapAhead(left: seq<byte>, bitmap: seq<Octet>, values: seq<byte>)
    requires left == [0] + WireOf(bitmap) + values
    ensures |left| >= 1 + |bitmap|
    ensures OctetsOf(left[1..1 + |bitmap|]) == bitmap && left[1 + |bitmap|..] == values
  {
    hide OctetsOf, WireOf;
    assert left[1..1 + |bitmap|] == WireOf(bitmap);
    OctetsOfWire(bitmap);
  }

  lemma ValuesStep(types: seq<ColumnType>, row: seq<Field>, c: nat)
    requires |types| == |row| && c <= |row|
    ensures c == |row| ==> Values(types, row, c) == []
    ensures c < |row| && row[c].Some? ==>
      Values(types, row, c) == ValueBytes(types[c], row[c].value) + Values(types, row, c + 1) &&
      NonNull(row, c + 1) == NonNull(row, c) + 1
  {
    hide ValueBytes;
  }

  lemma NoValues(row: seq<Field>)
    ensures NonNull(row, 0) == 0 && Compressed(row, 0) == []
  {
  }

  lemma AddValue(row: seq<Field>, c: nat)
    requires c < |row| && row[c].Some?
    ensures Compressed(row, c + 1) == Compressed(row, c) + [row[c].value]
    ensures NonNull(row, c + 1) == NonNull(row, c) + 1
  {
  }

  lemma PrefixOfPrefix(window: seq<byte>, size: nat, k: nat)
    requires k <= size <= |window|
    ensures window[..size][..k] == window[..k]
  {
  }

  lemma SplitWindow(window: seq<byte>, size: nat, k: nat)
    requires k <= size <= |window|
    ensures window[k..][..size - k] == window[..size][k..]
    ensures window[k..][size - k..] == window[size..]
    ensures window[..k] == window[..size][..k]
  {
  }

  /** A length decoded inside the packet is decoded the same in the whole window. */
  lemma LengthInPacket(window: seq<byte>, size: nat)
    requires 0 < size <= |window| && DecodeLength(window[..size]).Length?
    ensures DecodeLength(window) == DecodeLength(window[..size])
  {
    hide DecodeLength;
    MoreBytesSameLength(window[..size], window[size..]);
    assert window[..size] + window[size..] == window;
  }
}
