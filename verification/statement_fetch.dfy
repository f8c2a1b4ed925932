/** drizzle_stmt_fetch of src/statement.cc: the values of a binary row, from which
    the NULLs are left out, are mapped back to the columns. */
module StatementFetch {
  import opened Bytes
  import opened StateStack
  import opened Bitmaps
  import opened Connection
  import opened Rows
  import opened BinaryRows

  /** What a result parameter points at: what it pointed at before, a C integer,
      the raw bytes of a float or a string, or the bytes that
      drizzle_unpack_time and drizzle_unpack_datetime take apart. */
  datatype BindValue = Unset | Number(n: nat) | Raw(bytes: seq<byte>) | Temporal(bytes: seq<byte>)

  datatype Bind = Bind(kind: ColumnType, isNull: bool, isUnsigned: bool, length: nat, data: BindValue)

  datatype Column = Column(kind: ColumnType, isUnsigned: bool)

  function TypesOf(columns: seq<Column>): (types: seq<ColumnType>)
    ensures |types| == |columns|
    ensures forall c :: 0 <= c < |columns| ==> types[c] == columns[c].kind
  {
    seq(|columns|, c requires 0 <= c < |columns| => columns[c].kind)
  }

  /** The value of a column as its type presents it; a type that is not handled
      leaves the parameter's data alone. */
  function Presented(t: ColumnType, v: seq<byte>, before: BindValue): BindValue
    requires !WidthOf(t).Unreadable? ==> ValueFits(t, v)
  {
    match t
    case Float => Raw(v)
    case Double => Raw(v)
    case Time => Temporal(v)
    case Date => Temporal(v)
    case Datetime => Temporal(v)
    case Timestamp => Temporal(v)
    case _ =>
      match WidthOf(t)
      case Fixed(n) => Number(LeValue(v))
      case Counted => Raw(v)
      case Unreadable => before
  }

  /** A column's parameter after a fetch that handles its type. */
  function Fetched(before: Bind, column: Column, f: Field): Bind
    requires f.Some? && !WidthOf(column.kind).Unreadable? ==> ValueFits(column.kind, f.value)
  {
    match f
    case None => before.(isNull := true, length := 0, kind := NullType)
    case Some(v) =>
      Bind(column.kind, false, before.isUnsigned || column.isUnsigned,
           if column.kind.NullType? then 0 else |v|,
           Presented(column.kind, v, before.data))
  }

  predicate Unsupported(column: Column, f: Field) {
    f.Some? && WidthOf(column.kind).Unreadable? && !column.kind.NullType?
  }

  /** A number that fits the width of its column comes out as it was sent. */
  lemma NumbersArrive(before: Bind, column: Column, n: nat)
    requires column.kind in {Tiny, Short, Year, Int24, Long, Longlong} && n < Span(WidthOf(column.kind).n)
    ensures Fetched(before, column, Some(Le(n, WidthOf(column.kind).n))).data == Number(n)
  {
    LeRoundTrip(n, WidthOf(column.kind).n);
  }

  const INTEGERS: set<ColumnType> := {Tiny, Short, Year, Int24, Long, Longlong}

  /** The types whose bytes arrive as they are. */
  const COPIED: set<ColumnType> :=
    {Float, Double, TinyBlob, MediumBlob, LongBlob, Blob, BitType, String, VarString, Decimal, NewDecimal, NewDate}

  const TEMPORALS: set<ColumnType> := {Time, Date, Datetime, Timestamp}

  /** The types the switch has no case for. */
  const REFUSED: set<ColumnType> := {Varchar, Enum, SetType, Geometry, Timestamp2, Datetime2, Time2}

  /** A parameter holds the value v of a column. */
  predicate HoldsValue(p: Bind, t: ColumnType, v: seq<byte>) {
    && (t in INTEGERS ==> p.data == Number(LeValue(v)))
    && (t in COPIED ==> p.data == Raw(v))
    && (t in TEMPORALS ==> p.data == Temporal(v))
    && (t in INTEGERS || t in COPIED || t in TEMPORALS ==> p.length == |v|)
  }

  /** A parameter holds a field. */
  predicate PresentsOne(p: Bind, column: Column, f: Field) {
    match f
    case None => p.isNull && p.length == 0 && p.kind == NullType
    case Some(v) =>
      !p.isNull && p.kind == column.kind && (column.isUnsigned ==> p.isUnsigned) && HoldsValue(p, column.kind, v)
  }

  /** The parameters hold a row. */
  predicate Presents(params: seq<Bind>, columns: seq<Column>, row: seq<Field>)
    requires |columns| == |row|
  {
    && |params| == |columns|
    && forall c :: 0 <= c < |row| ==> PresentsOne(params[c], columns[c], row[c])
  }

  /** Every value arrives, and exactly the types without a case are refused; they
      leave the data alone. */
  lemma ValueArrives(before: Bind, column: Column, v: seq<byte>)
    requires !WidthOf(column.kind).Unreadable? ==> ValueFits(column.kind, v)
    ensures PresentsOne(Fetched(before, column, Some(v)), column, Some(v))
    ensures Unsupported(column, Some(v)) <==> column.kind in REFUSED
    ensures column.kind in REFUSED || column.kind == NullType ==> Fetched(before, column, Some(v)).data == before.data
    ensures column.kind in INTEGERS || column.kind in COPIED || column.kind in TEMPORALS || column.kind in REFUSED ||
      column.kind == NullType
  {
    hide LeValue;
  }

  lemma FetchedPresents(before: seq<Bind>, now: seq<Bind>, columns: seq<Column>, row: seq<Field>)
    requires |before| == |columns| && RowFitsTypes(TypesOf(columns), row)
    requires FetchedTo(before, now, columns, row, |row|)
    ensures Presents(now, columns, row)
  {
    hide ValueFits, PresentsOne, Fetched, Unsupported;
    forall c | 0 <= c < |row|
      ensures PresentsOne(now[c], columns[c], row[c])
    {
      if row[c].Some? {
        ValueArrives(before[c], columns[c], row[c].value);
      } else {
        NullArrives(before[c], columns[c]);
      }
    }
  }

  lemma NullArrives(before: Bind, column: Column)
    ensures PresentsOne(Fetched(before, column, None), column, None)
  {
  }

  /** The value of column c is found behind the values of the columns before it. */
  lemma {:induction false} ValueAt(row: seq<Field>, c: nat, end: nat)
    requires c < end <= |row| && row[c].Some?
    ensures NonNull(row, c) < NonNull(row, end)
    ensures Compressed(row, end)[NonNull(row, c)] == row[c].value
  {
    if c < end - 1 {
      ValueAt(row, c, end - 1);
    }
  }

  /** One column of the loop, its NULL bit clear. */
  method FetchValue(param: Bind, column: Column, v: seq<byte>) returns (p: Bind, ret: Ret)
    requires !WidthOf(column.kind).Unreadable? ==> ValueFits(column.kind, v)
    ensures p == Fetched(param, column, Some(v))
    ensures PresentsOne(p, column, Some(v))
    ensures ret == if Unsupported(column, Some(v)) then UnexpectedData else Ok
  {
    hide LeValue, PresentsOne;
    ret := Ok;
    p := param.(kind := column.kind, isNull := false, length := |v|);
    if column.isUnsigned {
      p := p.(isUnsigned := true);
    }
    match column.kind {
      case NullType =>
        p := p.(length := 0);
      case Tiny =>
        Single(v);
        p := p.(data := Number(v[0]));
      case Short =>
        p := p.(data := Number(LeValue(v[..2])));
      case Year =>
        p := p.(data := Number(LeValue(v[..2])));
      case Int24 =>
        p := p.(data := Number(LeValue(v[..4])));
      case Long =>
        p := p.(data := Number(LeValue(v[..4])));
      case Longlong =>
        p := p.(data := Number(LeValue(v[..8])));
      case Float =>
        p := p.(data := Raw(v[..4]));
      case Double =>
        p := p.(data := Raw(v[..8]));
      case Time =>
        p := p.(data := Temporal(v));
      case Date =>
        p := p.(data := Temporal(v));
      case Datetime =>
        p := p.(data := Temporal(v));
      case Timestamp =>
        p := p.(data := Temporal(v));
      case Varchar =>
        ret := UnexpectedData;
      case Enum =>
        ret := UnexpectedData;
      case SetType =>
        ret := UnexpectedData;
      case Geometry =>
        ret := UnexpectedData;
      case Timestamp2 =>
        ret := UnexpectedData;
      case Datetime2 =>
        ret := UnexpectedData;
      case Time2 =>
        ret := UnexpectedData;
      case _ =>
        p := p.(data := Raw(v));
    }
    assert v[..|v|] == v;
    ValueArrives(param, column, v);
  }

  lemma Single(v: seq<byte>)
    requires |v| == 1
    ensures LeValue(v) == v[0]
  {
    assert LeValue(v[1..]) == 0;
  }

  /** The first `done` parameters are fetched, the others are as they were. */
  predicate FetchedTo(before: seq<Bind>, now: seq<Bind>, columns: seq<Column>, row: seq<Field>, done: nat)
    requires |before| == |columns| && RowFitsTypes(TypesOf(columns), row)
  {
    && |now| == |before|
    && forall c :: 0 <= c < |row| ==> now[c] == if c < done then Fetched(before[c], columns[c], row[c]) else before[c]
  }

  lemma FetchOne(before: seq<Bind>, now: seq<Bind>, columns: seq<Column>, row: seq<Field>, c: nat)
    requires |before| == |columns| && RowFitsTypes(TypesOf(columns), row) && c < |row|
    requires FetchedTo(before, now, columns, row, c)
    ensures now[c] == before[c]
    ensures FetchedTo(before, now[c := Fetched(before[c], columns[c], row[c])], columns, row, c + 1)
  {
    hide Fetched, ValueFits, WidthOf;
  }

  /** The loop of drizzle_stmt_fetch over the columns: `bitmap` is the row's NULL
      bitmap and `values` its values, NULLs left out.  Column c is NULL exactly
      when its bit is set, and has its own value otherwise; a type that is not
      handled ends the loop. */
  method StmtFetch(params: array<Bind>, columns: seq<Column>, bitmap: seq<Octet>, values: seq<seq<byte>>,
                   ghost row: seq<Field>) returns (ret: Ret, ghost done: nat)
    requires params.Length == |columns| && RowFitsTypes(TypesOf(columns), row)
    requires Marks(bitmap, row) && values == Compressed(row, |row|)
    modifies params
    ensures done <= |row| && FetchedTo(old(params[..]), params[..], columns, row, done)
    ensures ret == Ok <==> forall c :: 0 <= c < |row| ==> !Unsupported(columns[c], row[c])
    ensures ret == Ok ==> done == |row| && Presents(params[..], columns, row)
    ensures ret != Ok ==> ret == UnexpectedData && 0 < done && Unsupported(columns[done - 1], row[done - 1])
  {
    hide Marks, Compressed, Fetched, WidthOf, ValueFits, Unsupported, FetchedTo, PresentsOne, Presents;
    BitmapCovers(columns, bitmap, row);
    NothingFetched(params[..], columns, row);
    ghost var before := params[..];
    var current := 0;
    var counter := 0;
    while counter < |columns|
      invariant counter <= |row| && current == NonNull(row, counter)
      invariant FetchedTo(before, params[..], columns, row, counter)
      invariant forall c :: 0 <= c < counter ==> !Unsupported(columns[c], row[c])
    {
      var param := params[counter];
      ColumnOf(columns, bitmap, row, counter);
      FetchOne(before, params[..], columns, row, counter);
      if NullBit(bitmap, counter) {
        NullFetched(param, columns[counter]);
        params[counter] := param.(isNull := true, length := 0, kind := NullType);
      } else {
        ValueAt(row, counter, |row|);
        var p;
        p, ret := FetchValue(param, columns[counter], values[current]);
        params[counter] := p;
        current := current + 1;
        if ret == UnexpectedData {
          return ret, counter + 1;
        }
      }
      counter := counter + 1;
    }
    FetchedPresents(before, params[..], columns, row);
    return Ok, |row|;
  }

  lemma NothingFetched(before: seq<Bind>, columns: seq<Column>, row: seq<Field>)
    requires |before| == |columns| && RowFitsTypes(TypesOf(columns), row)
    ensures FetchedTo(before, before, columns, row, 0)
  {
  }

  lemma BitmapCovers(columns: seq<Column>, bitmap: seq<Octet>, row: seq<Field>)
    requires RowFitsTypes(TypesOf(columns), row) && Marks(bitmap, row)
    ensures |row| == |columns| && |bitmap| == BitmapLength(|row|)
  {
  }

  lemma ColumnOf(columns: seq<Column>, bitmap: seq<Octet>, row: seq<Field>, c: nat)
    requires RowFitsTypes(TypesOf(columns), row) && Marks(bitmap, row) && c < |row|
    ensures c + 2 < 8 * |bitmap| && |row| == |columns|
    ensures NullBit(bitmap, c) <==> row[c].None?
    ensures row[c].Some? && !WidthOf(columns[c].kind).Unreadable? ==> ValueFits(columns[c].kind, row[c].value)
  {
    hide BitAt, WidthOf, ValueFits;
  }

  lemma NullFetched(param: Bind, column: Column)
    ensures Fetched(param, column, None) == param.(isNull := true, length := 0, kind := NullType)
    ensures !Unsupported(column, None)
  {
  }
}
