/** The payload of a prepared-statement execute: drizzle_stmt_execute of
    src/statement.cc.  Types and values are written by two cursors into one
    buffer; NULL parameters have a bit in a bitmap and neither type nor value. */
module Execute {
  import opened Bytes
  import opened Pack
  import opened StateStack
  import opened Bitmaps
  import opened BinaryRows

  /** What the data pointer of a parameter points at: a C integer or bytes. */
  datatype Data = Number(n: nat) | Memory(bytes: seq<byte>)

  datatype Param = Param(kind: ColumnType, isUnsigned: bool, data: Data)

  const NULL_PARAM := Param(NullType, false, Memory([]))

  /** The number of a column type in the protocol. */
  function Code(t: ColumnType): byte {
    match t
    case Decimal => 0
    case Tiny => 1
    case Short => 2
    case Long => 3
    case Float => 4
    case Double => 5
    case NullType => 6
    case Timestamp => 7
    case Longlong => 8
    case Int24 => 9
    case Date => 10
    case Time => 11
    case Datetime => 12
    case Year => 13
    case NewDate => 14
    case Varchar => 15
    case BitType => 16
    case Timestamp2 => 17
    case Datetime2 => 18
    case Time2 => 19
    case NewDecimal => 246
    case Enum => 247
    case SetType => 248
    case TinyBlob => 249
    case MediumBlob => 250
    case LongBlob => 251
    case Blob => 252
    case VarString => 253
    case String => 254
    case Geometry => 255
  }

  /** Each of the numbers 0 to 19 and 246 to 255 stands for one type. */
  lemma OneNumberEach(t: ColumnType, u: ColumnType)
    ensures Code(t) == Code(u) ==> t == u
    ensures Code(t) < 20 || Code(t) >= 246
  {
  }

  /** How the value of a parameter travels. */
  datatype Shape = Whole(width: nat) | Verbatim(width: nat) | Sized | Unsupported

  function ShapeOf(t: ColumnType): (s: Shape)
    ensures s.Whole? || s.Verbatim? ==> 1 <= s.width <= 8
  {
    match t
    case Tiny => Whole(1)
    case Short => Whole(2)
    case Long => Whole(4)
    case Longlong => Whole(8)
    case Float => Verbatim(4)
    case Double => Verbatim(8)
    case TinyBlob => Sized
    case MediumBlob => Sized
    case LongBlob => Sized
    case Blob => Sized
    case Varchar => Sized
    case VarString => Sized
    case String => Sized
    case Decimal => Sized
    case NewDecimal => Sized
    case _ => Unsupported
  }

  predicate IsTemporal(t: ColumnType) {
    t.Time? || t.Date? || t.Datetime? || t.Timestamp?
  }

  /** A parameter as the drizzle_stmt_set functions leave it, temporal ones aside. */
  predicate Bound(p: Param) {
    !IsTemporal(p.kind) &&
    (p.kind.NullType? ==> p == NULL_PARAM) &&
    match ShapeOf(p.kind)
    case Whole(k) => p.data.Number? && p.data.n < Span(k)
    case Verbatim(k) => p.data.Memory? && |p.data.bytes| == k
    case Sized => p.data.Memory? && |p.data.bytes| <= MAX_LENGTH
    case Unsupported => true
  }

  /** The length a parameter is bound with. */
  function Length(p: Param): nat {
    match ShapeOf(p.kind)
    case Whole(k) => k
    case Verbatim(k) => k
    case _ => if p.data.Memory? then |p.data.bytes| else 0
  }

  function DataBytes(p: Param): seq<byte>
    requires Bound(p)
  {
    match ShapeOf(p.kind)
    case Whole(k) => Le(p.data.n, k)
    case Verbatim(k) => p.data.bytes
    case Sized => BinaryBytes(p.data.bytes)
    case Unsupported => []
  }

  /** The types whose values travel behind their lengths. */
  const SIZED: set<ColumnType> :=
    {TinyBlob, MediumBlob, LongBlob, Blob, Varchar, VarString, String, Decimal, NewDecimal}

  /** The form of each type's values. */
  lemma ValueForms(p: Param)
    requires Bound(p)
    ensures var d := DataBytes(p);
      && (p.kind.Tiny? ==> |d| == 1 && LeValue(d) == p.data.n)
      && (p.kind.Short? ==> |d| == 2 && LeValue(d) == p.data.n)
      && (p.kind.Long? ==> |d| == 4 && LeValue(d) == p.data.n)
      && (p.kind.Longlong? ==> |d| == 8 && LeValue(d) == p.data.n)
      && (p.kind.Float? ==> |d| == 4 && d == p.data.bytes)
      && (p.kind.Double? ==> |d| == 8 && d == p.data.bytes)
      && (p.kind in SIZED ==> d == LengthBytes(|p.data.bytes|) + p.data.bytes)
  {
    hide LeValue, LengthBytes;
    match ShapeOf(p.kind)
    case Whole(k) => LeRoundTrip(p.data.n, k);
    case _ =>
  }

  function TypeBytes(p: Param): (s: seq<byte>)
    ensures |s| == 2
  {
    Le(Code(p.kind) + if p.isUnsigned then 0x8000 else 0, 2)
  }

  predicate AllBound(params: seq<Param>) {
    forall i :: 0 <= i < |params| ==> Bound(params[i])
  }

  /** The types of the parameters from i on that are not NULL. */
  function Types(params: seq<Param>, i: nat): seq<byte>
    requires i <= |params|
    decreases |params| - i
  {
    if i == |params| then []
    else (if params[i].kind.NullType? then [] else TypeBytes(params[i])) + Types(params, i + 1)
  }

  /** The values of the parameters from i on that are not NULL. */
  function Datas(params: seq<Param>, i: nat): seq<byte>
    requires i <= |params| && AllBound(params)
    decreases |params| - i
  {
    if i == |params| then [] else DataBytes(params[i]) + Datas(params, i + 1)
  }

  function NonNulls(params: seq<Param>, i: nat): nat
    requires i <= |params|
    decreases |params| - i
  {
    if i == |params| then 0 else One(!params[i].kind.NullType?) + NonNulls(params, i + 1)
  }

  function ParamBitmapLength(n: nat): nat {
    (n + 7) / 8
  }

  lemma SmallestBitmap(n: nat)
    ensures n <= 8 * ParamBitmapLength(n) < n + 8
  {
  }

  /** Bit i is set exactly when parameter i is NULL; the bits behind are zero. */
  predicate MarksNulls(bitmap: seq<Octet>, params: seq<Param>) {
    |bitmap| == ParamBitmapLength(|params|) &&
    forall j :: 0 <= j < 8 * |bitmap| ==> (BitAt(bitmap, j) <==> j < |params| && params[j].kind.NullType?)
  }

  function Head(id: nat): (s: seq<byte>)
    ensures |s| == 9
  {
    Le(id, 4) + [0] + Le(1, 4)
  }

  /** The payload: statement id, flags, a reserved 1, bitmap, new-bind flag, types if
      they are new, values. */
  function Payload(id: nat, bitmap: seq<Octet>, newBind: bool, params: seq<Param>): seq<byte>
    requires AllBound(params)
  {
    Head(id) + WireOf(bitmap) + (if newBind then [1] + Types(params, 0) else [0]) + Datas(params, 0)
  }

  // ------------------------------------------------------------------ decoding

  function TypeOfCode(c: byte): (t: Option<ColumnType>)
    ensures t.Some? ==> Code(t.value) == c
  {
    if c == 0 then Some(Decimal)
    else if c == 1 then Some(Tiny)
    else if c == 2 then Some(Short)
    else if c == 3 then Some(Long)
    else if c == 4 then Some(Float)
    else if c == 5 then Some(Double)
    else if c == 8 then Some(Longlong)
    else if c == 15 then Some(Varchar)
    else if c == 246 then Some(NewDecimal)
    else if c == 249 then Some(TinyBlob)
    else if c == 250 then Some(MediumBlob)
    else if c == 251 then Some(LongBlob)
    else if c == 252 then Some(Blob)
    else if c == 253 then Some(VarString)
    else if c == 254 then Some(String)
    else None
  }

  datatype Decoded = Value(data: Data, used: nat) | Malformed

  function DecodeData(t: ColumnType, s: seq<byte>): (r: Decoded)
    ensures r.Value? ==> r.used <= |s|
  {
    match ShapeOf(t)
    case Whole(k) => if |s| < k then Malformed else Value(Number(LeValue(s[..k])), k)
    case Verbatim(k) => if |s| < k then Malformed else Value(Memory(s[..k]), k)
    case Unsupported => Malformed
    case Sized =>
      if s == [] then Malformed
      else match DecodeLength(s)
        case Length(value, used) =>
          if |s| < used + value then Malformed else Value(Memory(s[used..used + value]), used + value)
        case _ => Malformed
  }

  /** What a server makes of bitmap, types and values, from parameter i of n on. */
  function DecodeParams(bitmap: seq<Octet>, i: nat, n: nat, types: seq<byte>, data: seq<byte>): Option<seq<Param>>
    requires i <= n <= 8 * |bitmap|
    decreases n - i
  {
    if i == n then (if types == [] && data == [] then Some([]) else None)
    else if BitAt(bitmap, i) then Behind(NULL_PARAM, DecodeParams(bitmap, i + 1, n, types, data))
    else if |types| < 2 then None
    else
      var t, d := TypeOfCode(types[0]), if TypeOfCode(types[0]).None? then Malformed
                                        else DecodeData(TypeOfCode(types[0]).value, data);
      if d.Malformed? then None
      else
        Behind(Param(t.value, types[1] >= 0x80, d.data),
               DecodeParams(bitmap, i + 1, n, types[2..], data[d.used..]))
  }

  function Behind(p: Param, rest: Option<seq<Param>>): Option<seq<Param>> {
    if rest.None? then None else Some([p] + rest.value)
  }

  /** The number of clear bits among those from i up to n. */
  function ClearBits(bitmap: seq<Octet>, i: nat, n: nat): nat
    requires i <= n <= 8 * |bitmap|
    decreases n - i
  {
    if i == n then 0 else One(!BitAt(bitmap, i)) + ClearBits(bitmap, i + 1, n)
  }

  datatype Execution = Execution(id: nat, params: seq<Param>)

  /** What a server makes of a payload for n parameters, given the types it keeps. */
  function DecodePayload(s: seq<byte>, n: nat, kept: seq<byte>): Option<Execution> {
    var behind := 9 + ParamBitmapLength(n);
    if |s| < behind + 1 || s[4] != 0 || LeValue(s[5..9]) != 1 || s[behind] > 1 then None
    else
      var bitmap := OctetsOf(s[9..behind]);
      var split := behind + 1 + if s[behind] == 1 then 2 * ClearBits(bitmap, 0, n) else 0;
      if |s| < split then None
      else
        WithId(LeValue(s[..4]),
               DecodeParams(bitmap, 0, n, if s[behind] == 1 then s[behind + 1..split] else kept, s[split..]))
  }

  function WithId(id: nat, params: Option<seq<Param>>): Option<Execution> {
    if params.None? then None else Some(Execution(id, params.value))
  }

  lemma CodeRoundTrip(t: ColumnType)
    requires !ShapeOf(t).Unsupported?
    ensures TypeOfCode(Code(t)) == Some(t)
  {
  }

  lemma TwoBytes(n: nat)
    requires n < 65536
    ensures Le(n, 2) == [n % 256, n / 256]
  {
    assert Le(n, 2) == [n % 256] + Le(n / 256, 1);
    assert Le(n / 256, 1) == [n / 256 % 256] + Le(n / 256 / 256, 0);
  }

  lemma TypeRoundTrip(p: Param)
    requires !ShapeOf(p.kind).Unsupported?
    ensures TypeOfCode(TypeBytes(p)[0]) == Some(p.kind)
    ensures TypeBytes(p)[1] >= 0x80 <==> p.isUnsigned
  {
    CodeRoundTrip(p.kind);
    hide Code, TypeOfCode, ShapeOf, Le;
    TwoBytes(Code(p.kind) + if p.isUnsigned then 0x8000 else 0);
    LowAndHigh(Code(p.kind), p.isUnsigned);
  }

  lemma LowAndHigh(code: nat, high: bool)
    requires code < 256
    ensures var n := code + if high then 0x8000 else 0; n % 256 == code && (n / 256 >= 0x80 <==> high)
  {
  }

  lemma DataRoundTrip(p: Param, more: seq<byte>)
    requires Bound(p) && !ShapeOf(p.kind).Unsupported?
    ensures DecodeData(p.kind, DataBytes(p) + more) == Value(p.data, |DataBytes(p)|)
    ensures (DataBytes(p) + more)[|DataBytes(p)|..] == more
  {
    hide LengthBytes, DecodeLength;
    var s := DataBytes(p) + more;
    assert s[..|DataBytes(p)|] == DataBytes(p);
    match ShapeOf(p.kind)
    case Whole(k) =>
      LeRoundTrip(p.data.n, k);
    case Verbatim(k) =>
    case Sized =>
      var v := p.data.bytes;
      Regroup(LengthBytes(|v|), v, more);
      LengthRoundTrip(|v|, v + more);
      assert s[|LengthBytes(|v|)|..|LengthBytes(|v|)| + |v|] == v;
  }

  predicate AllSupported(params: seq<Param>) {
    forall i :: 0 <= i < |params| ==> params[i].kind.NullType? || !ShapeOf(params[i].kind).Unsupported?
  }

  lemma DecodeStep(bitmap: seq<Octet>, params: seq<Param>, i: nat)
    requires AllBound(params) && AllSupported(params) && MarksNulls(bitmap, params) && i < |params|
    ensures DecodeParams(bitmap, i, |params|, Types(params, i), Datas(params, i)) ==
      Behind(params[i], DecodeParams(bitmap, i + 1, |params|, Types(params, i + 1), Datas(params, i + 1)))
  {
    hide BitAt, Code, TypeOfCode, DecodeData, TypeBytes, DataBytes, Behind;
    var p := params[i];
    assert BitAt(bitmap, i) <==> p.kind.NullType?;
    if p.kind.NullType? {
      NullHasNoData(p);
      assert [] + Types(params, i + 1) == Types(params, i + 1) && [] + Datas(params, i + 1) == Datas(params, i + 1);
    } else {
      TypeRoundTrip(p);
      DataRoundTrip(p, Datas(params, i + 1));
      var types := TypeBytes(p) + Types(params, i + 1);
      assert types[0] == TypeBytes(p)[0] && types[1] == TypeBytes(p)[1] && types[2..] == Types(params, i + 1);
    }
  }

  lemma NullHasNoData(p: Param)
    requires Bound(p) && p.kind.NullType?
    ensures DataBytes(p) == [] && p == NULL_PARAM
  {
  }

  lemma {:induction false} ParamsRoundTrip(bitmap: seq<Octet>, params: seq<Param>, i: nat)
    requires AllBound(params) && AllSupported(params) && MarksNulls(bitmap, params) && i <= |params|
    ensures DecodeParams(bitmap, i, |params|, Types(params, i), Datas(params, i)) == Some(params[i..])
    decreases |params| - i
  {
    hide BitAt, AllBound, AllSupported, TypeBytes, DataBytes, DecodeData, TypeOfCode;
    if i < |params| {
      ParamsRoundTrip(bitmap, params, i + 1);
      DecodeStep(bitmap, params, i);
      assert params[i..] == [params[i]] + params[i + 1..];
    } else {
      assert params[i..] == [];
    }
  }

  lemma {:induction false} TypesSize(params: seq<Param>, i: nat)
    requires i <= |params|
    ensures |Types(params, i)| == 2 * NonNulls(params, i)
    decreases |params| - i
  {
    hide TypeBytes;
    if i < |params| {
      TypesSize(params, i + 1);
    }
  }

  lemma {:induction false} TypesLength(bitmap: seq<Octet>, params: seq<Param>, i: nat)
    requires MarksNulls(bitmap, params) && i <= |params|
    ensures |Types(params, i)| == 2 * NonNulls(params, i)
    ensures ClearBits(bitmap, i, |params|) == NonNulls(params, i)
    decreases |params| - i
  {
    hide BitAt, TypeBytes, Types;
    TypesSize(params, i);
    if i < |params| {
      TypesLength(bitmap, params, i + 1);
    }
  }

  /** The bytes in front of the parameters. */
  lemma HeadIs(id: nat)
    requires id < 0x1_0000_0000
    ensures LeValue(Head(id)[..4]) == id && Head(id)[4] == 0 && LeValue(Head(id)[5..9]) == 1
  {
    FourBytes(id);
    FourBytes(1);
    hide Le, LeValue;
    var low, one := Le(id, 4), Le(1, 4);
    assert (low + [0] + one)[..4] == low && (low + [0] + one)[5..9] == one;
  }

  lemma FourBytes(n: nat)
    requires n < 0x1_0000_0000
    ensures LeValue(Le(n, 4)) == n
  {
    hide Le, LeValue;
    LeRoundTrip(n, 4);
  }

  /** What a server makes of a payload is up to the types it takes the values for. */
  lemma PayloadDecodes(id: nat, bitmap: seq<Octet>, newBind: bool, params: seq<Param>, kept: seq<byte>)
    requires id < 0x1_0000_0000 && AllBound(params) && MarksNulls(bitmap, params)
    ensures var s, flagAt := Payload(id, bitmap, newBind, params), 9 + ParamBitmapLength(|params|);
      |s| > flagAt && LeValue(s[..4]) == id && s[4] == 0 && LeValue(s[5..9]) == 1 && s[flagAt] == One(newBind)
    ensures DecodePayload(Payload(id, bitmap, newBind, params), |params|, kept) ==
      WithId(id, DecodeParams(bitmap, 0, |params|, if newBind then Types(params, 0) else kept, Datas(params, 0)))
  {
    hide BitAt, Types, Datas, Head, DecodeParams, ClearBits, WireOf, OctetsOf, AllBound, NonNulls, LeValue;
    var types, data, wire := Types(params, 0), Datas(params, 0), WireOf(bitmap);
    TypesLength(bitmap, params, 0);
    OctetsOfWire(bitmap);
    HeadIs(id);
    PayloadParts(Head(id), wire, [1], types, data);
    PayloadParts(Head(id), wire, [0], [], data);
    assert [0] + [] == [0];
    var s := Payload(id, bitmap, newBind, params);
    assert s[..9] == Head(id);
    assert s[..4] == s[..9][..4] && s[4] == s[..9][4] && s[5..9] == s[..9][5..9];
  }

  /** A server recovers the statement and every parameter from a payload with new
      types. */
  lemma PayloadRoundTrip(id: nat, bitmap: seq<Octet>, params: seq<Param>, kept: seq<byte>)
    requires id < 0x1_0000_0000 && AllBound(params) && AllSupported(params) && MarksNulls(bitmap, params)
    ensures DecodePayload(Payload(id, bitmap, true, params), |params|, kept) == Some(Execution(id, params))
  {
    hide Payload, DecodePayload, DecodeParams, MarksNulls, AllBound, AllSupported;
    PayloadDecodes(id, bitmap, true, params, kept);
    ParamsRoundTrip(bitmap, params, 0);
    assert params[0..] == params;
  }

  /** Type bytes as a payload carries them: a code and the sign flag. */
  predicate AreTypes(types: seq<byte>) {
    types == [] || (|types| >= 2 && types[1] in {0, 0x80} && AreTypes(types[2..]))
  }

  lemma {:induction false} TypesAreTypes(params: seq<Param>, i: nat)
    requires i <= |params|
    ensures AreTypes(Types(params, i))
    decreases |params| - i
  {
    hide TypeBytes;
    if i < |params| {
      TypesAreTypes(params, i + 1);
      var p, rest := params[i], Types(params, i + 1);
      TypeBytesAre(p);
      assert (TypeBytes(p) + rest)[2..] == rest && [] + rest == rest;
    }
  }

  lemma TypeBytesAre(p: Param)
    ensures TypeBytes(p) == [Code(p.kind), if p.isUnsigned then 0x80 else 0]
  {
    hide Code, Le;
    TwoBytes(Code(p.kind) + if p.isUnsigned then 0x8000 else 0);
  }

  /** What is decoded of the first parameter. */
  lemma DecodeFront(bitmap: seq<Octet>, i: nat, n: nat, types: seq<byte>, data: seq<byte>, params: seq<Param>)
    requires i < n <= 8 * |bitmap| && params != [] && DecodeParams(bitmap, i, n, types, data) == Some(params)
    ensures if BitAt(bitmap, i) then DecodeParams(bitmap, i + 1, n, types, data) == Some(params[1..])
            else
              |types| >= 2 && TypeOfCode(types[0]) == Some(params[0].kind) && (types[1] >= 0x80 <==> params[0].isUnsigned) &&
              var d := DecodeData(params[0].kind, data);
              d.Value? && DecodeParams(bitmap, i + 1, n, types[2..], data[d.used..]) == Some(params[1..])
  {
    hide BitAt, TypeOfCode, DecodeData;
  }

  /** Types under which the parameters are recovered are the types of the parameters. */
  lemma {:induction false} RecoveredTypes(bitmap: seq<Octet>, params: seq<Param>, i: nat, types: seq<byte>, data: seq<byte>)
    requires MarksNulls(bitmap, params) && i <= |params| && AreTypes(types)
    requires DecodeParams(bitmap, i, |params|, types, data) == Some(params[i..])
    ensures types == Types(params, i)
    decreases |params| - i
  {
    hide BitAt, Code, TypeOfCode, DecodeData, TypeBytes;
    if i < |params| {
      var p := params[i];
      assert params[i..] == [p] + params[i + 1..];
      assert BitAt(bitmap, i) <==> p.kind.NullType?;
      DecodeFront(bitmap, i, |params|, types, data, params[i..]);
      assert params[i..][1..] == params[i + 1..];
      if p.kind.NullType? {
        RecoveredTypes(bitmap, params, i + 1, types, data);
        assert [] + types == types;
      } else {
        var d := DecodeData(p.kind, data);
        RecoveredTypes(bitmap, params, i + 1, types[2..], data[d.used..]);
        RecoveredType(p, types);
      }
    }
  }

  lemma RecoveredType(p: Param, types: seq<byte>)
    requires |types| >= 2 && AreTypes(types) && TypeOfCode(types[0]) == Some(p.kind)
    requires types[1] >= 0x80 <==> p.isUnsigned
    ensures types == TypeBytes(p) + types[2..]
  {
    hide Code, TypeOfCode, TypeBytes;
    TypeBytesAre(p);
    assert types == [types[0], types[1]] + types[2..];
  }

  /** An execute after the first does not carry the types, even when parameters were
      bound anew: a server that keeps the types of the first execute recovers the
      parameters exactly when the types it keeps are theirs. */
  lemma KeptTypes(id: nat, bitmap: seq<Octet>, first: seq<Param>, params: seq<Param>)
    requires id < 0x1_0000_0000 && AllBound(params) && AllSupported(params) && MarksNulls(bitmap, params)
    ensures DecodePayload(Payload(id, bitmap, false, params), |params|, Types(first, 0)) == Some(Execution(id, params)) <==>
      Types(first, 0) == Types(params, 0)
  {
    hide Payload, DecodePayload, DecodeParams, BitAt, AllBound, AllSupported, Types, Datas;
    PayloadDecodes(id, bitmap, false, params, Types(first, 0));
    ParamsRoundTrip(bitmap, params, 0);
    assert params[0..] == params;
    TypesAreTypes(first, 0);
    if DecodeParams(bitmap, 0, |params|, Types(first, 0), Datas(params, 0)) == Some(params) {
      RecoveredTypes(bitmap, params, 0, Types(first, 0), Datas(params, 0));
    }
  }

  /** A parameter that was a TINY and is a LONGLONG is not recovered. */
  lemma StaleType(id: nat, bitmap: seq<Octet>, n: nat, m: nat)
    requires id < 0x1_0000_0000 && n < 256 && m < Span(8)
    requires MarksNulls(bitmap, [Param(Longlong, false, Number(m))])
    ensures var first, params := [Param(Tiny, false, Number(n))], [Param(Longlong, false, Number(m))];
      DecodePayload(Payload(id, bitmap, false, params), 1, Types(first, 0)) != Some(Execution(id, params))
  {
    hide Payload, DecodePayload, MarksNulls, TypeBytes;
    var first, params := [Param(Tiny, false, Number(n))], [Param(Longlong, false, Number(m))];
    KeptTypes(id, bitmap, first, params);
    TypeBytesAre(first[0]);
    TypeBytesAre(params[0]);
    assert Types(first, 0)[0] == 1 && Types(params, 0)[0] == 8;
  }

  lemma PayloadParts(head: seq<byte>, wire: seq<byte>, flag: seq<byte>, types: seq<byte>, data: seq<byte>)
    requires |flag| == 1
    ensures var s := head + wire + (flag + types) + data;
      var at := |head| + |wire|;
      && s[|head|..at] == wire && s[at] == flag[0]
      && s[at + 1..at + 1 + |types|] == types && s[at + 1 + |types|..] == data
  {
  }

  // ----------------------------------------------------------- the buffer size

  /** What the first loop adds up: 8 bytes and the length for each value. */
  function Lengths(params: seq<Param>, i: nat): nat
    requires i <= |params|
    decreases |params| - i
  {
    if i == |params| then 0
    else (if params[i].kind.NullType? then 0 else Length(params[i]) + 8) + Lengths(params, i + 1)
  }

  /** The size of the buffer. */
  function Computed(params: seq<Param>): nat {
    4 + 1 + 4 + ParamBitmapLength(|params|) + 1 + NonNulls(params, 0) * 2 + Lengths(params, 0)
  }

  predicate IsHuge(p: Param) {
    ShapeOf(p.kind).Sized? && p.data.Memory? && |p.data.bytes| >= 0x100_0000
  }

  /** How many bytes a value, other than a huge one, leaves of its 8 and its length. */
  function Spare(p: Param): nat
    requires Bound(p)
  {
    if p.kind.NullType? || IsHuge(p) then 0
    else if !ShapeOf(p.kind).Sized? then Length(p) + 8 - |DataBytes(p)|
    else if Length(p) < 251 then 7
    else if Length(p) < 65536 then 5
    else 4
  }

  function Spares(params: seq<Param>, i: nat): nat
    requires i <= |params| && AllBound(params)
    decreases |params| - i
  {
    if i == |params| then 0 else Spare(params[i]) + Spares(params, i + 1)
  }

  function Huge(params: seq<Param>, i: nat): nat
    requires i <= |params|
    decreases |params| - i
  {
    if i == |params| then 0 else One(IsHuge(params[i])) + Huge(params, i + 1)
  }

  lemma SpareIs(p: Param)
    requires Bound(p)
    ensures p.kind.NullType? ==> DataBytes(p) == [] && Spare(p) == One(IsHuge(p)) == 0
    ensures !p.kind.NullType? ==> Length(p) + 8 == |DataBytes(p)| + Spare(p) - One(IsHuge(p))
    ensures !p.kind.NullType? && !IsHuge(p) ==> Spare(p) >= 4
  {
  }

  lemma {:induction false} DatasLength(params: seq<Param>, i: nat)
    requires AllBound(params) && i <= |params|
    ensures Lengths(params, i) + Huge(params, i) == |Datas(params, i)| + Spares(params, i)
    decreases |params| - i
  {
    hide Bound, DataBytes, Spare, IsHuge, Length;
    if i < |params| {
      DatasLength(params, i + 1);
      SpareIs(params[i]);
    }
  }

  /** The payload fits the buffer exactly when the strings of 2^24 bytes or more are
      no more than the bytes the other values leave unused; each of them needs one
      byte more than was reserved for it. */
  lemma FitsExactly(id: nat, bitmap: seq<Octet>, newBind: bool, params: seq<Param>)
    requires AllBound(params) && MarksNulls(bitmap, params)
    ensures |Payload(id, bitmap, newBind, params)| <= Computed(params) <==>
      Huge(params, 0) <= Spares(params, 0) + if newBind then 0 else 2 * NonNulls(params, 0)
  {
    hide BitAt, AllBound, Types, Datas, NonNulls, Lengths, Huge, Spares;
    TypesLength(bitmap, params, 0);
    DatasLength(params, 0);
  }

  lemma {:induction false} NoHugeNone(params: seq<Param>, i: nat)
    requires i <= |params| && forall j :: 0 <= j < |params| ==> !IsHuge(params[j])
    ensures Huge(params, i) == 0
    decreases |params| - i
  {
    if i < |params| {
      NoHugeNone(params, i + 1);
    }
  }

  /** Strings below 2^24 bytes always fit. */
  lemma SmallStringsFit(id: nat, bitmap: seq<Octet>, newBind: bool, params: seq<Param>)
    requires AllBound(params) && MarksNulls(bitmap, params) && forall j :: 0 <= j < |params| ==> !IsHuge(params[j])
    ensures |Payload(id, bitmap, newBind, params)| <= Computed(params)
  {
    hide Payload, Computed, BitAt, IsHuge;
    NoHugeNone(params, 0);
    FitsExactly(id, bitmap, newBind, params);
  }

  /** One string of 2^24 bytes or more does not. */
  lemma HugeStringOverflows(id: nat, bitmap: seq<Octet>, p: Param)
    requires Bound(p) && IsHuge(p) && MarksNulls(bitmap, [p])
    ensures |Payload(id, bitmap, true, [p])| == Computed([p]) + 1
  {
    hide BitAt, IsHuge, DataBytes, Length;
    SpareIs(p);
    TypesLength(bitmap, [p], 0);
    DatasLength([p], 0);
    assert Huge([p], 1) == 0 && Spares([p], 1) == 0 && Spare(p) == 0;
  }

  // ----------------------------------------------------------------- encoding

  datatype Executed = Written(payload: seq<byte>) | NotBound(param: nat) | UnknownType

  /** The switch of drizzle_stmt_execute for one parameter that is not NULL. */
  method PutData(p: Param, buffer: array<byte>, dataPos: nat) returns (ok: bool, end: nat)
    requires Bound(p) && !p.kind.NullType? && dataPos + |DataBytes(p)| <= buffer.Length
    modifies buffer
    ensures ok <==> !ShapeOf(p.kind).Unsupported?
    ensures end == dataPos + |DataBytes(p)|
    ensures buffer[..] == Splice(old(buffer[..]), dataPos, DataBytes(p))
  {
    WhatIsPut(p);
    SpliceNothing(buffer[..], dataPos);
    hide Splice, LengthBytes, Le, Bound, ShapeOf, DataBytes, BinaryBytes;
    ok, end := true, dataPos;
    match p.kind {
      case Tiny =>
        end := PutBytes(buffer, end, Le(p.data.n, 1));
      case Short =>
        end := PutBytes(buffer, end, Le(p.data.n, 2));
      case Long =>
        end := PutBytes(buffer, end, Le(p.data.n, 4));
      case Longlong =>
        end := PutBytes(buffer, end, Le(p.data.n, 8));
      case Float =>
        end := PutBytes(buffer, end, p.data.bytes);
      case Double =>
        end := PutBytes(buffer, end, p.data.bytes);
      case TinyBlob | MediumBlob | LongBlob | Blob | Varchar | VarString | String | Decimal | NewDecimal =>
        end := PackBinary(buffer, end, p.data.bytes);
      case _ =>
        ok := false;
    }
  }

  lemma WhatIsPut(p: Param)
    requires Bound(p) && !p.kind.NullType?
    ensures match p.kind
      case Tiny => p.data.Number? && DataBytes(p) == Le(p.data.n, 1)
      case Short => p.data.Number? && DataBytes(p) == Le(p.data.n, 2)
      case Long => p.data.Number? && DataBytes(p) == Le(p.data.n, 4)
      case Longlong => p.data.Number? && DataBytes(p) == Le(p.data.n, 8)
      case Float => p.data.Memory? && DataBytes(p) == p.data.bytes
      case Double => p.data.Memory? && DataBytes(p) == p.data.bytes
      case TinyBlob | MediumBlob | LongBlob | Blob | Varchar | VarString | String | Decimal | NewDecimal =>
        p.data.Memory? && |p.data.bytes| <= MAX_LENGTH && DataBytes(p) == BinaryBytes(p.data.bytes)
      case _ => ShapeOf(p.kind).Unsupported? && DataBytes(p) == []
    ensures ShapeOf(p.kind).Unsupported? <==> p.kind !in SIZED && p.kind !in {Tiny, Short, Long, Longlong, Float, Double}
  {
    hide Le, LengthBytes, BinaryBytes;
  }

  method PutBytes(buffer: array<byte>, at: nat, piece: seq<byte>) returns (end: nat)
    requires at + |piece| <= buffer.Length
    modifies buffer
    ensures end == at + |piece| && buffer[..] == Splice(old(buffer[..]), at, piece)
  {
    Copy(buffer, at, piece);
    end := at + |piece|;
  }

  lemma SpliceNothing(s: seq<byte>, at: nat)
    requires at <= |s|
    ensures Splice(s, at, []) == s
  {
  }

  /** The bits of the first i parameters are set as they should be, the others not. */
  predicate MarksBelow(bitmap: seq<Octet>, params: seq<Param>, i: nat)
    requires i <= |params|
  {
    |bitmap| == ParamBitmapLength(|params|) &&
    forall j :: 0 <= j < 8 * |bitmap| ==> (BitAt(bitmap, j) <==> j < i && params[j].kind.NullType?)
  }

  lemma ZeroBitmap(bitmap: seq<Octet>, params: seq<Param>)
    requires |bitmap| == ParamBitmapLength(|params|) && forall k :: 0 <= k < |bitmap| ==> bitmap[k] == 0
    ensures MarksBelow(bitmap, params, 0)
  {
  }

  lemma MarkOne(bitmap: seq<Octet>, params: seq<Param>, i: nat)
    requires i < |params| && MarksBelow(bitmap, params, i)
    ensures i / 8 < |bitmap|
    ensures params[i].kind.NullType? ==>
      MarksBelow(bitmap[i / 8 := bitmap[i / 8] | Mask(i % 8)], params, i + 1)
    ensures !params[i].kind.NullType? ==> MarksBelow(bitmap, params, i + 1)
  {
    hide HasBit, Mask;
    if params[i].kind.NullType? {
      var marked := bitmap[i / 8 := bitmap[i / 8] | Mask(i % 8)];
      forall j | 0 <= j < 8 * |bitmap|
        ensures BitAt(marked, j) <==> BitAt(bitmap, j) || j == i
      {
        if j / 8 == i / 8 {
          SetBit(bitmap[i / 8], i % 8, j % 8);
          assert j % 8 == i % 8 <==> j == i;
        }
      }
    }
  }

  /** The buffer while the two cursors move: types before `dataStart`, values from
      it on, and the place of the bitmap still open. */
  ghost predicate Layout(buf: seq<byte>, id: nat, len: nat, flag: byte, types: seq<byte>, dataStart: nat,
                         data: seq<byte>)
  {
    && 10 + len + |types| <= dataStart && dataStart + |data| <= |buf|
    && buf[..9] == Head(id) && buf[9 + len] == flag
    && buf[10 + len..10 + len + |types|] == types
    && buf[dataStart..dataStart + |data|] == data
  }

  lemma SpliceKeeps(s: seq<byte>, at: nat, piece: seq<byte>, lo: nat, hi: nat)
    requires at + |piece| <= |s| && lo <= hi <= |s| && (hi <= at || at + |piece| <= lo)
    ensures Splice(s, at, piece)[lo..hi] == s[lo..hi]
  {
  }

  lemma SpliceExtends(s: seq<byte>, at: nat, piece: seq<byte>, lo: nat)
    requires at + |piece| <= |s| && lo <= at
    ensures Splice(s, at, piece)[lo..at + |piece|] == s[lo..at] + piece
  {
  }

  lemma AddType(buf: seq<byte>, id: nat, len: nat, flag: byte, types: seq<byte>, dataStart: nat, data: seq<byte>,
                t: seq<byte>)
    requires Layout(buf, id, len, flag, types, dataStart, data) && 10 + len + |types| + |t| <= dataStart
    ensures Layout(Splice(buf, 10 + len + |types|, t), id, len, flag, types + t, dataStart, data)
  {
    hide Splice, Head;
    var at := 10 + len + |types|;
    SpliceKeeps(buf, at, t, 0, 9);
    SpliceKeeps(buf, at, t, 9 + len, 10 + len);
    SpliceKeeps(buf, at, t, dataStart, dataStart + |data|);
    SpliceExtends(buf, at, t, 10 + len);
    var now := Splice(buf, at, t);
    assert now[..9] == now[0..9] && buf[..9] == buf[0..9];
    assert now[9 + len..10 + len][0] == buf[9 + len..10 + len][0];
    assert now[10 + len..10 + len + |types + t|] == types + t;
  }

  lemma AddData(buf: seq<byte>, id: nat, len: nat, flag: byte, types: seq<byte>, dataStart: nat, data: seq<byte>,
                d: seq<byte>)
    requires Layout(buf, id, len, flag, types, dataStart, data) && dataStart + |data| + |d| <= |buf|
    ensures Layout(Splice(buf, dataStart + |data|, d), id, len, flag, types, dataStart, data + d)
  {
    hide Splice, Head;
    var at := dataStart + |data|;
    SpliceKeeps(buf, at, d, 0, 9);
    SpliceKeeps(buf, at, d, 9 + len, 10 + len);
    SpliceKeeps(buf, at, d, 10 + len, 10 + len + |types|);
    SpliceExtends(buf, at, d, dataStart);
    var now := Splice(buf, at, d);
    assert now[..9] == now[0..9] && buf[..9] == buf[0..9];
    assert now[9 + len..10 + len][0] == buf[9 + len..10 + len][0];
    assert now[dataStart..dataStart + |data + d|] == data + d;
  }

  lemma AddBitmap(buf: seq<byte>, id: nat, flag: byte, types: seq<byte>, data: seq<byte>, wire: seq<byte>)
    requires Layout(buf, id, |wire|, flag, types, 10 + |wire| + |types|, data)
    ensures Splice(buf, 9, wire)[..10 + |wire| + |types| + |data|] == Head(id) + wire + ([flag] + types) + data
  {
    hide Splice, Head;
    var at, end := 9 + |wire|, 10 + |wire| + |types| + |data|;
    SpliceExtends(buf, 9, wire, 0);
    SpliceKeeps(buf, 9, wire, at, end);
    var r := Splice(buf, 9, wire);
    assert r[..end] == r[0..at] + r[at..end];
    assert buf[at..end] == [flag] + types + data;
    Regroup(Head(id) + wire, [flag] + types, data);
  }

  /** The parameters, an unbound one read as NULL. */
  function ValuesOf(params: seq<Option<Param>>): (r: seq<Param>)
    ensures |r| == |params|
    ensures forall i :: 0 <= i < |r| ==> r[i] == if params[i].Some? then params[i].value else NULL_PARAM
  {
    seq(|params|, i requires 0 <= i < |params| => if params[i].Some? then params[i].value else NULL_PARAM)
  }

  /** The first loop of drizzle_stmt_execute. */
  method Measure(params: seq<Option<Param>>) returns (unbound: Option<nat>, paramCount: nat, paramLengths: nat)
    ensures match unbound
      case Some(i) => i < |params| && params[i].None? && forall j :: 0 <= j < i ==> params[j].Some?
      case None =>
        (forall j :: 0 <= j < |params| ==> params[j].Some?) &&
        paramCount == NonNulls(ValuesOf(params), 0) && paramLengths == Lengths(ValuesOf(params), 0)
  {
    hide Length;
    ghost var values := ValuesOf(params);
    paramCount, paramLengths := |params|, 0;
    NonNullsFew(values, 0);
    var current := 0;
    while current < |params|
      invariant current <= |params| && forall j :: 0 <= j < current ==> params[j].Some?
      invariant paramCount == |params| - current + NonNulls(values, 0) - NonNulls(values, current)
      invariant paramLengths == Lengths(values, 0) - Lengths(values, current)
    {
      if params[current].None? {
        return Some(current), paramCount, paramLengths;
      }
      NonNullsFew(values, current + 1);
      if params[current].value.kind.NullType? {
        paramCount := paramCount - 1;
      } else {
        paramLengths := paramLengths + (Length(params[current].value) + 8);
      }
      current := current + 1;
    }
    unbound := None;
  }

  lemma {:induction false} NonNullsFew(params: seq<Param>, i: nat)
    requires i <= |params|
    ensures NonNulls(params, i) <= |params| - i
    ensures NonNulls(params, i) <= NonNulls(params, 0)
    decreases |params| - i
  {
    if i < |params| {
      NonNullsFew(params, i + 1);
    }
    NonNullsGrow(params, i);
  }

  lemma {:induction false} NonNullsGrow(params: seq<Param>, i: nat)
    requires i <= |params|
    ensures NonNulls(params, i) <= NonNulls(params, 0)
  {
    if i > 0 {
      NonNullsGrow(params, i - 1);
    }
  }

  /** The part of drizzle_stmt_execute in front of the second loop. */
  method PutHead(buffer: array<byte>, id: nat, length: nat, flag: byte, ghost dataStart: nat) returns (bufferPos: nat)
    requires 10 + length <= dataStart <= buffer.Length
    modifies buffer
    ensures bufferPos == 10 + length
    ensures Layout(buffer[..], id, length, flag, [], dataStart, [])
  {
    hide Le;
    Copy(buffer, 0, Le(id, 4));
    buffer[4] := 0;
    Copy(buffer, 5, Le(1, 4));
    bufferPos := 9 + length;
    buffer[bufferPos] := flag;
    bufferPos := bufferPos + 1;
    assert buffer[..9] == Le(id, 4) + [0] + Le(1, 4);
  }

  /** The body of the second loop: the type of parameter i goes in at one cursor,
      its value at the other, and a NULL marks its bit. */
  method PutParam(buffer: array<byte>, nullBitmap: array<Octet>, newBind: bool, p: Param, i: nat,
                  bufferPos: nat, dataPos: nat, ghost id: nat, ghost flag: byte, ghost values: seq<Param>,
                  ghost types: seq<byte>, ghost dataStart: nat, ghost data: seq<byte>)
    returns (ok: bool, nextPos: nat, nextData: nat, ghost typesNow: seq<byte>, ghost dataNow: seq<byte>)
    requires i < |values| && p == values[i] && Bound(p) && MarksBelow(nullBitmap[..], values, i)
    requires Layout(buffer[..], id, nullBitmap.Length, flag, types, dataStart, data)
    requires bufferPos == 10 + nullBitmap.Length + |types| && dataPos == dataStart + |data|
    requires newBind && !p.kind.NullType? ==> bufferPos + 2 <= dataStart
    requires dataPos + |DataBytes(p)| <= buffer.Length
    modifies buffer, nullBitmap
    ensures ok <==> p.kind.NullType? || !ShapeOf(p.kind).Unsupported?
    ensures ok ==> MarksBelow(nullBitmap[..], values, i + 1)
    ensures typesNow == types + if newBind && !p.kind.NullType? then TypeBytes(p) else []
    ensures dataNow == data + DataBytes(p)
    ensures nextPos == 10 + nullBitmap.Length + |typesNow| && nextData == dataStart + |dataNow|
    ensures Layout(buffer[..], id, nullBitmap.Length, flag, typesNow, dataStart, dataNow)
  {
    hide Layout, MarksBelow, DataBytes, TypeBytes, Splice, Mask;
    LayoutFits(buffer[..], id, nullBitmap.Length, flag, types, dataStart, data);
    MarkOne(nullBitmap[..], values, i);
    ok, nextPos, nextData, typesNow, dataNow := true, bufferPos, dataPos, types + [], data;
    if newBind && !p.kind.NullType? {
      AddType(buffer[..], id, nullBitmap.Length, flag, types, dataStart, data, TypeBytes(p));
      Copy(buffer, nextPos, TypeBytes(p));
      nextPos := nextPos + 2;
      typesNow := types + TypeBytes(p);
    } else {
      assert types + [] == types;
    }
    if p.kind.NullType? {
      NullHasNoData(p);
      nullBitmap[i / 8] := nullBitmap[i / 8] | Mask(i % 8);
      assert data + [] == data;
    } else {
      AddData(buffer[..], id, nullBitmap.Length, flag, typesNow, dataStart, data, DataBytes(p));
      ok, nextData := PutData(p, buffer, dataPos);
      dataNow := data + DataBytes(p);
    }
  }

  lemma LayoutFits(buf: seq<byte>, id: nat, len: nat, flag: byte, types: seq<byte>, dataStart: nat, data: seq<byte>)
    requires Layout(buf, id, len, flag, types, dataStart, data)
    ensures 10 + len + |types| <= dataStart && dataStart + |data| <= |buf|
  {
  }

  function TypesIf(newBind: bool, params: seq<Param>, i: nat): seq<byte>
    requires i <= |params|
  {
    if newBind then Types(params, i) else []
  }

  lemma PutStep(newBind: bool, values: seq<Param>, i: nat, types: seq<byte>, data: seq<byte>)
    requires i < |values| && AllBound(values)
    requires types + TypesIf(newBind, values, i) == TypesIf(newBind, values, 0)
    requires data + Datas(values, i) == Datas(values, 0)
    ensures
      var more := if newBind && !values[i].kind.NullType? then TypeBytes(values[i]) else [];
      types + more + TypesIf(newBind, values, i + 1) == TypesIf(newBind, values, 0)
    ensures data + DataBytes(values[i]) + Datas(values, i + 1) == Datas(values, 0)
  {
    hide TypeBytes, DataBytes, Bound;
    var more := if newBind && !values[i].kind.NullType? then TypeBytes(values[i]) else [];
    Regroup(types, more, TypesIf(newBind, values, i + 1));
    Regroup(data, DataBytes(values[i]), Datas(values, i + 1));
    assert [] + TypesIf(newBind, values, i + 1) == TypesIf(newBind, values, i + 1);
  }

  /** memset of the bitmap. */
  method ClearBitmap(nullBitmap: array<Octet>, ghost values: seq<Param>)
    requires nullBitmap.Length == ParamBitmapLength(|values|)
    modifies nullBitmap
    ensures MarksBelow(nullBitmap[..], values, 0)
  {
    forall k | 0 <= k < nullBitmap.Length {
      nullBitmap[k] := 0;
    }
    ZeroBitmap(nullBitmap[..], values);
  }

  /** The second loop.  The type cursor stops where the value cursor began. */
  method PutParams(buffer: array<byte>, nullBitmap: array<Octet>, newBind: bool, params: seq<Option<Param>>,
                   start: nat, dataStart: nat, ghost id: nat, ghost flag: byte) returns (ok: bool, dataPos: nat)
    requires forall j :: 0 <= j < |params| ==> params[j].Some?
    requires var values := ValuesOf(params);
      && AllBound(values) && MarksBelow(nullBitmap[..], values, 0)
      && Layout(buffer[..], id, nullBitmap.Length, flag, [], dataStart, [])
      && start == 10 + nullBitmap.Length && dataStart == start + |TypesIf(newBind, values, 0)|
      && dataStart + |Datas(values, 0)| <= buffer.Length
    modifies buffer, nullBitmap
    ensures var values := ValuesOf(params);
      && (ok <==> AllSupported(values))
      && (ok ==>
            MarksBelow(nullBitmap[..], values, |values|) && dataPos == dataStart + |Datas(values, 0)| &&
            Layout(buffer[..], id, nullBitmap.Length, flag, TypesIf(newBind, values, 0), dataStart, Datas(values, 0)))
  {
    hide Types, Datas, DataBytes, TypeBytes, ShapeOf, IsTemporal, Layout, MarksBelow;
    ghost var values := ValuesOf(params);
    ghost var types, data := [], [];
    var bufferPos := start;
    dataPos := dataStart;
    assert [] + TypesIf(newBind, values, 0) == TypesIf(newBind, values, 0);
    assert [] + Datas(values, 0) == Datas(values, 0);
    var current := 0;
    while current < |params|
      invariant current <= |params|
      invariant MarksBelow(nullBitmap[..], values, current)
      invariant Layout(buffer[..], id, nullBitmap.Length, flag, types, dataStart, data)
      invariant types + TypesIf(newBind, values, current) == TypesIf(newBind, values, 0)
      invariant data + Datas(values, current) == Datas(values, 0)
      invariant bufferPos == 10 + nullBitmap.Length + |types| && dataPos == dataStart + |data|
      invariant forall j :: 0 <= j < current ==> values[j].kind.NullType? || !ShapeOf(values[j].kind).Unsupported?
    {
      PutStep(newBind, values, current, types, data);
      ok, bufferPos, dataPos, types, data :=
        PutParam(buffer, nullBitmap, newBind, params[current].value, current, bufferPos, dataPos, id, flag, values,
                 types, dataStart, data);
      if !ok {
        return;
      }
      current := current + 1;
    }
    ok := true;
    NothingLeft(newBind, values, types, data);
  }

  /** drizzle_stmt_execute up to the command it sends.  The cursors never cross, and
      the payload is what Payload says, with a bitmap that marks the NULLs.  `size` is
      that of the buffer. */
  method BuildPayload(id: nat, params: seq<Option<Param>>, nullBitmap: array<Octet>, newBind: bool)
    returns (r: Executed, size: nat)
    requires nullBitmap.Length == ParamBitmapLength(|params|) && AllBound(ValuesOf(params))
    requires Huge(ValuesOf(params), 0) <=
      Spares(ValuesOf(params), 0) + if newBind then 0 else 2 * NonNulls(ValuesOf(params), 0)
    modifies nullBitmap
    ensures var values := ValuesOf(params);
      match r
      case NotBound(i) => i < |params| && params[i].None? && forall j :: 0 <= j < i ==> params[j].Some?
      case UnknownType => (forall j :: 0 <= j < |params| ==> params[j].Some?) && !AllSupported(values)
      case Written(payload) =>
        (forall j :: 0 <= j < |params| ==> params[j].Some?) && AllSupported(values) &&
        MarksNulls(nullBitmap[..], values) && payload == Payload(id, nullBitmap[..], newBind, values)
    ensures !r.NotBound? ==> size == Computed(ValuesOf(params))
  {
    hide Types, Datas, NonNulls, Lengths, Huge, Spares, AllBound, AllSupported, Layout, MarksBelow, MarksNulls, Head;
    ghost var values := ValuesOf(params);
    var unbound, paramCount, paramLengths := Measure(params);
    if unbound.Some? {
      return NotBound(unbound.value), 0;
    }
    size := 4 + 1 + 4 + nullBitmap.Length + 1 + paramCount * 2 + paramLengths;
    var buffer := new byte[size];
    ghost var dataStart := 10 + nullBitmap.Length + if newBind then paramCount * 2 else 0;
    Room(values, newBind, dataStart);
    var flag: byte := if newBind then 1 else 0;
    var bufferPos := PutHead(buffer, id, nullBitmap.Length, flag, dataStart);
    var dataPos := if newBind then bufferPos + paramCount * 2 else bufferPos;
    ghost var head := buffer[..];
    ClearBitmap(nullBitmap, values);
    assert buffer[..] == head;
    var ok;
    ok, dataPos := PutParams(buffer, nullBitmap, newBind, params, bufferPos, dataPos, id, flag);
    if !ok {
      return UnknownType, size;
    }
    AllMarked(nullBitmap[..], values);
    AddBitmap(buffer[..], id, flag, TypesIf(newBind, values, 0), Datas(values, 0), WireOf(nullBitmap[..]));
    Copy(buffer, 9, WireOf(nullBitmap[..]));
    assert [1] + Types(values, 0) == [1] + TypesIf(true, values, 0) && [0] == [0] + TypesIf(false, values, 0);
    r := Written(buffer[..dataPos]);
  }

  lemma AllMarked(bitmap: seq<Octet>, params: seq<Param>)
    requires MarksBelow(bitmap, params, |params|)
    ensures MarksNulls(bitmap, params)
  {
  }

  lemma NothingLeft(newBind: bool, values: seq<Param>, types: seq<byte>, data: seq<byte>)
    requires AllBound(values)
    requires types + TypesIf(newBind, values, |values|) == TypesIf(newBind, values, 0)
    requires data + Datas(values, |values|) == Datas(values, 0)
    ensures types == TypesIf(newBind, values, 0) && data == Datas(values, 0)
  {
    assert types + [] == types && data + [] == data;
  }

  /** The gap between the cursors takes the types exactly, and the values fit behind it. */
  lemma Room(values: seq<Param>, newBind: bool, dataStart: nat)
    requires AllBound(values)
    requires Huge(values, 0) <= Spares(values, 0) + if newBind then 0 else 2 * NonNulls(values, 0)
    requires dataStart == 10 + ParamBitmapLength(|values|) + if newBind then 2 * NonNulls(values, 0) else 0
    ensures dataStart == 10 + ParamBitmapLength(|values|) + |TypesIf(newBind, values, 0)|
    ensures dataStart + |Datas(values, 0)| <= Computed(values)
  {
    TypesSize(values, 0);
    DatasLength(values, 0);
  }
}
