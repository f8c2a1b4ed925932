/** The functions that take a whole packet: drizzle_state_result_read
    (src/result.cc), drizzle_state_column_read (src/column.cc),
    drizzle_state_binlog_read (src/binlog.cc), and drizzle_unpack_string and
    drizzle_check_unpack_error (src/pack.cc) beneath them. */
module Consume {
  import opened Bytes
  import opened Pack
  import opened StateStack
  import opened Connection

  // ------------------------------------------------------------------- strings

  datatype StringRead =
    | Str(value: seq<byte>, used: nat)
    | TooLong(used: nat)
    | Cut(used: nat)
    | NullString
    | WaitLength

  /** What drizzle_unpack_string makes of the unread bytes. */
  function ReadString(w: seq<byte>, size: nat): (r: StringRead)
    requires w != [] && (DecodeLength(w).Length? ==> DecodeLength(w).used <= size)
    ensures r.Str? ==> r.used <= |w| && r.used <= size
  {
    match DecodeLength(w)
    case NullSize => NullString
    case Wait => WaitLength
    case Length(value, used) =>
      if value > size - used then TooLong(used)
      else if value > |w| - used then Cut(used)
      else Str(w[used..used + value], used + value)
  }

  lemma StringRoundTrip(v: seq<byte>, more: seq<byte>, rest: seq<byte>)
    requires |v| <= MAX_LENGTH
    ensures var w := (BinaryBytes(v) + more) + rest;
      && DecodeLength(w).Length? && DecodeLength(w).used <= |BinaryBytes(v) + more|
      && ReadString(w, |BinaryBytes(v) + more|) == Str(v, |BinaryBytes(v)|)
      && w[|BinaryBytes(v)|..] == more + rest
  {
    hide LengthBytes, DecodeLength;
    var w, head := (BinaryBytes(v) + more) + rest, LengthBytes(|v|);
    assert w == head + (v + (more + rest));
    LengthRoundTrip(|v|, v + (more + rest));
    assert w[|head|..|head| + |v|] == v;
  }

  /** The packet at the front of the unread bytes is `packet`. */
  ghost predicate Facing(con: Connection, packet: seq<byte>, rest: seq<byte>)
    reads con`buffer, con`bufferPtr, con`bufferSize, con`packetSize, con.buffer
  {
    con.Valid() && con.Window() == packet + rest && con.packetSize == |packet|
  }

  /** A length-encoded number in front of the rest of the packet. */
  method TakeNumber(con: Connection, ghost n: nat, ghost more: seq<byte>, ghost rest: seq<byte>) returns (value: nat)
    requires n <= MAX_LENGTH && Facing(con, LengthBytes(n) + more, rest)
    modifies con`bufferPtr, con`bufferSize, con`packetSize
    ensures value == n && Facing(con, more, rest)
  {
    hide Connection.Window, Allocation, LengthBytes, DecodeLength;
    NumberAhead(n, more, rest);
    var r := con.UnpackLength();
    value := r.value;
  }

  /** Bytes of fixed size in front of the rest of the packet are skipped. */
  method TakeBytes(con: Connection, ghost front: seq<byte>, k: nat, ghost more: seq<byte>, ghost rest: seq<byte>)
    requires k == |front| && Facing(con, front + more, rest)
    modifies con`bufferPtr, con`bufferSize, con`packetSize
    ensures Facing(con, more, rest)
  {
    hide Connection.Window, Allocation;
    BytesAhead(front, more, rest);
    con.Skip(k);
  }

  /** drizzle_unpack_string on a string in front of the rest of the packet; its
      three failures do not happen. */
  method UnpackString(con: Connection, max: nat, ghost v: seq<byte>, ghost more: seq<byte>, ghost rest: seq<byte>)
    returns (ret: Ret, text: seq<byte>)
    requires max > 1 && |v| <= MAX_LENGTH && Facing(con, BinaryBytes(v) + more, rest)
    modifies con`bufferPtr, con`bufferSize, con`packetSize
    ensures ret == Ok && text == Clip(v, max) && Facing(con, more, rest)
  {
    hide Connection.Window, Allocation, DecodeLength, LengthBytes, ReadString, Connection.Slice, Clip;
    ghost var w := con.Window();
    StringRoundTrip(v, more, rest);
    ReadStringIs(w, con.packetSize);
    var r := con.UnpackLength();
    match r {
      case NullSize =>
        return NullLength, [];
      case Wait =>
        return IoWait, [];
      case Length(length, _) =>
        if length > con.packetSize {
          return UnexpectedData, [];
        }
        if length > con.bufferSize {
          return IoWait, [];
        }
        text := CopyText(con, length, max);
        DropTwice(w, r.used, r.used + length);
        con.Skip(length);
        return Ok, text;
    }
  }

  /** The bytes of a string are copied into a field of `max` bytes. */
  method CopyText(con: Connection, length: nat, max: nat) returns (text: seq<byte>)
    requires con.Valid() && length <= con.bufferSize && max > 1
    ensures text == Clip(con.Window()[..length], max)
  {
    hide Connection.Window;
    ClipIs(con.Window(), length, max);
    text := if length < max then con.Slice(0, length) else con.Slice(0, max - 1);
  }

  // ------------------------------------------------------------------- replies

  const MAX_INFO := 2048

  lemma NoText()
    ensures Text([], MAX_INFO) == []
  {
  }

  /** packet_size is a uint32_t. */
  function Wrapped32(n: int): nat {
    n % 0x1_0000_0000
  }

  /** Where buffer_ptr stands behind an error packet of p bytes: at its end exactly when
      it has nine bytes or more, and 2^32 bytes further on otherwise. */
  lemma ErrorPacketEnds(ptr: nat, held: nat, p: nat, length: nat)
    requires ptr + held <= length && Allocation(length) && p <= held
    ensures p >= 9 ==> ptr + 9 + Wrapped32(p - 9) == ptr + p
    ensures ptr + 9 + Wrapped32(p - 9) <= length <==> p >= 9
  {
    if p < 9 {
      assert Wrapped32(p - 9) == p - 9 + 0x1_0000_0000;
    }
  }

  /** A length-encoded number, or what passes for one. */
  method TakeAny(con: Connection, ghost packet: seq<byte>, ghost rest: seq<byte>) returns (value: nat)
    requires Facing(con, packet, rest) && packet != [] && Taken(packet + rest) <= |packet|
    modifies con`bufferPtr, con`bufferSize, con`packetSize
    ensures value == Number(packet + rest) && Facing(con, packet[Taken(packet + rest)..], rest)
  {
    hide Connection.Window, Allocation, DecodeLength;
    var r := con.UnpackLength();
    value := if r.Length? then r.value else 0;
    assert (packet + rest)[Taken(packet + rest)..] == packet[Taken(packet + rest)..] + rest;
  }

  /** The two 2-byte numbers in front of the rest of the packet, whatever they are. */
  method TakePair(con: Connection, ghost packet: seq<byte>, ghost rest: seq<byte>) returns (x: nat, y: nat)
    requires Facing(con, packet, rest) && |packet| >= 4
    modifies con`bufferPtr, con`bufferSize, con`packetSize
    ensures x == LeValue(packet[0..2]) && y == LeValue(packet[2..4]) && Facing(con, packet[4..], rest)
  {
    hide Connection.Window, Allocation, LeValue;
    assert (packet + rest)[0..0 + 2] == packet[0..2] && (packet + rest)[2..2 + 2] == packet[2..4];
    assert packet == packet[..4] + packet[4..];
    x := con.GetLe(0, 2);
    y := con.GetLe(2, 2);
    TakeBytes(con, packet[..4], 4, packet[4..], rest);
  }

  /** What a server answers to a command. */
  datatype Reply =
    | OkReply(affected: nat, insertId: nat, status: nat, warnings: nat, more: seq<byte>)
    | PrepareOkReply(id: nat, columns: nat, params: nat, warnings: nat, more: seq<byte>)
    | EofReply(warnings: nat, status: nat, more: seq<byte>)
    | ErrorReply(code: nat, sqlstate: seq<byte>, message: seq<byte>)
    | CountReply(columns: nat, more: seq<byte>)
    /** Anything that starts like an OK packet and is long enough to pass for one. */
    | LikeOk(rest: seq<byte>)
    /** Any error packet of nine bytes or more. */
    | AnyError(rest: seq<byte>)

  predicate ReplyFits(r: Reply, prepare: bool) {
    match r
    case OkReply(a, i, s, w, _) => !prepare && a <= MAX_LENGTH && i <= MAX_LENGTH && s < 65536 && w < 65536
    case PrepareOkReply(id, c, p, w, _) => prepare && id < 0x1_0000_0000 && c < 65536 && p < 65536 && w < 65536
    case EofReply(w, s, _) => w < 65536 && s < 65536
    case ErrorReply(c, q, _) => c < 65536 && |q| == 5
    case CountReply(c, _) => 0 < c < 0x100_0000
    case LikeOk(t) => !prepare && |t| >= 23
    case AnyError(t) => |t| >= 8
  }

  function ReplyBytes(r: Reply): (s: seq<byte>)
    ensures s != []
  {
    match r
    case OkReply(a, i, s, w, more) => [0] + (LengthBytes(a) + (LengthBytes(i) + ((Le(s, 2) + Le(w, 2)) + more)))
    case PrepareOkReply(id, c, p, w, more) => [0] + (Le(id, 4) + Le(c, 2) + Le(p, 2) + [0] + Le(w, 2) + more)
    case EofReply(w, s, more) => [254] + Le(w, 2) + Le(s, 2) + more
    case ErrorReply(code, q, message) => [255] + Le(code, 2) + [35] + q + message
    case CountReply(c, more) => LengthBytes(c) + more
    case LikeOk(t) => [0] + t
    case AnyError(t) => [255] + t
  }

  predicate IsError(r: Reply) {
    r.ErrorReply? || r.AnyError?
  }

  /** The bytes drizzle_unpack_length takes, and the number it returns. */
  function Taken(w: seq<byte>): (n: nat)
    requires w != []
    ensures n <= 9
  {
    match DecodeLength(w)
    case Length(_, used) => used
    case NullSize => 1
    case Wait => 0
  }

  function Number(w: seq<byte>): nat
    requires w != []
  {
    match DecodeLength(w)
    case Length(value, _) => value
    case _ => 0
  }

  /** What is behind the two numbers of an OK packet. */
  function BehindNumbers(t: seq<byte>, rest: seq<byte>): (r: seq<byte>)
    requires NumbersFit(t, rest)
    ensures |r| >= 4
  {
    var u := t[Taken(t + rest)..];
    u[Taken(u + rest)..]
  }

  /** Two numbers and four more bytes lie in the packet. */
  predicate NumbersFit(t: seq<byte>, rest: seq<byte>) {
    && t != [] && Taken(t + rest) < |t|
    && var u := t[Taken(t + rest)..]; Taken(u + rest) + 4 <= |u|
  }

  lemma LongEnough(t: seq<byte>, rest: seq<byte>)
    requires |t| >= 23
    ensures NumbersFit(t, rest)
  {
    hide DecodeLength;
  }

  lemma OkNumbers(r: Reply, rest: seq<byte>)
    requires r.OkReply? && ReplyFits(r, false)
    ensures var t := ReplyBytes(r)[1..];
      && ReplyBytes(r) == [0] + t && NumbersFit(t, rest)
      && Number(t + rest) == r.affected && Number(t[Taken(t + rest)..] + rest) == r.insertId
      && BehindNumbers(t, rest) == (Le(r.status, 2) + Le(r.warnings, 2)) + r.more
  {
    hide LengthBytes, DecodeLength, Le;
    var fixed := (Le(r.status, 2) + Le(r.warnings, 2)) + r.more;
    var u := LengthBytes(r.insertId) + fixed;
    var t := LengthBytes(r.affected) + u;
    assert ReplyBytes(r)[1..] == t;
    NumberAhead(r.affected, u, rest);
    NumberAhead(r.insertId, fixed, rest);
    assert t[|LengthBytes(r.affected)|..] == u && u[|LengthBytes(r.insertId)|..] == fixed;
  }

  lemma TwoLe(a: nat, b: nat, w: seq<byte>)
    requires a < 65536 && b < 65536 && |w| >= 4 && w[..4] == Le(a, 2) + Le(b, 2)
    ensures LeValue(w[0..2]) == a && LeValue(w[2..4]) == b
  {
    hide Le, LeValue;
    Spans();
    LeRoundTrip(a, 2);
    LeRoundTrip(b, 2);
    assert w[0..2] == w[..4][..2] == Le(a, 2) && w[2..4] == w[..4][2..] == Le(b, 2);
  }

  lemma PrepareOkBytes(r: Reply)
    requires r.PrepareOkReply?
    ensures var fixed := Le(r.id, 4) + Le(r.columns, 2) + Le(r.params, 2) + [0] + Le(r.warnings, 2);
      |fixed| == 11 && ReplyBytes(r) == [0] + (fixed + r.more)
  {
    hide Le;
  }

  lemma PrepareSlices(a: seq<byte>, b: seq<byte>, c: seq<byte>, d: seq<byte>, e: seq<byte>, w: seq<byte>)
    requires |a| == 4 && |b| == |c| == |e| == 2 && |d| == 1
    requires |w| >= 11 && w[..11] == a + b + c + d + e
    ensures w[0..4] == a && w[4..6] == b && w[6..8] == c && w[9..11] == e
  {
    var t := w[..11];
    assert w[0..4] == t[0..4] && w[4..6] == t[4..6] && w[6..8] == t[6..8] && w[9..11] == t[9..11];
  }

  lemma PrepareParts(id: nat, c: nat, p: nat, n: nat, w: seq<byte>)
    requires id < 0x1_0000_0000 && c < 65536 && p < 65536 && n < 65536
    requires |w| >= 11 && w[..11] == Le(id, 4) + Le(c, 2) + Le(p, 2) + [0] + Le(n, 2)
    ensures LeValue(w[0..4]) == id && LeValue(w[4..6]) == c && LeValue(w[6..8]) == p && LeValue(w[9..11]) == n
  {
    hide Le, LeValue;
    Spans();
    PrepareSlices(Le(id, 4), Le(c, 2), Le(p, 2), [0], Le(n, 2), w);
    LeRoundTrip(id, 4);
    LeRoundTrip(c, 2);
    LeRoundTrip(p, 2);
    LeRoundTrip(n, 2);
  }

  /** The result struct, as far as replies go. */
  class ReplyReader {
    const con: Connection
    /** The command is DRIZZLE_COMMAND_STMT_PREPARE. */
    const prepare: bool
    var errorCode: nat
    var sqlstate: seq<byte>
    var status: nat
    var warningCount: nat
    var affectedRows: nat
    var insertId: nat
    var columnCount: nat
    var eofPacket: bool
    var statementId: nat
    var paramCount: nat

    constructor (con: Connection, prepare: bool)
      ensures this.con == con && this.prepare == prepare && !eofPacket
    {
      this.con := con;
      this.prepare := prepare;
      errorCode, sqlstate, status, warningCount := 0, [], 0, 0;
      affectedRows, insertId, columnCount, eofPacket := 0, 0, 0, false;
      statementId, paramCount := 0, 0;
    }

    /** drizzle_check_unpack_error: an error packet is taken whole.  The first byte is
        looked at even when the packet is empty.  With fewer than nine bytes packet_size
        wraps and buffer_ptr leaves the buffer (ErrorPacketEnds); `wild` says so, and the
        model stops short of moving it. */
    method CheckUnpackError() returns (isError: bool, wild: bool)
      requires con.Valid() && con.packetSize <= con.bufferSize && con.bufferPtr < con.buffer.Length
      modifies this`errorCode, this`sqlstate, con`bufferPtr, con`bufferSize, con`packetSize
      ensures con.Valid() && (isError <==> old(con.First()) == 255)
      ensures wild <==> isError && old(con.packetSize) < 9
      ensures isError && !wild ==> errorCode == old(con.GetLe(1, 2)) && sqlstate == old(con.Slice(4, 5))
      ensures isError && !wild ==> con.Window() == old(con.Window()[con.packetSize..])
      ensures isError ==> con.packetSize == 0
      ensures !isError || wild ==> con.Window() == old(con.Window()) && con.bufferPtr == old(con.bufferPtr)
      ensures !isError ==> con.packetSize == old(con.packetSize)
    {
      hide Connection.Window, Allocation;
      if con.First() != 255 {
        return false, false;
      }
      wild := con.packetSize < 9;
      if wild {
        con.packetSize := 0;
      } else {
        TakeErrorPacket();
      }
      isError := true;
    }

    method TakeErrorPacket()
      requires con.Valid() && 9 <= con.packetSize <= con.bufferSize
      modifies this`errorCode, this`sqlstate, con`bufferPtr, con`bufferSize, con`packetSize
      ensures con.Valid() && con.packetSize == 0 && con.Window() == old(con.Window()[con.packetSize..])
      ensures errorCode == old(con.GetLe(1, 2)) && sqlstate == old(con.Slice(4, 5))
    {
      hide Connection.Window, Connection.GetLe, Connection.Slice, Allocation;
      DropTwice(con.Window(), 9, con.packetSize);
      errorCode := con.GetLe(1, 2);
      sqlstate := con.Slice(4, 5);
      con.Skip(9);
      con.Skip(con.packetSize);
    }

    /** The branch for a packet that starts with 0, for a prepared statement.  The
        source moves buffer_ptr, buffer_size and packet_size in separate steps. */
    method TakePrepareOk(ghost r: Reply, ghost rest: seq<byte>)
      requires r.PrepareOkReply? && ReplyFits(r, true) && Facing(con, ReplyBytes(r), rest)
      modifies this`statementId, this`columnCount, this`paramCount, this`warningCount
      modifies con`bufferPtr, con`bufferSize, con`packetSize
      ensures Facing(con, r.more, rest)
      ensures statementId == r.id && columnCount == r.columns && paramCount == r.params && warningCount == r.warnings
    {
      hide Connection.Window, Allocation, Le, LeValue, Facing, ReplyBytes, ReplyFits;
      ghost var fixed := Le(r.id, 4) + Le(r.columns, 2) + Le(r.params, 2) + [0] + Le(r.warnings, 2);
      PrepareOkBytes(r);
      TakeBytes(con, [0], 1, fixed + r.more, rest);
      TakePrepared(r, rest);
      TakeBytes(con, fixed, 11, r.more, rest);
    }

    /** The numbers in a prepare-OK packet. */
    method TakePrepared(ghost r: Reply, ghost rest: seq<byte>)
      requires r.PrepareOkReply? && ReplyFits(r, true)
      requires Facing(con, Le(r.id, 4) + Le(r.columns, 2) + Le(r.params, 2) + [0] + Le(r.warnings, 2) + r.more, rest)
      modifies this`statementId, this`columnCount, this`paramCount, this`warningCount
      ensures statementId == r.id && columnCount == r.columns && paramCount == r.params && warningCount == r.warnings
    {
      hide Connection.Window, Allocation, Le, LeValue;
      ghost var fixed := Le(r.id, 4) + Le(r.columns, 2) + Le(r.params, 2) + [0] + Le(r.warnings, 2);
      FixedAhead(fixed, r.more, rest);
      PrepareParts(r.id, r.columns, r.params, r.warnings, con.Window());
      statementId := con.GetLe(0, 4);
      columnCount := con.GetLe(4, 2);
      paramCount := con.GetLe(6, 2);
      warningCount := con.GetLe(9, 2);
    }

    /** The branch for a packet that starts with 0, for any other command. */
    method TakeOk(ghost t: seq<byte>, ghost rest: seq<byte>)
      requires NumbersFit(t, rest) && Facing(con, [0] + t, rest)
      modifies this`affectedRows, this`insertId, this`status, this`warningCount
      modifies con`bufferPtr, con`bufferSize, con`packetSize
      ensures var behind := BehindNumbers(t, rest);
        && Facing(con, behind[4..], rest)
        && affectedRows == Number(t + rest) && insertId == Number(t[Taken(t + rest)..] + rest)
        && status == LeValue(behind[0..2]) && warningCount == LeValue(behind[2..4])
    {
      hide Connection.Window, Allocation, LeValue, Taken, Number;
      TakeBytes(con, [0], 1, t, rest);
      affectedRows := TakeAny(con, t, rest);
      ghost var u := t[Taken(t + rest)..];
      insertId := TakeAny(con, u, rest);
      status, warningCount := TakePair(con, u[Taken(u + rest)..], rest);
    }

    /** The branch for an EOF packet. */
    method TakeEof(ghost r: Reply, ghost rest: seq<byte>)
      requires r.EofReply? && ReplyFits(r, false) && Facing(con, ReplyBytes(r), rest)
      modifies this`eofPacket, this`status, this`warningCount
      modifies con`bufferPtr, con`bufferSize, con`packetSize
      ensures Facing(con, r.more, rest)
      ensures eofPacket && status == r.status && warningCount == r.warnings
    {
      hide Connection.Window, Allocation, Le, LeValue;
      ghost var fixed := [254] + Le(r.warnings, 2) + Le(r.status, 2);
      eofPacket := true;
      warningCount, status := ReadEof(con, r.warnings, r.status, r.more, rest);
      TakeBytes(con, fixed, 5, r.more, rest);
    }

    /** The branch for an error packet. */
    method TakeError(ghost r: Reply, ghost rest: seq<byte>) returns (isError: bool)
      requires ReplyFits(r, prepare) && Facing(con, ReplyBytes(r), rest)
      modifies this`errorCode, this`sqlstate, con`bufferPtr, con`bufferSize, con`packetSize
      ensures isError <==> IsError(r)
      ensures isError ==> Facing(con, [], rest) && Holds(r)
      ensures !isError ==> Facing(con, ReplyBytes(r), rest)
    {
      hide Connection.Window, Allocation, Le, LeValue, LengthBytes;
      ReplyStart(r, prepare, rest);
      if r.ErrorReply? {
        ErrorParts(r, rest);
      } else if r.AnyError? {
        AnyErrorParts(r.rest, rest);
      }
      var wild;
      isError, wild := CheckUnpackError();
    }

    /** The end of drizzle_state_result_read: the text behind is copied and skipped. */
    method TakeInfo(ghost more: seq<byte>, ghost rest: seq<byte>) returns (info: seq<byte>)
      requires Facing(con, more, rest)
      modifies con`bufferPtr, con`bufferSize, con`packetSize
      ensures Facing(con, [], rest) && info == Text(more, MAX_INFO)
    {
      hide Connection.Window, Allocation, Clip;
      info := [];
      NoText();
      BytesAhead([], more, rest);
      FixedAhead(more, [], rest);
      assert more + [] == more && [] + more == more;
      if con.packetSize > 0 {
        var text := con.Slice(0, con.packetSize);
        info := Text(text, MAX_INFO);
        TakeBytes(con, more, con.packetSize, [], rest);
      }
    }

    /** One byte of message size in front of the message of an OK packet. */
    method TakeMessageSize(ghost more: seq<byte>, ghost rest: seq<byte>)
      requires Facing(con, more, rest)
      modifies con`bufferPtr, con`bufferSize, con`packetSize
      ensures Facing(con, if more == [] then [] else more[1..], rest)
    {
      if con.packetSize > 0 {
        assert more == more[..1] + more[1..];
        TakeBytes(con, more[..1], 1, more[1..], rest);
      }
    }

    /** The fields hold what the reply says. */
    ghost predicate Holds(r: Reply)
      reads this
    {
      match r
      case OkReply(a, i, s, w, _) => affectedRows == a && insertId == i && status == s && warningCount == w
      case PrepareOkReply(id, c, p, w, _) =>
        statementId == id && columnCount == c && paramCount == p && warningCount == w
      case EofReply(w, s, _) => eofPacket && warningCount == w && status == s
      case ErrorReply(c, q, _) => errorCode == c && sqlstate == q
      case CountReply(c, _) => columnCount == c % 65536
      case LikeOk(_) => true
      case AnyError(t) => |t| >= 8 && errorCode == LeValue(t[0..2]) && sqlstate == t[3..8]
    }

    /** The branches of drizzle_state_result_read. */
    method TakeReply(ghost r: Reply, ghost rest: seq<byte>) returns (ret: Ret, ghost more: seq<byte>)
      requires ReplyFits(r, prepare) && Facing(con, ReplyBytes(r), rest)
      modifies this, con`bufferPtr, con`bufferSize, con`packetSize
      ensures Holds(r) && Facing(con, more, rest) && (eofPacket <==> old(eofPacket) || r.EofReply?)
      ensures ret == if IsError(r) then ErrorCode else Ok
      ensures r.OkReply? ==> more == if r.more == [] then [] else r.more[1..]
    {
      hide Connection.Window, Allocation, Le, LeValue, LengthBytes, ReplyBytes;
      ReplyStart(r, prepare, rest);
      ret := Ok;
      if con.Get(0) == 0 {
        if prepare {
          TakePrepareOk(r, rest);
          more := r.more;
        } else {
          OkPacket(r, rest);
          more := BehindNumbers(ReplyBytes(r)[1..], rest)[4..];
          TakeOk(ReplyBytes(r)[1..], rest);
        }
        TakeMessageSize(more, rest);
        more := if more == [] then [] else more[1..];
      } else if con.Get(0) == 254 {
        TakeEof(r, rest);
        more := r.more;
      } else {
        var isError := TakeError(r, rest);
        if isError {
          ret := ErrorCode;
          more := [];
        } else {
          CountIs(r);
          var count := TakeNumber(con, r.columns, r.more, rest);
          columnCount := count % 65536;
          more := r.more;
        }
      }
    }

    /** drizzle_state_result_read: whatever the reply is, its packet is taken exactly,
        and every field arrives. */
    method StateResultRead(ghost r: Reply, ghost rest: seq<byte>) returns (ret: Ret, info: seq<byte>)
      requires con.stack != [] && ReplyFits(r, prepare)
      requires con.packetSize <= con.bufferSize ==> Facing(con, ReplyBytes(r), rest)
      modifies this, con`stack, con`bufferPtr, con`bufferSize, con`packetSize
      ensures old(con.packetSize > con.bufferSize) ==>
        ret == Ok && con.stack == [Read] + old(con.stack) &&
        con.bufferPtr == old(con.bufferPtr) && con.bufferSize == old(con.bufferSize)
      ensures old(con.packetSize <= con.bufferSize) ==>
        con.Valid() && con.Window() == rest && con.packetSize == 0 && con.stack == old(con.stack)[1..] && Holds(r) &&
        (eofPacket <==> old(eofPacket) || r.EofReply?) && ret == (if IsError(r) then ErrorCode else Ok) &&
        (r.OkReply? ==> info == Text(if r.more == [] then [] else r.more[1..], MAX_INFO))
    {
      hide Connection.Window, Allocation, ReplyBytes, ReplyFits, Holds;
      if con.bufferSize < con.packetSize {
        con.stack := [Read] + con.stack;
        return Ok, [];
      }
      ghost var more;
      ret, more := TakeReply(r, rest);
      info := TakeInfo(more, rest);
      assert [] + rest == rest;
      con.stack := con.stack[1..];
    }
  }

  /** The first byte tells the kinds of reply apart. */
  lemma ReplyStart(r: Reply, prepare: bool, rest: seq<byte>)
    requires ReplyFits(r, prepare)
    ensures var b := (ReplyBytes(r) + rest)[0];
      && (b == 0 <==> if prepare then r.PrepareOkReply? else r.OkReply? || r.LikeOk?)
      && (b == 254 <==> r.EofReply?) && (b == 255 <==> IsError(r))
    ensures IsError(r) ==> |ReplyBytes(r)| >= 9
  {
    if r.CountReply? {
      FirstByte(r.columns);
    }
  }

  /** What an OK packet, or one that passes for it, holds. */
  lemma OkPacket(r: Reply, rest: seq<byte>)
    requires (r.OkReply? || r.LikeOk?) && ReplyFits(r, false)
    ensures var t := ReplyBytes(r)[1..];
      && ReplyBytes(r) == [0] + t && NumbersFit(t, rest)
      && (r.OkReply? ==>
            Number(t + rest) == r.affected && Number(t[Taken(t + rest)..] + rest) == r.insertId &&
            var behind := BehindNumbers(t, rest);
            LeValue(behind[0..2]) == r.status && LeValue(behind[2..4]) == r.warnings && behind[4..] == r.more)
  {
    hide LengthBytes, DecodeLength, Le, LeValue, Taken, Number;
    if r.OkReply? {
      OkNumbers(r, rest);
      var fixed := Le(r.status, 2) + Le(r.warnings, 2);
      FixedAhead(fixed, r.more, []);
      TwoLe(r.status, r.warnings, fixed + r.more);
      assert (fixed + r.more) + [] == fixed + r.more && (fixed + r.more)[4..] == r.more;
    } else {
      LongEnough(r.rest, rest);
      assert ReplyBytes(r)[1..] == r.rest;
    }
  }

  lemma CountIs(r: Reply)
    requires r.CountReply?
    ensures ReplyBytes(r) == LengthBytes(r.columns) + r.more
  {
  }

  lemma ErrorParts(r: Reply, rest: seq<byte>)
    requires r.ErrorReply? && r.code < 65536 && |r.sqlstate| == 5
    ensures var w := ReplyBytes(r) + rest;
      LeValue(w[1..1 + 2]) == r.code && w[4..4 + 5] == r.sqlstate && w[|ReplyBytes(r)|..] == [] + rest
  {
    hide Le, LeValue;
    var w := ReplyBytes(r) + rest;
    Spans();
    LeRoundTrip(r.code, 2);
    assert w[1..3] == Le(r.code, 2);
  }

  lemma AnyErrorParts(t: seq<byte>, rest: seq<byte>)
    requires |t| >= 8
    ensures var w := ReplyBytes(AnyError(t)) + rest;
      w[1..1 + 2] == t[0..2] && w[4..4 + 5] == t[3..8] && w[|t| + 1..] == [] + rest
  {
  }

  lemma NumberAhead(n: nat, more: seq<byte>, rest: seq<byte>)
    requires n <= MAX_LENGTH
    ensures var w := (LengthBytes(n) + more) + rest;
      && DecodeLength(w) == Length(n, |LengthBytes(n)|) && w[|LengthBytes(n)|..] == more + rest
  {
    hide LengthBytes, DecodeLength;
    Regroup(LengthBytes(n), more, rest);
    LengthRoundTrip(n, more + rest);
  }

  lemma BytesAhead(front: seq<byte>, more: seq<byte>, rest: seq<byte>)
    ensures ((front + more) + rest)[|front|..] == more + rest
  {
  }

  lemma FixedAhead(fixed: seq<byte>, more: seq<byte>, rest: seq<byte>)
    ensures ((fixed + more) + rest)[..|fixed|] == fixed
  {
  }

  lemma EofParts(a: nat, b: nat, w: seq<byte>)
    requires a < 65536 && b < 65536 && |w| >= 5 && w[..5] == [254] + Le(a, 2) + Le(b, 2)
    ensures LeValue(w[1..3]) == a && LeValue(w[3..5]) == b
  {
    hide Le, LeValue;
    Spans();
    LeRoundTrip(a, 2);
    LeRoundTrip(b, 2);
    assert w[1..3] == w[..5][1..3] == Le(a, 2) && w[3..5] == w[..5][3..5] == Le(b, 2);
  }

  lemma DropTwice(w: seq<byte>, j: nat, k: nat)
    requires j <= k <= |w|
    ensures w[j..][k - j..] == w[k..]
  {
  }

  /** drizzle_state_loop under a command's reply, fresh or resumed.  However recv cuts
      the stream and wherever the loop is interrupted, the reply that the server
      framed arrives and nothing behind it is touched. */
  method ReadReply(reader: ReplyReader, ghost r: Reply, ghost rest: seq<byte>) returns (ret: Ret, info: seq<byte>)
    requires reader.con.Valid() && reader.con.Reading() && reader.con.stack[|reader.con.stack| - 1] == ResultRead
    requires ReplyFits(r, reader.prepare) && |ReplyBytes(r)| < 0x100_0000
    requires reader.con.Unread() == Frame(reader.con.packetNumber, ReplyBytes(r)) + rest
    modifies reader, reader.con, reader.con.buffer, reader.con.socket
    ensures var con := reader.con;
      && con.Valid()
      && (ret == Ok || ret == ErrorCode ==>
            reader.Holds(r) && con.Unread() == rest && con.stack == [] &&
            ret == (if IsError(r) then ErrorCode else Ok) &&
            con.packetNumber == (old(con.packetNumber) + 1) % 256)
      && (ret == IoWait ==>
            con.Reading() && con.stack[|con.stack| - 1] == ResultRead && con.packetNumber == old(con.packetNumber) &&
            con.Unread() == old(con.Unread()))
      && (ret.Ok? || ret.ErrorCode? || ret.IoWait? || (SocketFailure(ret) && con.Cut()))
  {
    hide Connection.Cut, Connection.Window, NextPacket, Allocation, ReplyBytes, ReplyFits, Frame, ReplyReader.Holds;
    var con := reader.con;
    info := [];
    FrameParses(con.packetNumber, ReplyBytes(r), rest);
    ret := con.AwaitPacket();
    if ret == Ok {
      ghost var w := con.Window();
      assert w == w[..con.packetSize] + w[con.packetSize..];
      ret, info := reader.StateResultRead(r, w[con.packetSize..]);
    }
  }

  /** The two numbers of an EOF packet. */
  method ReadEof(con: Connection, ghost w: nat, ghost s: nat, ghost more: seq<byte>, ghost rest: seq<byte>)
    returns (warnings: nat, status: nat)
    requires w < 65536 && s < 65536 && Facing(con, ([254] + Le(w, 2) + Le(s, 2)) + more, rest)
    ensures warnings == w && status == s
  {
    hide Connection.Window, Allocation, Le, LeValue;
    FixedAhead([254] + Le(w, 2) + Le(s, 2), more, rest);
    EofParts(w, s, con.Window());
    warnings := con.GetLe(1, 2);
    status := con.GetLe(3, 2);
  }

  // ------------------------------------------------------------------- columns

  const MAX_CATALOG := 128
  const MAX_DB := 64
  const MAX_TABLE := 128
  const MAX_NAME := 2048
  const MAX_DEFAULT := 2048

  /** A column definition as a server sends it. */
  datatype ColumnDef = ColumnDef(
    catalog: seq<byte>, db: seq<byte>, table: seq<byte>, origTable: seq<byte>, name: seq<byte>, origName: seq<byte>,
    charset: nat, maxSize: nat, kind: byte, flags: nat, decimals: byte, default: seq<byte>)

  predicate DefFits(c: ColumnDef) {
    && |c.catalog| <= MAX_LENGTH && |c.db| <= MAX_LENGTH && |c.table| <= MAX_LENGTH
    && |c.origTable| <= MAX_LENGTH && |c.name| <= MAX_LENGTH && |c.origName| <= MAX_LENGTH
    && c.charset < 65536 && c.maxSize < 0x1_0000_0000 && c.flags < 65536
  }

  function FixedPart(c: ColumnDef): (s: seq<byte>)
    ensures |s| == 13
  {
    [12] + Le(c.charset, 2) + Le(c.maxSize, 4) + [c.kind] + Le(c.flags, 2) + [c.decimals] + [0, 0]
  }

  function ColumnBytes(c: ColumnDef): seq<byte> {
    BinaryBytes(c.catalog) + (BinaryBytes(c.db) + (BinaryBytes(c.table) + (BinaryBytes(c.origTable) +
    (BinaryBytes(c.name) + (BinaryBytes(c.origName) + (FixedPart(c) + c.default))))))
  }

  /** flags |= DRIZZLE_COLUMN_FLAGS_NUM for the types up to INT24, TIMESTAMP aside. */
  function WithNum(kind: byte, flags: nat): nat {
    if kind <= 9 && kind != 7 && flags / 32768 % 2 == 0 then flags + 32768 else flags
  }

  /** What the column struct holds of a definition: its strings cut to their fields. */
  function Stored(c: ColumnDef): ColumnDef {
    ColumnDef(Clip(c.catalog, MAX_CATALOG), Clip(c.db, MAX_DB), Clip(c.table, MAX_TABLE), Clip(c.origTable, MAX_TABLE),
              Clip(c.name, MAX_NAME), Clip(c.origName, MAX_NAME),
              c.charset, c.maxSize, c.kind, WithNum(c.kind, c.flags), c.decimals, Clip(c.default, MAX_DEFAULT))
  }

  /** A field of max bytes holds a string up to its last but one byte. */
  predicate HeldIn(held: seq<byte>, sent: seq<byte>, max: nat) {
    held <= sent && |held| == if |sent| < max then |sent| else max - 1
  }

  /** What the column struct holds, field by field. */
  lemma StoredFields(c: ColumnDef)
    requires c.flags < 65536
    ensures var h := Stored(c);
      && HeldIn(h.catalog, c.catalog, 128) && HeldIn(h.db, c.db, 64)
      && HeldIn(h.table, c.table, 128) && HeldIn(h.origTable, c.origTable, 128)
      && HeldIn(h.name, c.name, 2048) && HeldIn(h.origName, c.origName, 2048) && HeldIn(h.default, c.default, 2048)
      && h.charset == c.charset && h.maxSize == c.maxSize && h.kind == c.kind && h.decimals == c.decimals
      && h.flags % 32768 == c.flags % 32768 && h.flags < 65536
      && (h.flags >= 32768 <==> c.flags >= 32768 || c.kind in {0, 1, 2, 3, 4, 5, 6, 8, 9})
  {
  }

  /** The first n strings of a packet, each behind its length. */
  function Strings(s: seq<byte>, n: nat): seq<seq<byte>> {
    if n == 0 || s == [] then []
    else match DecodeLength(s)
      case Length(value, used) =>
        if used + value > |s| then [] else [s[used..used + value]] + Strings(s[used + value..], n - 1)
      case _ => []
  }

  lemma StringAhead(text: seq<byte>, more: seq<byte>, n: nat)
    requires |text| <= MAX_LENGTH && n > 0
    ensures Strings(BinaryBytes(text) + more, n) == [text] + Strings(more, n - 1)
  {
    hide LengthBytes, DecodeLength;
    NumberAhead(|text|, text, more);
    var w := BinaryBytes(text) + more;
    assert w[|LengthBytes(|text|)|..|LengthBytes(|text|)| + |text|] == text;
    assert w[|LengthBytes(|text|)| + |text|..] == more;
  }

  /** The order of the strings in a definition. */
  lemma DefinitionStrings(c: ColumnDef)
    requires DefFits(c)
    ensures Strings(ColumnBytes(c), 6) == [c.catalog, c.db, c.table, c.origTable, c.name, c.origName]
  {
    hide BinaryBytes, Strings, FixedPart;
    var s6 := FixedPart(c) + c.default;
    var s5 := BinaryBytes(c.origName) + s6;
    var s4 := BinaryBytes(c.name) + s5;
    var s3 := BinaryBytes(c.origTable) + s4;
    var s2 := BinaryBytes(c.table) + s3;
    var s1 := BinaryBytes(c.db) + s2;
    StringAhead(c.catalog, s1, 6);
    StringAhead(c.db, s2, 5);
    StringAhead(c.table, s3, 4);
    StringAhead(c.origTable, s4, 3);
    StringAhead(c.name, s5, 2);
    StringAhead(c.origName, s6, 1);
    NoStrings(s6);
  }

  lemma NoStrings(s: seq<byte>)
    ensures Strings(s, 0) == []
  {
  }

  lemma FixedParts(c: ColumnDef, w: seq<byte>)
    requires DefFits(c) && |w| >= 13 && w[..13] == FixedPart(c)
    ensures LeValue(w[1..3]) == c.charset && LeValue(w[3..7]) == c.maxSize && w[7] == c.kind
    ensures LeValue(w[8..10]) == c.flags && w[10] == c.decimals
  {
    hide Le, LeValue;
    Spans();
    LeRoundTrip(c.charset, 2);
    LeRoundTrip(c.maxSize, 4);
    LeRoundTrip(c.flags, 2);
    var t := w[..13];
    assert t[1..3] == Le(c.charset, 2) && t[3..7] == Le(c.maxSize, 4) && t[8..10] == Le(c.flags, 2);
    assert w[1..3] == t[1..3] && w[3..7] == t[3..7] && w[8..10] == t[8..10];
    assert w[7] == t[7] && w[10] == t[10];
  }

  /** A definition is too long to be taken for an EOF packet. */
  lemma DefIsNoEof(c: ColumnDef)
    ensures |ColumnBytes(c)| >= 19
  {
  }

  class ColumnReader {
    const con: Connection
    /** DRIZZLE_RESULT_SKIP_COLUMN. */
    const skip: bool
    /** None for NULL. */
    var column: Option<ColumnDef>
    var columnCurrent: nat
    var warningCount: nat
    var status: nat

    constructor (con: Connection, skip: bool)
      ensures this.con == con && this.skip == skip && columnCurrent == 0
    {
      this.con := con;
      this.skip := skip;
      column, columnCurrent, warningCount, status := None, 0, 0, 0;
    }

    /** The part of drizzle_state_column_read behind the strings. */
    method TakeFixed(ghost c: ColumnDef, ghost rest: seq<byte>)
      returns (charset: nat, maxSize: nat, kind: byte, flags: nat, decimals: byte, default: seq<byte>)
      requires DefFits(c) && Facing(con, FixedPart(c) + c.default, rest)
      modifies con`bufferPtr, con`bufferSize, con`packetSize
      ensures con.Valid() && con.Window() == rest
      ensures charset == c.charset && maxSize == c.maxSize && kind == c.kind && decimals == c.decimals
      ensures flags == WithNum(c.kind, c.flags) && default == Clip(c.default, MAX_DEFAULT)
    {
      hide Connection.Window, Connection.GetLe, Connection.Get, Allocation, FixedPart, Le, LeValue, Clip;
      FixedAhead(FixedPart(c), c.default, rest);
      FixedParts(c, con.Window());
      charset := con.GetLe(1, 2);
      maxSize := con.GetLe(3, 4);
      kind := con.Get(7);
      flags := con.GetLe(8, 2);
      if kind <= 9 && kind != 7 {
        flags := if flags / 32768 % 2 == 0 then flags + 32768 else flags;
      }
      decimals := con.Get(10);
      TakeBytes(con, FixedPart(c), 13, c.default, rest);
      default := TakeDefault(c.default, rest);
    }

    /** The default value is all that is left of the packet. */
    method TakeDefault(ghost text: seq<byte>, ghost rest: seq<byte>) returns (default: seq<byte>)
      requires Facing(con, text, rest)
      modifies con`bufferPtr, con`bufferSize
      ensures con.Valid() && con.Window() == rest && default == Clip(text, MAX_DEFAULT)
    {
      hide Connection.Window, Allocation, Clip;
      FixedAhead(text, [], rest);
      BytesAhead(text, [], rest);
      assert text + [] == text && [] + rest == rest;
      default := CopyText(con, con.packetSize, MAX_DEFAULT);
      if con.packetSize > 0 {
        con.Advance(con.packetSize);
      }
    }

    /** The strings and what follows them. */
    method TakeDefinition(ghost c: ColumnDef, ghost rest: seq<byte>) returns (def: ColumnDef)
      requires DefFits(c) && Facing(con, ColumnBytes(c), rest)
      modifies con`bufferPtr, con`bufferSize, con`packetSize
      ensures con.Valid() && con.Window() == rest && def == Stored(c)
    {
      hide Connection.Window, Allocation, FixedPart, BinaryBytes, Clip, Facing;
      ghost var s6 := FixedPart(c) + c.default;
      ghost var s5 := BinaryBytes(c.origName) + s6;
      ghost var s4 := BinaryBytes(c.name) + s5;
      ghost var s3 := BinaryBytes(c.origTable) + s4;
      ghost var s2 := BinaryBytes(c.table) + s3;
      ghost var s1 := BinaryBytes(c.db) + s2;
      var ret, catalog := UnpackString(con, MAX_CATALOG, c.catalog, s1, rest);
      var db, table, origTable, name, origName;
      ret, db := UnpackString(con, MAX_DB, c.db, s2, rest);
      ret, table := UnpackString(con, MAX_TABLE, c.table, s3, rest);
      ret, origTable := UnpackString(con, MAX_TABLE, c.origTable, s4, rest);
      ret, name := UnpackString(con, MAX_NAME, c.name, s5, rest);
      ret, origName := UnpackString(con, MAX_NAME, c.origName, s6, rest);
      var charset, maxSize, kind, flags, decimals, default := TakeFixed(c, rest);
      def := ColumnDef(catalog, db, table, origTable, name, origName, charset, maxSize, kind, flags, decimals, default);
    }

    /** The branch for an EOF packet. */
    method TakeEnd(ghost p: ColumnPacket, ghost rest: seq<byte>)
      requires p.EndOfColumns? && PacketFits(p) && Facing(con, PacketBytes(p), rest)
      modifies this`column, this`warningCount, this`status, con`bufferPtr, con`bufferSize
      ensures con.Valid() && con.Window() == rest
      ensures column == None && warningCount == p.warnings && status == p.status
    {
      hide Connection.Window, Allocation, Le, LeValue;
      BytesAhead(PacketBytes(p), [], rest);
      assert PacketBytes(p) + [] == PacketBytes(p) && [] + rest == rest;
      column := None;
      warningCount, status := ReadEof(con, p.warnings, p.status, [], rest);
      con.Advance(5);
    }

    /** drizzle_state_column_read: a definition is stored or skipped, an EOF packet
        ends the columns, and each takes its packet exactly. */
    method StateColumnRead(ghost p: ColumnPacket, ghost rest: seq<byte>) returns (ret: Ret)
      requires con.stack != [] && PacketFits(p)
      requires con.packetSize <= con.bufferSize ==> Facing(con, PacketBytes(p), rest)
      modifies this, con`stack, con`bufferPtr, con`bufferSize, con`packetSize
      ensures ret == Ok
      ensures old(con.packetSize > con.bufferSize) ==>
        con.stack == [Read] + old(con.stack) &&
        con.bufferPtr == old(con.bufferPtr) && con.bufferSize == old(con.bufferSize)
      ensures old(con.packetSize <= con.bufferSize) ==>
        con.Valid() && con.Window() == rest && con.stack == old(con.stack)[1..] &&
        match p
        case Definition(c) =>
          columnCurrent == old(columnCurrent) + 1 && column == (if skip then old(column) else Some(Stored(c)))
        case EndOfColumns(w, s) =>
          column == None && columnCurrent == old(columnCurrent) && warningCount == w && status == s
    {
      hide Connection.Window, Allocation, Stored, PacketBytes, PacketFits, Facing;
      if con.bufferSize < con.packetSize {
        con.stack := [Read] + con.stack;
        return Ok;
      }
      TakeColumn(p, rest);
      con.stack := con.stack[1..];
      return Ok;
    }

    /** The branches of drizzle_state_column_read. */
    method TakeColumn(ghost p: ColumnPacket, ghost rest: seq<byte>)
      requires PacketFits(p) && Facing(con, PacketBytes(p), rest)
      modifies this, con`bufferPtr, con`bufferSize, con`packetSize
      ensures con.Valid() && con.Window() == rest
      ensures match p
        case Definition(c) =>
          columnCurrent == old(columnCurrent) + 1 && column == (if skip then old(column) else Some(Stored(c))) &&
          (skip ==> con.packetSize == 0)
        case EndOfColumns(w, s) =>
          column == None && columnCurrent == old(columnCurrent) && warningCount == w && status == s
    {
      hide Connection.Window, Allocation, Stored, Le, LeValue, ColumnBytes;
      KindOfPacket(p, rest);
      if con.packetSize == 5 && con.Get(0) == 254 {
        TakeEnd(p, rest);
      } else if skip {
        BytesAhead(PacketBytes(p), [], rest);
        assert PacketBytes(p) + [] == PacketBytes(p) && [] + rest == rest;
        con.Advance(con.packetSize);
        con.packetSize := 0;
        columnCurrent := columnCurrent + 1;
      } else {
        var def := TakeDefinition(p.c, rest);
        column := Some(def);
        columnCurrent := columnCurrent + 1;
      }
    }
  }

  datatype ColumnPacket = Definition(c: ColumnDef) | EndOfColumns(warnings: nat, status: nat)

  predicate PacketFits(p: ColumnPacket) {
    match p
    case Definition(c) => DefFits(c)
    case EndOfColumns(w, s) => w < 65536 && s < 65536
  }

  function PacketBytes(p: ColumnPacket): seq<byte> {
    match p
    case Definition(c) => ColumnBytes(c)
    case EndOfColumns(w, s) => [254] + Le(w, 2) + Le(s, 2)
  }

  lemma KindOfPacket(p: ColumnPacket, rest: seq<byte>)
    ensures var w := PacketBytes(p) + rest;
      |PacketBytes(p)| == 5 && w[0] == 254 <==> p.EndOfColumns?
    ensures p.EndOfColumns? ==> (PacketBytes(p) + rest)[..5] == PacketBytes(p)
    ensures PacketBytes(p) != []
  {
    hide ColumnBytes;
    if p.Definition? {
      DefIsNoEof(p.c);
    }
  }

  /** A string that is all there is what follows its length. */
  lemma ReadStringIs(w: seq<byte>, size: nat)
    requires w != [] && DecodeLength(w).Length? && DecodeLength(w).used <= size && ReadString(w, size).Str?
    ensures var value, used := DecodeLength(w).value, DecodeLength(w).used;
      && value <= size - used && value <= |w| - used
      && ReadString(w, size) == Str(w[used..][..value], used + value)
  {
    hide DecodeLength;
    var value, used := DecodeLength(w).value, DecodeLength(w).used;
    assert w[used..used + value] == w[used..][..value];
  }

  lemma ClipIs(w: seq<byte>, length: nat, max: nat)
    requires length <= |w| && max > 1
    ensures Clip(w[..length], max) == if length < max then w[0..length] else w[0..max - 1]
  {
  }

  // -------------------------------------------------------------------- binlog

  const CRC_LENGTH := 4

  /** A packet of a binlog stream. */
  datatype BinlogPacket =
    | Event(first: byte, raw: seq<byte>)
    | EndOfBinlog(warnings: nat, status: nat)
    | BinlogError(code: nat, sqlstate: seq<byte>, message: seq<byte>)

  function BinlogBytes(p: BinlogPacket): (s: seq<byte>)
    ensures s != []
  {
    match p
    case Event(first, raw) => [first] + raw
    case EndOfBinlog(w, s) => [254] + Le(w, 2) + Le(s, 2)
    case BinlogError(c, q, m) => ReplyBytes(ErrorReply(c, q, m))
  }

  /** An event starts with a header of 19 bytes. */
  predicate BinlogFits(p: BinlogPacket) {
    match p
    case Event(first, raw) => first != 255 && |raw| >= 19
    case EndOfBinlog(w, s) => w < 65536 && s < 65536
    case BinlogError(c, q, _) => c < 65536 && |q| == 5
  }

  /** drizzle_binlog_event_st.  data is None for NULL. */
  datatype EventFields = EventFields(
    timestamp: nat, kind: byte, serverId: nat, rawLength: nat, nextPos: nat, flags: nat, data: Option<seq<byte>>)

  const FORMAT_DESCRIPTION: byte := 15

  function HeaderOf(raw: seq<byte>): EventFields
    requires |raw| >= 19
  {
    EventFields(LeValue(raw[0..4]), raw[4], LeValue(raw[5..9]), LeValue(raw[9..13]), LeValue(raw[13..17]),
                LeValue(raw[17..19]), None)
  }

  /** The fields of an event, given whether a checksum is at its end. */
  function FieldsOf(raw: seq<byte>, checksums: bool): EventFields
    requires |raw| >= 19
  {
    HeaderOf(raw).(data := if |raw| <= 27 then None
                           else Some(raw[19..if checksums then |raw| - CRC_LENGTH else |raw|]))
  }

  /** An event as a server sends it, `tail` being its checksum if it has one. */
  function EventRaw(timestamp: nat, kind: byte, serverId: nat, nextPos: nat, flags: nat, body: seq<byte>,
                    tail: seq<byte>): (raw: seq<byte>)
    ensures |raw| == 19 + |body| + |tail|
  {
    Le(timestamp, 4) + [kind] + Le(serverId, 4) + Le(19 + |body| + |tail|, 4) + Le(nextPos, 4) + Le(flags, 2) +
    body + tail
  }

  /** The fields of an event come out as they were written. */
  lemma EventRoundTrip(timestamp: nat, kind: byte, serverId: nat, nextPos: nat, flags: nat, body: seq<byte>,
                       tail: seq<byte>)
    requires timestamp < 0x1_0000_0000 && serverId < 0x1_0000_0000 && nextPos < 0x1_0000_0000 && flags < 65536
    requires |tail| in {0, 4} && 19 + |body| + |tail| < 0x1_0000_0000
    ensures var raw := EventRaw(timestamp, kind, serverId, nextPos, flags, body, tail);
      FieldsOf(raw, tail != []) ==
      EventFields(timestamp, kind, serverId, |raw|, nextPos, flags, if |raw| <= 27 then None else Some(body))
  {
    hide Le, LeValue;
    var length := 19 + |body| + |tail|;
    var raw := EventRaw(timestamp, kind, serverId, nextPos, flags, body, tail);
    Spans();
    LeRoundTrip(timestamp, 4);
    LeRoundTrip(serverId, 4);
    LeRoundTrip(length, 4);
    LeRoundTrip(nextPos, 4);
    LeRoundTrip(flags, 2);
    EventSlices(Le(timestamp, 4), kind, Le(serverId, 4), Le(length, 4), Le(nextPos, 4), Le(flags, 2), body, tail);
  }

  lemma EventSlices(a: seq<byte>, b: byte, c: seq<byte>, d: seq<byte>, e: seq<byte>, f: seq<byte>, body: seq<byte>,
                    tail: seq<byte>)
    requires |a| == |c| == |d| == |e| == 4 && |f| == 2
    ensures var s := a + [b] + c + d + e + f + body + tail;
      && s[0..4] == a && s[4] == b && s[5..9] == c && s[9..13] == d && s[13..17] == e && s[17..19] == f
      && s[19..|s| - |tail|] == body
  {
  }

  class BinlogReader {
    const con: Connection
    const replies: ReplyReader
    const verifyChecksums: bool
    /** zlib's crc32. */
    const crc32: seq<byte> -> nat
    /** The comparison of a server version with the first that adds checksums. */
    const addsChecksums: seq<byte> -> bool
    var hasChecksums: bool
    var event: EventFields
    var checksum: nat

    constructor (con: Connection, replies: ReplyReader, verifyChecksums: bool, crc32: seq<byte> -> nat,
                 addsChecksums: seq<byte> -> bool)
      requires replies.con == con
      ensures this.con == con && this.replies == replies && !hasChecksums
      ensures this.verifyChecksums == verifyChecksums && this.crc32 == crc32 && this.addsChecksums == addsChecksums
    {
      this.con := con;
      this.replies := replies;
      this.verifyChecksums := verifyChecksums;
      this.crc32 := crc32;
      this.addsChecksums := addsChecksums;
      hasChecksums := false;
      event := EventFields(0, 0, 0, 0, 0, 0, None);
      checksum := 0;
    }

    /** The event says that those from it on have checksums. */
    predicate Announces(raw: seq<byte>)
      requires |raw| >= 19
    {
      |raw| > 27 && raw[4] == FORMAT_DESCRIPTION && addsChecksums(raw[21..])
    }

    /** An event has checksums when an earlier one said so or it says so itself. */
    predicate ChecksumsAfter(raw: seq<byte>)
      reads this`hasChecksums
      requires |raw| >= 19
    {
      hasChecksums || Announces(raw)
    }

    /** The checksum at the end is verified and wrong. */
    predicate WrongChecksum(raw: seq<byte>)
      requires |raw| >= 19
    {
      verifyChecksums && crc32(raw[..|raw| - CRC_LENGTH]) != LeValue(raw[|raw| - CRC_LENGTH..])
    }

    /** The part of drizzle_state_binlog_read behind the header of an event of more
        than 27 bytes. */
    method TakeBody(kind: byte, length: nat, ghost raw: seq<byte>, ghost rest: seq<byte>) returns (data: seq<byte>)
      requires length == |raw| > 27 && kind == raw[4] && Facing(con, raw[19..], rest)
      modifies this`hasChecksums, con`bufferPtr, con`bufferSize, con`packetSize
      ensures Facing(con, [], rest) && hasChecksums == old(ChecksumsAfter(raw))
      ensures data == raw[19..if hasChecksums then |raw| - CRC_LENGTH else |raw|]
    {
      hide Connection.Window, Allocation;
      ghost var body := raw[19..];
      BytesAhead(body, [], rest);
      assert body + [] == body;
      BodySlices(raw, rest);
      if kind == FORMAT_DESCRIPTION {
        if addsChecksums(con.Slice(2, length - 21)) {
          hasChecksums := true;
        }
      }
      data := con.Slice(0, length - 19);
      con.Skip(length - 19);
      if hasChecksums {
        data := data[..length - 19 - CRC_LENGTH];
      }
    }

    /** The part of drizzle_state_binlog_read that takes an event apart. */
    method TakeEvent(ghost raw: seq<byte>, ghost rest: seq<byte>) returns (ret: Ret, bytes: seq<byte>)
      requires |raw| >= 19 && Facing(con, raw, rest)
      modifies this`event, this`hasChecksums, con`bufferPtr, con`bufferSize, con`packetSize
      ensures con.Valid() && bytes == raw
      ensures ret == if LeValue(raw[9..13]) != |raw| then UnexpectedData else Ok
      ensures ret == Ok ==>
        Facing(con, [], rest) && hasChecksums == old(ChecksumsAfter(raw)) && event == FieldsOf(raw, hasChecksums)
      ensures ret != Ok ==> hasChecksums == old(hasChecksums)
    {
      hide Connection.Window, Connection.GetLe, Connection.Slice, Allocation, Le, LeValue, HeaderOf;
      FixedAhead(raw, [], rest);
      BytesAhead(raw, [], rest);
      assert raw + [] == raw && [] + rest == rest;
      bytes := con.Slice(0, con.packetSize);
      HeaderIs(raw);
      event := ReadHeader(raw, rest);
      if con.packetSize != event.rawLength {
        return UnexpectedData, bytes;
      }
      if event.rawLength <= 27 {
        con.Skip(event.rawLength);
      } else {
        assert raw == raw[..19] + raw[19..];
        TakeBytes(con, raw[..19], 19, raw[19..], rest);
        var data := TakeBody(event.kind, |bytes|, raw, rest);
        event := event.(data := Some(data));
      }
      return Ok, bytes;
    }

    /** The header of an event. */
    method ReadHeader(ghost raw: seq<byte>, ghost rest: seq<byte>) returns (header: EventFields)
      requires |raw| >= 19 && Facing(con, raw, rest)
      ensures header == HeaderOf(raw)
    {
      hide Connection.Window, Connection.GetLe, Connection.Get, Allocation, Le, LeValue;
      HeaderSlices(raw, rest);
      header := EventFields(con.GetLe(0, 4), con.Get(4), con.GetLe(5, 4), con.GetLe(9, 4), con.GetLe(13, 4),
                            con.GetLe(17, 2), None);
    }

    /** drizzle_state_binlog_read: every packet of the stream is taken exactly.  Once
        an event's length agrees with its packet's, nothing is ever left of the
        packet: `UnexpectedData` means that they disagree. */
    method StateBinlogRead(ghost p: BinlogPacket, ghost rest: seq<byte>) returns (ret: Ret)
      requires con.stack != [] && BinlogFits(p) && replies.con == con
      requires con.packetSize <= con.bufferSize ==> Facing(con, BinlogBytes(p), rest)
      modifies this, replies, con`stack, con`bufferPtr, con`bufferSize, con`packetSize
      ensures old(con.packetSize > con.bufferSize) ==>
        ret == Ok && con.stack == [Read] + old(con.stack) &&
        con.bufferPtr == old(con.bufferPtr) && con.bufferSize == old(con.bufferSize)
      ensures old(con.packetSize <= con.bufferSize) ==>
        match p
        case Event(_, raw) =>
          if LeValue(raw[9..13]) != |raw| then ret == UnexpectedData
          else
            con.Valid() && con.Window() == rest && con.packetSize == 0 &&
            hasChecksums == old(ChecksumsAfter(raw)) && event == FieldsOf(raw, hasChecksums) &&
            if hasChecksums && WrongChecksum(raw) then ret == BadChecksum
            else ret == Ok && con.stack == [PacketRead, BinlogRead] + old(con.stack)[1..]
        case EndOfBinlog(w, s) =>
          ret == EndOfData && con.Valid() && con.Window() == rest && con.stack == old(con.stack)[1..] &&
          replies.warningCount == w && replies.status == s
        case BinlogError(c, q, _) =>
          ret == ErrorCode && con.Valid() && con.Window() == rest && con.packetSize == 0 &&
          con.stack == old(con.stack)[1..] && replies.errorCode == c && replies.sqlstate == q
    {
      hide Connection.Window, Allocation, Le, LeValue, ReplyBytes, FieldsOf, Facing, BinlogBytes;
      if con.packetSize != 0 && con.bufferSize < con.packetSize {
        con.stack := [Read] + con.stack;
        return Ok;
      }
      ret := TakeMarker(p, rest);
      if ret != Ok {
        con.stack := con.stack[1..];
        return;
      }
      ret := TakeAndCheck(p, rest);
    }

    /** The branches of drizzle_state_binlog_read for EOF and error packets; an event
        is left where it is. */
    method TakeMarker(ghost p: BinlogPacket, ghost rest: seq<byte>) returns (ret: Ret)
      requires BinlogFits(p) && replies.con == con && Facing(con, BinlogBytes(p), rest)
      modifies replies, con`bufferPtr, con`bufferSize, con`packetSize
      ensures match p
        case Event(_, _) => ret == Ok && Facing(con, BinlogBytes(p), rest)
        case EndOfBinlog(w, s) =>
          ret == EndOfData && con.Valid() && con.Window() == rest && replies.warningCount == w && replies.status == s
        case BinlogError(c, q, _) =>
          ret == ErrorCode && con.Valid() && con.Window() == rest && con.packetSize == 0 &&
          replies.errorCode == c && replies.sqlstate == q
    {
      hide Connection.Window, Connection.GetLe, Connection.Slice, Connection.Get, Connection.First;
      hide Allocation, Le, LeValue, ReplyBytes;
      BinlogStart(p, rest);
      BytesAhead(BinlogBytes(p), [], rest);
      assert BinlogBytes(p) + [] == BinlogBytes(p) && [] + rest == rest;
      if con.packetSize == 5 && con.Get(0) == 254 {
        replies.warningCount, replies.status := ReadEof(con, p.warnings, p.status, [], rest);
        con.Advance(5);
        return EndOfData;
      }
      if p.BinlogError? {
        ErrorParts(ErrorReply(p.code, p.sqlstate, p.message), rest);
      }
      var isError, wild := replies.CheckUnpackError();
      return if isError then ErrorCode else Ok;
    }

    /** The branch of drizzle_state_binlog_read for an event. */
    method TakeAndCheck(ghost p: BinlogPacket, ghost rest: seq<byte>) returns (ret: Ret)
      requires con.stack != [] && p.Event? && BinlogFits(p) && Facing(con, BinlogBytes(p), rest)
      modifies this`event, this`hasChecksums, this`checksum
      modifies con`stack, con`bufferPtr, con`bufferSize, con`packetSize
      ensures LeValue(p.raw[9..13]) != |p.raw| ==> ret == UnexpectedData
      ensures LeValue(p.raw[9..13]) == |p.raw| ==>
        con.Valid() && con.Window() == rest && con.packetSize == 0 &&
        hasChecksums == old(ChecksumsAfter(p.raw)) && event == FieldsOf(p.raw, hasChecksums) &&
        if hasChecksums && WrongChecksum(p.raw) then ret == BadChecksum
        else ret == Ok && con.stack == [PacketRead, BinlogRead] + old(con.stack)[1..]
    {
      hide Connection.Window, Allocation, Le, LeValue, FieldsOf, Announces, WrongChecksum, Facing, BinlogBytes, BinlogFits;
      EventBytes(p);
      TakeBytes(con, [p.first], 1, p.raw, rest);
      var bytes;
      ret, bytes := TakeEvent(p.raw, rest);
      if ret != Ok {
        return;
      }
      NothingLeft(con, rest);
      if hasChecksums {
        var good := CheckChecksum(bytes);
        if !good {
          return BadChecksum;
        }
      }
      if con.packetSize != 0 {
        return UnexpectedData;
      }
      con.stack := con.stack[1..];
      con.stack := [BinlogRead] + con.stack;
      con.stack := [PacketRead] + con.stack;
    }

    /** The checksum in the last four bytes, compared if that is wanted. */
    method CheckChecksum(bytes: seq<byte>) returns (good: bool)
      requires |bytes| >= 19
      modifies this`checksum
      ensures good <==> !WrongChecksum(bytes)
      ensures checksum == LeValue(bytes[|bytes| - CRC_LENGTH..])
    {
      hide LeValue;
      checksum := LeValue(bytes[|bytes| - CRC_LENGTH..]);
      good := !verifyChecksums || crc32(bytes[..|bytes| - CRC_LENGTH]) == checksum;
    }
  }

  /** The warning count and the status, in this order, in every EOF packet. */
  lemma EofIs(w: nat, s: nat)
    requires w < 65536 && s < 65536
    ensures var b := ReplyBytes(EofReply(w, s, []));
      && |b| == 5 && b[0] == 254 && LeValue(b[1..3]) == w && LeValue(b[3..5]) == s
      && PacketBytes(EndOfColumns(w, s)) == b && BinlogBytes(EndOfBinlog(w, s)) == b
  {
    hide Le, LeValue;
    var b := ReplyBytes(EofReply(w, s, []));
    assert b == [254] + Le(w, 2) + Le(s, 2);
    EofParts(w, s, b);
  }

  lemma BodySlices(raw: seq<byte>, rest: seq<byte>)
    requires |raw| > 27
    ensures var body, n := raw[19..], |raw| - 19;
      && (body + rest)[2..2 + (|raw| - 21)] == raw[21..] && (body + rest)[0..0 + n] == body
      && body[..n] == body && body[..n - CRC_LENGTH] == raw[19..|raw| - CRC_LENGTH] && raw[19..|raw|] == body
  {
  }

  lemma EventBytes(p: BinlogPacket)
    requires p.Event? && BinlogFits(p)
    ensures BinlogBytes(p) == [p.first] + p.raw && |p.raw| >= 19
  {
  }

  lemma NothingLeft(con: Connection, rest: seq<byte>)
    requires Facing(con, [], rest)
    ensures con.Valid() && con.Window() == rest && con.packetSize == 0
  {
    assert [] + rest == rest;
  }

  lemma HeaderIs(raw: seq<byte>)
    requires |raw| >= 19
    ensures var h := HeaderOf(raw); h.kind == raw[4] && h.rawLength == LeValue(raw[9..13]) && h.data == None
  {
    hide LeValue;
  }

  lemma HeaderSlices(raw: seq<byte>, rest: seq<byte>)
    requires |raw| >= 19
    ensures var w := raw + rest;
      && w[0..0 + 4] == raw[0..4] && w[4] == raw[4] && w[5..5 + 4] == raw[5..9] && w[9..9 + 4] == raw[9..13]
      && w[13..13 + 4] == raw[13..17] && w[17..17 + 2] == raw[17..19]
  {
  }

  lemma BinlogStart(p: BinlogPacket, rest: seq<byte>)
    requires BinlogFits(p)
    ensures var w := BinlogBytes(p) + rest;
      && (|BinlogBytes(p)| == 5 && w[0] == 254 <==> p.EndOfBinlog?)
      && (p.EndOfBinlog? ==> w[..5] == BinlogBytes(p))
      && (!p.EndOfBinlog? ==> (w[0] == 255 <==> p.BinlogError?))
    ensures p.BinlogError? ==> |BinlogBytes(p)| >= 9
  {
  }
}
