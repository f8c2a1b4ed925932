/** Whole runs of the protocol machine: what every state function and every entry
    point of the library does with the stack (src/conn.cc, src/state.cc,
    src/command.cc, src/handshake.cc, src/result.cc, src/column.cc, src/row.cc,
    src/field.cc, src/binlog.cc), seen from the stack and the two sizes that the
    consumers of packets compare. */
module Protocol {
  import opened StateStack
  import opened Connection

  /** `packet` tells whether the packet announced last has yet to be taken by a
      consumer; the source has no such flag. */
  datatype Machine = Machine(stack: seq<StateFn>, bufferSize: nat, packetSize: nat, packet: bool)

  /** What one function does with the stack: nothing, clear it, or take its own entry
      off (or not) and push some, given top first. */
  datatype Change = Stay | ClearAll | Replace(above: seq<StateFn>) | Put(above: seq<StateFn>)

  function After(stack: seq<StateFn>, c: Change): seq<StateFn>
    requires c.Replace? ==> stack != []
  {
    match c
    case Stay => stack
    case ClearAll => []
    case Replace(above) => above + stack[1..]
    case Put(above) => above + stack
  }

  const POP := Replace([])
  const MORE_DATA := Put([Read])

  /** What drizzle_state_handshake_server_read pushes. */
  function Answer(ssl: bool): seq<StateFn> {
    (if ssl then [HandshakeSslClientWrite, Write] else []) + [HandshakeClientWrite, Write, PacketRead, HandshakeResultRead]
  }

  /** The test a consumer makes before it takes its packet. */
  predicate LacksData(m: Machine, f: StateFn) {
    match f
    case RowRead => m.packetSize != 0 && m.bufferSize < m.packetSize && m.bufferSize < 5
    case BinlogRead => m.packetSize != 0 && m.bufferSize < m.packetSize
    case _ => m.bufferSize < m.packetSize
  }

  /** The changes the function on top of the stack may make when it does not fail. */
  predicate Allowed(m: Machine, c: Change)
    requires m.stack != []
  {
    match m.stack[0]
    case Addrinfo => c == POP
    case Connect => c in {POP, Stay, Replace([Connecting])}
    case Connecting => c in {POP, Stay, Replace([Connect])}
    case Read => c in {POP, Stay, Replace([Connect])}
    case PacketRead => c in {POP, MORE_DATA}
    case HandshakeServerRead =>
      // an error packet is taken, and the function stays
      if LacksData(m, HandshakeServerRead) then c == MORE_DATA
      else c == Stay || (m.packet && (c == POP || c == Replace(Answer(true)) || c == Replace(Answer(false))))
    case HandshakeSslClientWrite => c == POP
    case HandshakeClientWrite => c in {POP, Stay}
    case Write => c in {POP, Stay}
    case CommandWrite =>
      c in {Stay, Put([Write]), Replace([Write]), Replace([Write, PacketRead, ResultRead])}
    case RowRead =>
      if LacksData(m, RowRead) then c == MORE_DATA else c == POP || c == Replace([ResultRead])
    case BinlogRead =>
      if LacksData(m, BinlogRead) then c == MORE_DATA else c == POP || c == Replace([PacketRead, BinlogRead])
    case FieldRead => c in {POP, Stay, MORE_DATA}
    case BinaryNullRead => c == POP
    case BinaryFieldRead => c in {POP, Stay}
    case f => if LacksData(m, f) then c == MORE_DATA else c == POP
  }

  /** What the entry points push on an empty stack: drizzle_connect,
      drizzle_command_write, the readers of results, columns, rows, fields and
      binlog events, and the two parts of a handshake done by hand. */
  predicate Opens(c: Change) {
    || c in {Put([Addrinfo, Connect, PacketRead, HandshakeServerRead]), Put([CommandWrite])}
    || c in {Put([PacketRead, ResultRead]), Put([PacketRead, ColumnRead]), Put([PacketRead, RowRead])}
    || c in {Put([FieldRead]), Put([BinaryNullRead]), Put([BinaryFieldRead]), Put([PacketRead, BinlogRead])}
    || c in {Put([PacketRead, HandshakeServerRead]), Put([HandshakeClientWrite, Write])}
    || c == Put([HandshakeSslClientWrite, Write, HandshakeClientWrite, Write])
  }

  /** A dump request on its way, or its reply. */
  predicate DumpWaits(s: seq<StateFn>) {
    |s| == 3 && s[0] in {Write, Read, Connecting} && s[1..] == [PacketRead, ResultRead]
  }

  /** Entry points: those for an empty stack, and the two that do not ask whether it is
      empty.  drizzle_binlog_start without blocking pushes its states above a request
      that waits, and drizzle_field_read those for the bitmap above a value that was
      cut. */
  predicate Enters(stack: seq<StateFn>, c: Change) {
    || (stack == [] && Opens(c))
    || (DumpWaits(stack) && c == Put([PacketRead, BinlogRead]))
    || (stack == [BinaryFieldRead] && c == Put([BinaryNullRead]))
  }

  /** Whether the packet announced last is still to be taken. */
  function PacketAfter(m: Machine, c: Change): bool {
    if m.stack == [] || c == ClearAll then false
    else if m.stack[0] == PacketRead && c == POP then true
    else if Consumer(m.stack[0]) && c != MORE_DATA && c != Replace([ResultRead]) then false
    else m.packet
  }

  /** One step.  A failure closes the connection.  drizzle_state_packet_read pops
      itself only when the packet it announces is in the buffer (see
      Connection.StatePacketRead); a row reader that hands an error packet on leaves
      it in the buffer, and an error packet leaves no packet_size. */
  predicate Step(m: Machine, c: Change, n: Machine) {
    && (c == ClearAll || Enters(m.stack, c) || (m.stack != [] && Allowed(m, c)))
    && n.stack == After(m.stack, c) && n.packet == PacketAfter(m, c)
    && (m.stack != [] && m.stack[0] == PacketRead && c == POP ==> n.packetSize <= n.bufferSize)
    && (m.stack != [] && m.stack[0] == HandshakeServerRead && c == Stay ==> n.packetSize == 0)
    && (c == Replace([ResultRead]) ==> n.bufferSize == m.bufferSize && n.packetSize == m.packetSize)
  }

  // ------------------------------------------------------------- the invariant

  /** What can lie beneath a read of more bytes. */
  predicate Resumable(s: seq<StateFn>) {
    s == [FieldRead] || (|s| == 2 && s[0] == PacketRead && Consumer(s[1]))
  }

  /** The stacks of a connection that is writing. */
  predicate Writes(s: seq<StateFn>) {
    || s in {[CommandWrite], [Write, CommandWrite], [Write], [Write, PacketRead, ResultRead]}
    || s in {[HandshakeClientWrite, Write], [Write, HandshakeClientWrite, Write]}
    || s == [HandshakeSslClientWrite, Write, HandshakeClientWrite, Write]
    || s in {[Write, PacketRead, HandshakeResultRead], [HandshakeClientWrite, Write, PacketRead, HandshakeResultRead]}
    || s == [Write, HandshakeClientWrite, Write, PacketRead, HandshakeResultRead]
    || s == [HandshakeSslClientWrite, Write, HandshakeClientWrite, Write, PacketRead, HandshakeResultRead]
  }

  /** The part of the stack that belongs to a binlog dump. */
  predicate Dumps(s: seq<StateFn>) {
    || s == [BinlogRead] || s == [PacketRead, BinlogRead]
    || (|s| == 3 && s[0] in {Read, Connect, Connecting} && s[1..] == [PacketRead, BinlogRead])
  }

  /** A dump that was begun above its own request. */
  predicate DumpsEarly(s: seq<StateFn>) {
    |s| > 3 && Dumps(s[..|s| - 3]) && DumpWaits(s[|s| - 3..])
  }

  predicate Shape(s: seq<StateFn>) {
    || s == [] || Resumable(s) || Writes(s) || DumpsEarly(s) || s == [BinaryNullRead, BinaryFieldRead]
    || (|s| == 1 && (Consumer(s[0]) || s[0] == BinaryNullRead || s[0] == BinaryFieldRead))
    || (|s| > 1 && s[0] in {Read, Connect, Connecting} && Resumable(s[1..]))
    || s == [Addrinfo, Connect, PacketRead, HandshakeServerRead]
  }

  /** Shape, and a consumer on top has its whole packet; only the reader of the
      greeting can be without one. */
  predicate Inv(m: Machine) {
    && Shape(m.stack)
    && (m.stack != [] && Consumer(m.stack[0]) ==>
          m.packetSize <= m.bufferSize && (m.packet || m.stack == [HandshakeServerRead]))
  }

  lemma ShapeIsShallow(s: seq<StateFn>)
    requires Shape(s)
    ensures |s| <= 6
  {
  }

  /** No consumer ever asks for more data. */
  lemma ConsumersHaveData(m: Machine, c: Change)
    requires Inv(m) && m.stack != [] && Consumer(m.stack[0]) && Allowed(m, c)
    ensures c != MORE_DATA
  {
  }

  lemma OpeningKeeps(m: Machine, c: Change, n: Machine)
    requires m.stack == [] && Step(m, c, n)
    ensures Inv(n)
  {
    hide DumpsEarly;
    if c.Put? {
      assert n.stack == c.above;
    }
  }

  /** The entry points that do not ask whether the stack is empty. */
  lemma EnteringKeeps(m: Machine, c: Change, n: Machine)
    requires m.stack != [] && Enters(m.stack, c) && Step(m, c, n)
    ensures Inv(n)
  {
    if DumpWaits(m.stack) {
      assert n.stack[..2] == [PacketRead, BinlogRead] && n.stack[2..] == m.stack;
    } else {
      assert n.stack == [BinaryNullRead, BinaryFieldRead];
    }
  }

  /** A dump begun early runs as any other and uncovers its request only when it ends. */
  lemma DumpKeeps(m: Machine, c: Change, n: Machine)
    requires Inv(m) && DumpsEarly(m.stack) && Step(m, c, n) && c != ClearAll && !Enters(m.stack, c)
    ensures Inv(n)
  {
    hide DumpsEarly, Dumps, DumpWaits, Writes, Resumable, Shape, Step, Inv, Allowed;
    var t, w := EarlyParts(m.stack);
    StepIsAllowed(m, c, n);
    StepIsStep(m, c, n);
    EarlySteps(m, c, t);
    if c == Stay {
      StayKeeps(m, n);
    } else {
      var above, below := c.above, if c.Put? then t else t[1..];
      StackAbove(m.stack, c, t, w);
      if above + below == [] {
        assert n.stack == w;
        WaitIsShape(w);
      } else {
        SplitEarly(above + below, w, n.stack);
      }
      TopKeeps(n);
    }
  }

  /** Nothing runs the request beneath a dump begun early before the dump has ended: if
      it was not sent by then, the dump waits for ever. */
  lemma RequestWaits(m: Machine, c: Change, n: Machine)
    requires Inv(m) && DumpsEarly(m.stack) && Step(m, c, n) && c != ClearAll && !Enters(m.stack, c)
    ensures |n.stack| >= 3 && n.stack[|n.stack| - 3..] == m.stack[|m.stack| - 3..]
    ensures |n.stack| == 3 ==> m.stack[0] == BinlogRead && c == POP
  {
    hide DumpsEarly, Dumps, DumpWaits, Writes, Resumable, Shape, Step, Inv, Allowed;
    var t, w := EarlyParts(m.stack);
    Lengths(t, w);
    StepIsAllowed(m, c, n);
    if c != Stay {
      StackAbove(m.stack, c, t, w);
      OneEndsIt(m, c, t);
    }
  }

  lemma OneEndsIt(m: Machine, c: Change, t: seq<StateFn>)
    requires Inv(m) && m.stack != [] && Dumps(t) && t[0] == m.stack[0] && Allowed(m, c) && c != ClearAll
    ensures c.Replace? && c.above + t[1..] == [] ==> m.stack[0] == BinlogRead && c == POP
  {
    hide Shape;
  }

  lemma StackAbove(s: seq<StateFn>, c: Change, t: seq<StateFn>, w: seq<StateFn>)
    requires s == t + w && t != [] && (c.Put? || c.Replace?)
    ensures After(s, c) == (c.above + if c.Put? then t else t[1..]) + w
  {
    if c.Replace? {
      assert s[1..] == t[1..] + w;
    }
  }

  lemma EarlyParts(s: seq<StateFn>) returns (t: seq<StateFn>, w: seq<StateFn>)
    requires DumpsEarly(s)
    ensures s == t + w && Dumps(t) && DumpWaits(w) && t != [] && t[0] == s[0]
  {
    t, w := s[..|s| - 3], s[|s| - 3..];
  }

  lemma StayKeeps(m: Machine, n: Machine)
    requires Inv(m) && DumpsEarly(m.stack) && Allowed(m, Stay) && n.stack == m.stack
    ensures Inv(n)
  {
  }

  lemma TopKeeps(n: Machine)
    requires Shape(n.stack) && n.stack != []
    requires Consumer(n.stack[0]) ==> n.packetSize <= n.bufferSize && n.packet
    ensures Inv(n)
  {
  }

  /** What the functions of a dump do with their part of the stack. */
  lemma EarlySteps(m: Machine, c: Change, t: seq<StateFn>)
    requires Inv(m) && m.stack != [] && Dumps(t) && t[0] == m.stack[0] && Allowed(m, c) && c != ClearAll
    ensures c.Put? ==> c.above == [Read] && Dumps([Read] + t)
    ensures c.Replace? && c.above + t[1..] != [] ==>
      Dumps(c.above + t[1..]) && ((c.above + t[1..])[0] == BinlogRead ==> m.stack[0] == PacketRead && c == POP)
  {
    hide Shape;
    assert [BinlogRead][1..] == [] && [PacketRead, BinlogRead][1..] == [BinlogRead];
    if c.Put? {
      assert ([Read] + t)[1..] == t;
    } else if c.Replace? {
      assert |t| == 3 && c.above != [] ==> (c.above + t[1..])[1..] == t[1..];
      assert [PacketRead, BinlogRead] + [] == [PacketRead, BinlogRead];
    }
  }

  lemma SplitEarly(t: seq<StateFn>, w: seq<StateFn>, s: seq<StateFn>)
    requires Dumps(t) && DumpWaits(w) && s == t + w
    ensures Shape(s) && s[0] == t[0]
  {
    hide Dumps, DumpWaits;
    Lengths(t, w);
    assert s[..|s| - 3] == t && s[|s| - 3..] == w;
  }

  lemma Lengths(t: seq<StateFn>, w: seq<StateFn>)
    requires Dumps(t) && DumpWaits(w)
    ensures |t| > 0 && |w| == 3
  {
  }

  lemma WaitIsShape(w: seq<StateFn>)
    requires DumpWaits(w)
    ensures Shape(w) && !Consumer(w[0])
  {
    if w[0] == Write {
      assert w == [Write, PacketRead, ResultRead];
    } else {
      assert Resumable(w[1..]);
    }
  }

  lemma StepIsStep(m: Machine, c: Change, n: Machine)
    requires Step(m, c, n) && m.stack != []
    ensures n.packet == PacketAfter(m, c)
    ensures m.stack[0] == PacketRead && c == POP ==> n.packetSize <= n.bufferSize && n.packet
  {
  }

  /** A wait for bytes, an attempt to connect above it, or the packet header itself. */
  lemma ReadingKeeps(m: Machine, c: Change, n: Machine)
    requires m.stack != [] && Step(m, c, n) && c != ClearAll && !Enters(m.stack, c)
    requires Resumable(m.stack) || (m.stack[0] in {Read, Connect, Connecting} && Resumable(m.stack[1..]))
    ensures Inv(n)
  {
    hide Inv, Shape, Step, Enters, Resumable, Allowed;
    StepIsAllowed(m, c, n);
    StepIsStep(m, c, n);
    ReadingSteps(m, c, n.stack);
    if n.stack == [] {
      NothingIsFine(n);
    } else {
      TopKeeps(n);
    }
  }

  lemma ReadingSteps(m: Machine, c: Change, s: seq<StateFn>)
    requires m.stack != [] && Allowed(m, c) && c != ClearAll && s == After(m.stack, c)
    requires Resumable(m.stack) || (m.stack[0] in {Read, Connect, Connecting} && Resumable(m.stack[1..]))
    ensures Shape(s)
    ensures s != [] && Consumer(s[0]) ==> m.stack[0] == PacketRead && c == POP
  {
    hide Shape, Resumable, Allowed;
    ReadingChanges(m, c);
    var rest := m.stack[1..];
    if c.Put? {
      assert s == [Read] + m.stack && s[1..] == m.stack;
      WaitIsReading(s);
    } else if c.Replace? && c.above == [] {
      assert s == rest;
      RestIsShape(m.stack);
    } else if c.Replace? {
      assert s == [c.above[0]] + rest && s[1..] == rest;
      WaitIsReading(s);
    } else {
      WaitOrPacket(s);
    }
  }

  /** What the functions of a read may do. */
  lemma ReadingChanges(m: Machine, c: Change)
    requires m.stack != [] && Allowed(m, c) && c != ClearAll
    requires Resumable(m.stack) || (m.stack[0] in {Read, Connect, Connecting} && Resumable(m.stack[1..]))
    ensures c.Put? ==> c == MORE_DATA && Resumable(m.stack)
    ensures c.Replace? && c.above != [] ==>
      |c.above| == 1 && c.above[0] in {Connect, Connecting} && Resumable(m.stack[1..])
    ensures !Consumer(m.stack[0])
  {
  }

  lemma WaitIsReading(s: seq<StateFn>)
    requires |s| > 1 && s[0] in {Read, Connect, Connecting} && Resumable(s[1..])
    ensures Shape(s)
  {
  }

  lemma WaitOrPacket(s: seq<StateFn>)
    requires s != [] && (Resumable(s) || (s[0] in {Read, Connect, Connecting} && Resumable(s[1..])))
    ensures Shape(s)
  {
  }

  lemma RestIsShape(s: seq<StateFn>)
    requires s != [] && (Resumable(s) || (s[0] in {Read, Connect, Connecting} && Resumable(s[1..])))
    ensures Shape(s[1..])
    ensures s[1..] != [] && Consumer(s[1..][0]) ==> s[0] == PacketRead
  {
    hide DumpsEarly, Writes;
  }

  lemma AddrinfoKeeps(m: Machine, c: Change, n: Machine)
    requires m.stack == [Addrinfo, Connect, PacketRead, HandshakeServerRead] && Step(m, c, n) && c != ClearAll && !Enters(m.stack, c)
    ensures Inv(n)
  {
    hide DumpsEarly, Enters;
    assert n.stack == m.stack[1..] == [Connect] + [PacketRead, HandshakeServerRead];
    assert n.stack[1..] == [PacketRead, HandshakeServerRead];
  }

  lemma SingleKeeps(m: Machine, c: Change, n: Machine)
    requires Inv(m) && |m.stack| == 1 && Step(m, c, n) && c != ClearAll && !Enters(m.stack, c)
    requires Consumer(m.stack[0]) || m.stack[0] == BinaryNullRead || m.stack[0] == BinaryFieldRead
    ensures Inv(n)
  {
    hide DumpsEarly, Enters;
    if Consumer(m.stack[0]) {
      ConsumersHaveData(m, c);
    }
    if c.Replace? {
      assert m.stack[1..] == [] && n.stack == c.above;
      AnswerIs();
    }
  }

  lemma AnswerIs()
    ensures Answer(true) == [HandshakeSslClientWrite, Write, HandshakeClientWrite, Write, PacketRead, HandshakeResultRead]
    ensures Answer(false) == [HandshakeClientWrite, Write, PacketRead, HandshakeResultRead]
  {
  }

  lemma CommandKeeps(m: Machine, c: Change, n: Machine)
    requires m.stack in {[CommandWrite], [Write, CommandWrite], [Write], [Write, PacketRead, ResultRead]}
    requires Step(m, c, n) && c != ClearAll && !Enters(m.stack, c)
    ensures Inv(n)
  {
    hide DumpsEarly, Enters;
    Tails();
    if c.Replace? {
      assert m.stack == [CommandWrite] ==> n.stack == c.above;
      assert c.above == [] ==> n.stack == m.stack[1..];
    } else if c.Put? {
      assert n.stack == [Write, CommandWrite];
    }
  }

  lemma Tails()
    ensures [CommandWrite][1..] == [] && [Write, CommandWrite][1..] == [CommandWrite] && [Write][1..] == []
    ensures [Write, PacketRead, ResultRead][1..] == [PacketRead, ResultRead]
  {
  }

  /** The stacks of a handshake that is writing. */
  predicate Handshaking(s: seq<StateFn>) {
    Writes(s) && s !in {[CommandWrite], [Write, CommandWrite], [Write], [Write, PacketRead, ResultRead]}
  }

  lemma WritesPop(s: seq<StateFn>)
    requires Handshaking(s)
    ensures Writes(s[1..]) || Resumable(s[1..])
  {
    Suffixes();
  }

  /** Below a write there is no consumer on top. */
  lemma NoConsumerOnTop(s: seq<StateFn>)
    requires Writes(s) || Resumable(s)
    ensures Shape(s) && s != [] && !Consumer(s[0])
    ensures Handshaking(s) ==> s[0] in {HandshakeSslClientWrite, HandshakeClientWrite, Write}
  {
  }

  /** The writes of a handshake pop one after another. */
  lemma HandshakeKeeps(m: Machine, c: Change, n: Machine)
    requires Handshaking(m.stack) && Step(m, c, n) && c != ClearAll && !Enters(m.stack, c)
    ensures Inv(n)
  {
    hide Writes, Handshaking, Shape, Resumable;
    HandshakingWrites(m.stack);
    NoConsumerOnTop(m.stack);
    if c != Stay {
      assert n.stack == m.stack[1..];
      WritesPop(m.stack);
      NoConsumerOnTop(n.stack);
    }
  }

  lemma HandshakingWrites(s: seq<StateFn>)
    requires Handshaking(s)
    ensures Writes(s)
  {
  }

  lemma Suffixes()
    ensures [HandshakeClientWrite, Write][1..] == [Write]
    ensures [Write, HandshakeClientWrite, Write][1..] == [HandshakeClientWrite, Write]
    ensures [HandshakeSslClientWrite, Write, HandshakeClientWrite, Write][1..] == [Write, HandshakeClientWrite, Write]
    ensures [Write, PacketRead, HandshakeResultRead][1..] == [PacketRead, HandshakeResultRead]
    ensures [HandshakeClientWrite, Write, PacketRead, HandshakeResultRead][1..] == [Write, PacketRead, HandshakeResultRead]
    ensures [Write, HandshakeClientWrite, Write, PacketRead, HandshakeResultRead][1..] ==
      [HandshakeClientWrite, Write, PacketRead, HandshakeResultRead]
    ensures [HandshakeSslClientWrite, Write, HandshakeClientWrite, Write, PacketRead, HandshakeResultRead][1..] ==
      [Write, HandshakeClientWrite, Write, PacketRead, HandshakeResultRead]
  {
  }

  lemma ClearKeeps(m: Machine, n: Machine)
    requires Step(m, ClearAll, n)
    ensures Inv(n)
  {
  }

  /** What is neither writing, nor single, nor pushed from outside is reading. */
  lemma OtherShapes(m: Machine)
    requires Inv(m) && m.stack != [] && m.stack != [Addrinfo, Connect, PacketRead, HandshakeServerRead]
    requires m.stack != [BinaryNullRead, BinaryFieldRead] && !DumpsEarly(m.stack) && !Writes(m.stack)
    ensures if |m.stack| == 1 && m.stack != [FieldRead] then
        Consumer(m.stack[0]) || m.stack[0] == BinaryNullRead || m.stack[0] == BinaryFieldRead
      else Resumable(m.stack) || (m.stack[0] in {Read, Connect, Connecting} && Resumable(m.stack[1..]))
  {
    hide DumpsEarly, Writes;
  }

  lemma BitmapKeeps(m: Machine, c: Change, n: Machine)
    requires m.stack == [BinaryNullRead, BinaryFieldRead] && Step(m, c, n) && c != ClearAll && !Enters(m.stack, c)
    ensures Inv(n)
  {
    hide Inv, Shape, Step, Enters;
    StepIsAllowed(m, c, n);
    assert n.stack == [BinaryFieldRead];
    ValueIsShape();
    TopKeeps(n);
  }

  lemma ValueIsShape()
    ensures Shape([BinaryFieldRead])
  {
  }

  /** Every step of every function keeps the invariant. */
  lemma StepKeeps(m: Machine, c: Change, n: Machine)
    requires Inv(m) && Step(m, c, n)
    ensures Inv(n)
  {
    hide Inv, Step, Enters, DumpsEarly, Writes, Resumable, Allowed;
    if m.stack == [] {
      OpeningKeeps(m, c, n);
    } else if c == ClearAll {
      ClearKeeps(m, n);
    } else if Enters(m.stack, c) {
      EnteringKeeps(m, c, n);
    } else if DumpsEarly(m.stack) {
      DumpKeeps(m, c, n);
    } else if m.stack == [BinaryNullRead, BinaryFieldRead] {
      BitmapKeeps(m, c, n);
    } else if m.stack == [Addrinfo, Connect, PacketRead, HandshakeServerRead] {
      AddrinfoKeeps(m, c, n);
    } else if m.stack in {[CommandWrite], [Write, CommandWrite], [Write], [Write, PacketRead, ResultRead]} {
      CommandKeeps(m, c, n);
    } else if Writes(m.stack) {
      HandshakeKeeps(m, c, n);
    } else {
      OtherShapes(m);
      if |m.stack| == 1 && m.stack != [FieldRead] {
        SingleKeeps(m, c, n);
      } else {
        ReadingKeeps(m, c, n);
      }
    }
  }

  /** A run: every machine follows from the one before by a step. */
  predicate IsRun(run: seq<Machine>, changes: seq<Change>) {
    && |run| == |changes| + 1 && run[0].stack == []
    && forall i :: 0 <= i < |changes| ==> Step(run[i], changes[i], run[i + 1])
  }

  /** In every run the stack is at most six deep, and a consumer on top has its whole
      packet in the buffer, so that no consumer ever pushes a read.  It is its own
      packet, not taken before, unless the function before it was the reader of the
      greeting, which has just reported the server's error and stayed. */
  lemma {:induction false} RunsAreSafe(run: seq<Machine>, changes: seq<Change>, i: nat)
    requires IsRun(run, changes) && i < |run|
    ensures Inv(run[i]) && |run[i].stack| <= 6
    ensures i < |changes| && run[i].stack != [] && Consumer(run[i].stack[0]) ==> changes[i] != MORE_DATA
    ensures run[i].stack != [] && Consumer(run[i].stack[0]) ==>
      (!run[i].packet <==> i > 0 && run[i - 1].stack == [HandshakeServerRead] && changes[i - 1] == Stay)
  {
    hide Shape, Step;
    if i > 0 {
      RunsAreSafe(run, changes, i - 1);
      StepKeeps(run[i - 1], changes[i - 1], run[i]);
      WithoutPacket(run[i - 1], changes[i - 1], run[i]);
    } else {
      NothingIsFine(run[0]);
    }
    ShapeIsShallow(run[i].stack);
    if i < |changes| && run[i].stack != [] && Consumer(run[i].stack[0]) && changes[i] == MORE_DATA {
      NoEntry(run[i].stack, changes[i]);
      StepIsAllowed(run[i], changes[i], run[i + 1]);
      ConsumersHaveData(run[i], changes[i]);
    }
  }

  /** Nothing is pushed above a consumer from outside. */
  lemma NoEntry(s: seq<StateFn>, c: Change)
    requires s != [] && Consumer(s[0])
    ensures !Enters(s, c)
  {
  }

  /** A consumer lies directly beneath the reader of its packet only. */
  lemma ConsumersLieLow(s: seq<StateFn>)
    requires Shape(s) && |s| > 1
    ensures Consumer(s[1]) ==> s[0] == PacketRead
  {
    hide DumpsEarly, Writes, Resumable;
    if DumpsEarly(s) {
      EarlyLiesLow(s);
    } else if Writes(s) {
      WritesLieLow(s);
    } else if Resumable(s) {
      PacketBelow(s);
    } else if Resumable(s[1..]) {
      PacketBelow(s[1..]);
      assert s[1] == s[1..][0];
    }
  }

  lemma PacketBelow(s: seq<StateFn>)
    requires Resumable(s)
    ensures s != [] && !Consumer(s[0]) && (|s| > 1 ==> s[0] == PacketRead)
  {
  }

  lemma WritesLieLow(s: seq<StateFn>)
    requires Writes(s) && |s| > 1
    ensures !Consumer(s[1])
  {
  }

  lemma EarlyLiesLow(s: seq<StateFn>)
    requires DumpsEarly(s)
    ensures Consumer(s[1]) ==> s[0] == PacketRead
  {
    var t, w := s[..|s| - 3], s[|s| - 3..];
    assert s == t + w;
    assert |t| == 1 ==> s[1] == w[0];
    assert |t| > 1 ==> s[1] == t[1];
  }

  /** What is on top behind a step that is no entry point. */
  lemma NewTop(m: Machine, c: Change)
    requires m.stack != [] && Allowed(m, c) && After(m.stack, c) != []
    ensures Consumer(After(m.stack, c)[0]) ==>
      c == Stay || (c == POP && |m.stack| > 1 && Consumer(m.stack[1])) || (c == Replace([ResultRead]) && m.stack[0] == RowRead)
  {
    AnswerIs();
  }

  lemma ConsumersStay(m: Machine, c: Change)
    requires Inv(m) && m.stack != [] && Consumer(m.stack[0]) && Allowed(m, c) && c == Stay
    ensures m.stack == [HandshakeServerRead]
  {
    hide Shape;
    GreetingIsAlone(m.stack);
  }

  lemma GreetingIsAlone(s: seq<StateFn>)
    requires Shape(s) && s != []
    ensures s[0] == HandshakeServerRead ==> s == [HandshakeServerRead]
  {
    hide Writes, DumpWaits;
    if DumpsEarly(s) {
      var t, w := EarlyParts(s);
    } else if Writes(s) {
      NoConsumerOnTop(s);
    }
  }

  lemma EntryTops(m: Machine, c: Change)
    requires Enters(m.stack, c)
    ensures var s := After(m.stack, c); s != [] && !Consumer(s[0])
  {
  }

  /** A consumer is without a packet of its own exactly behind a server's error that
      the reader of the greeting has reported. */
  lemma WithoutPacket(m: Machine, c: Change, n: Machine)
    requires Inv(m) && Step(m, c, n)
    ensures n.stack != [] && Consumer(n.stack[0]) ==>
      (!n.packet <==> m.stack == [HandshakeServerRead] && c == Stay)
  {
    hide Shape, Allowed, Enters;
    if n.stack == [] {
    } else if Enters(m.stack, c) {
      EntryTops(m, c);
    } else {
      StepIsAllowed(m, c, n);
      NewTop(m, c);
      if c == Stay {
        if Consumer(m.stack[0]) {
          ConsumersStay(m, c);
        }
      } else if c == POP && |m.stack| > 1 {
        ConsumersLieLow(m.stack);
      }
    }
  }

  /** Such a consumer reports another error or fails: nothing else happens before the
      connection is closed. */
  lemma WithoutPacketRefuses(m: Machine, c: Change, n: Machine)
    requires Inv(m) && Step(m, c, n) && m.stack != [] && Consumer(m.stack[0]) && !m.packet
    ensures m.stack == [HandshakeServerRead] && c in {Stay, ClearAll}
    ensures n.stack != [] ==> n.stack == m.stack && !n.packet
  {
    hide Shape;
    NoEntry(m.stack, c);
  }

  /** A server that answers the connection with an error leaves the reader of the
      greeting on the stack without a packet. */
  lemma RefusalIsReached() returns (run: seq<Machine>, changes: seq<Change>)
    ensures IsRun(run, changes) && changes != [] && changes[|changes| - 1] == Stay
    ensures run[|changes|].stack == [HandshakeServerRead] && !run[|changes|].packet
  {
    hide Step;
    var chain := [Addrinfo, Connect, PacketRead, HandshakeServerRead];
    var n0, n1, n2 := Machine([], 0, 0, false), Machine(chain, 24, 0, false), Machine(chain[1..], 24, 0, false);
    var n3, n4, n5 := Machine(chain[2..], 24, 20, false), Machine(chain[3..], 20, 20, true), Machine(chain[3..], 0, 0, false);
    run := [n0, n1, n2, n3, n4, n5];
    changes := [Put(chain), POP, POP, POP, Stay];
    ConnectSteps(n0, n1);
    PopSteps(n1, n2);
    PopSteps(n2, n3);
    PopSteps(n3, n4);
    RefusalSteps(n4, n5);
  }

  lemma RefusalSteps(m: Machine, n: Machine)
    requires m.stack == [HandshakeServerRead] == n.stack && m.packetSize <= m.bufferSize
    requires n.packet == PacketAfter(m, Stay) && n.packetSize == 0
    ensures Step(m, Stay, n)
  {
  }

  lemma NothingIsFine(m: Machine)
    requires m.stack == []
    ensures Inv(m)
  {
  }

  lemma StepIsAllowed(m: Machine, c: Change, n: Machine)
    requires Step(m, c, n) && m.stack != [] && c != ClearAll && !Enters(m.stack, c)
    ensures Allowed(m, c) && n.stack == After(m.stack, c)
  {
  }

  /** The bound is reached: a connection over SSL goes six deep. */
  lemma SixIsReached() returns (run: seq<Machine>, changes: seq<Change>)
    ensures IsRun(run, changes) && |run[|run| - 1].stack| == 6
  {
    hide Step;
    var chain := [Addrinfo, Connect, PacketRead, HandshakeServerRead];
    var n0, n1, n2 := Machine([], 0, 0, false), Machine(chain, 50, 46, false), Machine(chain[1..], 50, 46, false);
    var n3, n4, n5 := Machine(chain[2..], 50, 46, false), Machine(chain[3..], 46, 46, true), Machine(Answer(true), 0, 46, false);
    run := [n0, n1, n2, n3, n4, n5];
    changes := [Put(chain), POP, POP, POP, Replace(Answer(true))];
    ConnectSteps(n0, n1);
    PopSteps(n1, n2);
    PopSteps(n2, n3);
    PopSteps(n3, n4);
    AnswerSteps(n4, n5);
    AnswerIs();
  }

  /** So does a dump that is begun before its request is sent. */
  lemma EarlyDumpIsReached() returns (run: seq<Machine>, changes: seq<Change>)
    ensures IsRun(run, changes) && |run[|changes|].stack| == 6 && DumpsEarly(run[|changes|].stack)
  {
    hide Step;
    var request, dump := [Write, PacketRead, ResultRead], [PacketRead, BinlogRead];
    var n0, n1, n2 := Machine([], 0, 0, false), Machine([CommandWrite], 0, 0, false), Machine(request, 9, 0, false);
    var n3, n4 := Machine(dump + request, 9, 0, false), Machine([Read] + (dump + request), 9, 0, false);
    run := [n0, n1, n2, n3, n4];
    changes := [Put([CommandWrite]), Replace(request), Put(dump), MORE_DATA];
    RequestSteps(n0, n1, n2);
    DumpSteps(n2, n3, n4);
    assert n4.stack[..3] == [Read] + dump && n4.stack[3..] == request && ([Read] + dump)[1..] == dump;
  }

  lemma RequestSteps(m: Machine, n: Machine, o: Machine)
    requires m.stack == [] && n.stack == [CommandWrite] && o.stack == [Write, PacketRead, ResultRead]
    requires !n.packet && !o.packet
    ensures Step(m, Put([CommandWrite]), n) && Step(n, Replace(o.stack), o)
  {
    assert [CommandWrite] + [] == [CommandWrite] && o.stack + [CommandWrite][1..] == o.stack;
  }

  lemma DumpSteps(m: Machine, n: Machine, o: Machine)
    requires m.stack == [Write, PacketRead, ResultRead] && n.stack == [PacketRead, BinlogRead] + m.stack
    requires o.stack == [Read] + n.stack && m.packet == n.packet == o.packet
    ensures Step(m, Put([PacketRead, BinlogRead]), n) && Step(n, MORE_DATA, o)
  {
    assert m.stack[1..] == [PacketRead, ResultRead];
  }

  lemma ConnectSteps(m: Machine, n: Machine)
    requires m.stack == [] && n.stack == [Addrinfo, Connect, PacketRead, HandshakeServerRead]
    requires n.packet == PacketAfter(m, Put(n.stack))
    ensures Step(m, Put(n.stack), n)
  {
    assert n.stack + [] == n.stack;
  }

  lemma PopSteps(m: Machine, n: Machine)
    requires m.stack != [] && m.stack[0] in {Addrinfo, Connect, PacketRead} && n.stack == m.stack[1..]
    requires n.packetSize <= n.bufferSize
    requires n.packet == PacketAfter(m, POP)
    ensures Step(m, POP, n)
  {
    assert [] + m.stack[1..] == m.stack[1..];
  }

  lemma AnswerSteps(m: Machine, n: Machine)
    requires m.stack == [HandshakeServerRead] && m.packet && m.packetSize <= m.bufferSize && n.stack == Answer(true)
    requires n.packet == PacketAfter(m, Replace(Answer(true)))
    ensures Step(m, Replace(Answer(true)), n)
  {
    assert Answer(true) + [] == Answer(true);
  }

  // ------------------------------------------------------------------ the pool

  /** Pushes states, top first, onto the node pool; the pool never runs dry. */
  method PushAll(stack: Stack, above: seq<StateFn>)
    requires stack.Valid() && stack.states.count + |above| <= 8
    modifies stack.states, stack.free, stack.states.repr, stack.free.repr
    ensures stack.Valid() && stack.Contents() == above + old(stack.Contents())
    ensures stack.Pool() == old(stack.Pool())
    ensures fresh(stack.states.repr + stack.free.repr - old(stack.states.repr + stack.free.repr))
  {
    hide Stack.Valid, Stack.Contents, Stack.Pool;
    ghost var before := stack.Contents();
    ghost var mine := stack.states.repr + stack.free.repr;
    var i := |above|;
    assert above[i..] + before == before;
    while i > 0
      invariant i <= |above| && stack.Valid() && stack.Contents() == above[i..] + before
      invariant stack.Pool() == old(stack.Pool())
      invariant fresh(stack.states.repr + stack.free.repr - mine)
    {
      i := i - 1;
      stack.PushState(above[i]);
      assert above[i..] == [above[i]] + above[i + 1..];
    }
    assert above[0..] == above;
  }

  /** One step on the node pool. */
  method Perform(stack: Stack, c: Change)
    requires stack.Valid() && (c.Replace? ==> stack.Contents() != [])
    requires stack.states.count <= 6 && |After(stack.Contents(), c)| <= 6
    modifies stack.states, stack.free, stack.states.repr, stack.free.repr
    ensures stack.Valid() && stack.Contents() == After(old(stack.Contents()), c)
    ensures stack.Pool() == old(stack.Pool())
    ensures fresh(stack.states.repr + stack.free.repr - old(stack.states.repr + stack.free.repr))
  {
    hide Disciplined, PoolOf, Linked, Functions, Ready;
    match c {
      case Stay =>
      case ClearAll =>
        stack.ClearState();
      case Replace(above) =>
        stack.PopState();
        PushAll(stack, above);
      case Put(above) =>
        PushAll(stack, above);
    }
  }

  /** A run on the node pool: the stack of nodes follows the machine, and no node
      ever comes from the heap. */
  method RunOnPool(stack: Stack, ghost run: seq<Machine>, changes: seq<Change>)
    requires stack.Valid() && stack.Contents() == [] && IsRun(run, changes)
    modifies stack.states, stack.free, stack.states.repr, stack.free.repr
    ensures stack.Valid() && stack.Contents() == run[|changes|].stack
    ensures stack.Pool() == old(stack.Pool()) && forall p <- stack.states.nodes :: p in old(stack.Pool())
  {
    hide Disciplined, PoolOf, Linked, Functions, Ready, Shape, Step, Allowed, Opens, Inv;
    ghost var mine := stack.states.repr + stack.free.repr;
    var i := 0;
    while i < |changes|
      invariant i <= |changes| && stack.Valid() && stack.Contents() == run[i].stack
      invariant stack.Pool() == old(stack.Pool())
      invariant fresh(stack.states.repr + stack.free.repr - mine)
    {
      RunsAreSafe(run, changes, i);
      RunsAreSafe(run, changes, i + 1);
      StepStack(run[i], changes[i], run[i + 1]);
      Perform(stack, changes[i]);
      i := i + 1;
    }
    RunsAreSafe(run, changes, |changes|);
    ShallowIsPooled(stack.states.nodes, stack.free.nodes);
  }

  lemma StepStack(m: Machine, c: Change, n: Machine)
    requires Step(m, c, n)
    ensures c.Replace? ==> m.stack != []
    ensures n.stack == After(m.stack, c)
  {
  }

  lemma ShallowIsPooled(states: seq<Packet>, free: seq<Packet>)
    requires Disciplined(states, free) && |states| <= 8
    ensures forall p <- states :: p in PoolOf(states, free)
  {
  }
}
