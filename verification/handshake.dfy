/** The handshake packets, the writer and the reader of each (src/handshake.cc,
    drizzle_pack_auth of src/pack.cc). */
module Handshake {
  import opened Bytes
  import opened Pack
  import opened StateStack
  import opened Connection
  import opened Capabilities
  import opened Consume
  import Login

  const MAX_VERSION := 32
  const MAX_EXTRA := 32
  const MAX_USER := 64

  lemma {:induction false} FirstZero(name: seq<byte>, rest: seq<byte>)
    requires 0 !in name
    ensures FindZero(name + [0] + rest) == |name|
  {
    var s := name + [0] + rest;
    if name != [] {
      FirstZero(name[1..], rest);
      assert s[1..] == name[1..] + [0] + rest;
    }
  }

  function Zeros(n: nat): (s: seq<byte>)
    ensures |s| == n
  {
    seq(n, _ => 0)
  }

  /** What ends the reading of a handshake packet.  PastPacket stands for a packet
      that makes the reader go beyond the received bytes. */
  datatype Problem =
    | ErrorPacket | BadSize | BadProtocol | NoVersion | TooOld | NoUser | WrongScramble | NoDb | Trailing | PastPacket

  datatype Reading<T> = NeedBytes | Bad(problem: Problem) | Got(value: T)

  // -------------------------------------------------------- the server's packet

  datatype Greeting = Greeting(
    version: seq<byte>,
    threadId: nat,
    scramble: seq<byte>,
    capabilities: Flags,
    charset: byte,
    status: nat)

  predicate GreetingFits(g: Greeting) {
    |g.version| < MAX_VERSION && 0 !in g.version && g.threadId < 0x1_0000_0000 && |g.scramble| == 20 && g.status < 65536
  }

  /** What follows the version: 44 bytes. */
  function GreetingTail(g: Greeting): (s: seq<byte>)
    requires |g.scramble| == 20
    ensures |s| == 44
  {
    Le(g.threadId, 4) + g.scramble[..8] + [0] + Le(Word(g.capabilities, 0, 32), 2) + [g.charset] + Le(g.status, 2) +
    Zeros(13) + g.scramble[8..] + [0]
  }

  function GreetingBytes(protocol: byte, g: Greeting): (s: seq<byte>)
    requires |g.scramble| == 20
    ensures |s| == 46 + |g.version|
  {
    [protocol] + g.version + [0] + GreetingTail(g)
  }

  datatype Greeted = Greeted(g: Greeting, extra: seq<byte>)

  /** What drizzle_state_handshake_server_read makes of a packet of `size` bytes at
      the front of the unread bytes. */
  function ReadGreeting(w: seq<byte>, size: nat): Reading<Greeted> {
    if |w| < size then NeedBytes
    else if size > 0 && w[0] == 255 then Bad(ErrorPacket)
    else if size < 46 then Bad(BadSize)
    else if w[0] != 10 then Bad(BadProtocol)
    else
      var n := FindZero(w[1..]);
      if n == |w| - 1 then Bad(NoVersion)
      else if size < 46 + n then Bad(BadSize)
      else ReadTail(Clip(w[1..1 + n], MAX_VERSION), w[n + 2..n + 46], w[n + 46..size], |w| > size)
  }

  /** How far drizzle_state_handshake_server_read has moved buffer_ptr when it is done
      with the fields or refuses the packet. */
  function Passed(w: seq<byte>, size: nat): (k: nat)
    requires size <= |w|
    ensures k <= |w|
  {
    if size < 46 then 0
    else if w[0] != 10 then 1
    else
      var n := FindZero(w[1..]);
      if n == |w| - 1 || size < 46 + n then 1 else PassedTail(w[n + 2..n + 46], n)
  }

  /** The same from the version on, which has n bytes. */
  function PassedTail(t: seq<byte>, n: nat): (k: nat)
    requires |t| == 44
    ensures k <= n + 46
  {
    if PROTOCOL_41 !in FlagsOf(LeValue(t[13..15]), 0, 16) then n + 17 else n + 46
  }

  function ReadTail(version: seq<byte>, t: seq<byte>, extra: seq<byte>, more: bool): Reading<Greeted>
    requires |t| == 44
  {
    var capabilities := FlagsOf(LeValue(t[13..15]), 0, 16);
    if PROTOCOL_41 !in capabilities then Bad(TooOld)
    else if more then Bad(Trailing)
    else
      Got(Greeted(Greeting(version, LeValue(t[..4]), t[4..12] + t[31..43], capabilities, t[15], LeValue(t[16..18])),
                  Clip(extra, MAX_EXTRA)))
  }

  /** When the reader waits and what it takes for an error. */
  lemma WaitsOrRefuses(w: seq<byte>, size: nat)
    ensures ReadGreeting(w, size).NeedBytes? <==> |w| < size
    ensures ReadGreeting(w, size) == Bad(ErrorPacket) <==> |w| >= size > 0 && w[0] == 255
  {
    hide FindZero;
  }

  lemma TailParts(g: Greeting)
    requires |g.scramble| == 20
    ensures var t := GreetingTail(g);
      && t[..4] == Le(g.threadId, 4) && t[13..15] == Le(Word(g.capabilities, 0, 32), 2)
      && t[15] == g.charset && t[16..18] == Le(g.status, 2)
      && t[4..12] == g.scramble[..8] && t[31..43] == g.scramble[8..]
      && t[12] == t[43] == 0 && forall i :: 18 <= i < 31 ==> t[i] == 0
  {
    hide Le, Word;
  }

  lemma TailRoundTrip(version: seq<byte>, g: Greeting, extra: seq<byte>)
    requires GreetingFits(g) && PROTOCOL_41 in g.capabilities
    ensures ReadTail(version, GreetingTail(g), extra, false) ==
      Got(Greeted(g.(version := version, capabilities := Below(g.capabilities, 16)), Clip(extra, MAX_EXTRA)))
  {
    hide Le, Word, GreetingTail, FlagsOf, LeValue, Clip;
    TailParts(g);
    Spans();
    LeRoundTrip(g.threadId, 4);
    LeRoundTrip(g.status, 2);
    LowHalfArrives(g.capabilities);
    assert g.scramble[..8] + g.scramble[8..] == g.scramble;
  }

  /** A client recovers from the server's packet, whatever text the server adds
      behind it, everything but the high half of the capabilities. */
  lemma GreetingRoundTrip(g: Greeting, extra: seq<byte>)
    requires GreetingFits(g) && PROTOCOL_41 in g.capabilities
    ensures var w := GreetingBytes(10, g) + extra;
      ReadGreeting(w, |w|) == Got(Greeted(g.(capabilities := Below(g.capabilities, 16)), Clip(extra, MAX_EXTRA)))
  {
    hide GreetingTail, ReadTail;
    var w, n := GreetingBytes(10, g) + extra, |g.version|;
    assert w[1..] == g.version + [0] + (GreetingTail(g) + extra);
    FirstZero(g.version, GreetingTail(g) + extra);
    assert w[1..1 + n] == g.version && w[n + 2..n + 46] == GreetingTail(g) && w[n + 46..|w|] == extra;
    TailRoundTrip(g.version, g, extra);
    assert w[0] == 10 && FindZero(w[1..]) == n;
  }

  // -------------------------------------------------------- the client's packet

  /** auth is None when no scramble reply is sent. */
  datatype LoginData = LoginData(
    capabilities: Flags,
    maxPacketSize: nat,
    charset: byte,
    user: seq<byte>,
    auth: Option<seq<byte>>,
    db: seq<byte>)

  predicate LoginFits(l: LoginData) {
    && l.capabilities == Below(l.capabilities, 32) && l.maxPacketSize < 0x1_0000_0000
    && |l.user| < MAX_USER && 0 !in l.user && |l.db| < MAX_DB && 0 !in l.db
    && (l.auth.Some? ==> |l.auth.value| == 20)
  }

  function LoginHead(l: LoginData): (s: seq<byte>)
    ensures |s| == 32
  {
    Le(Word(l.capabilities, 0, 32), 4) + Le(l.maxPacketSize, 4) + [l.charset] + Zeros(23)
  }

  function AnswerBytes(auth: Option<seq<byte>>): seq<byte> {
    match auth
    case None => [0]
    case Some(a) => [20] + a
  }

  function AuthBytes(l: LoginData): seq<byte> {
    l.user + [0] + AnswerBytes(l.auth) + l.db + [0]
  }

  function LoginBytes(l: LoginData): seq<byte> {
    LoginHead(l) + AuthBytes(l)
  }

  /** What drizzle_state_handshake_client_read makes of a packet of `size` bytes at
      the front of the unread bytes. */
  function ReadLogin(w: seq<byte>, size: nat): Reading<LoginData> {
    if |w| < size then NeedBytes
    else if size < 34 then Bad(BadSize)
    else
      var capabilities := FlagsOf(LeValue(w[..4]), 0, 32);
      if PROTOCOL_41 !in capabilities then Bad(TooOld)
      else
        var u := FindZero(w[32..]);
        if u == |w| - 32 then Bad(NoUser)
        else if size < 34 + u then Bad(BadSize)
        else
          ReadAuth(LoginData(capabilities, LeValue(w[4..8]), w[8], Clip(w[32..32 + u], MAX_USER), None, []),
                   w[33 + u..], 34 + u, size, |w|)
  }

  /** The same from the scramble size on; `counted` is what the fields so far make the
      packet's size. */
  function ReadAuth(l: LoginData, w: seq<byte>, counted: nat, size: nat, all: nat): Reading<LoginData> {
    if w == [] then Bad(PastPacket)
    else if w[0] == 0 then ReadDb(l, w[1..], counted, size, all)
    else if w[0] != 20 then Bad(WrongScramble)
    else if |w| < 21 then Bad(PastPacket)
    else ReadDb(l.(auth := Some(w[1..21])), w[21..], counted + 20, size, all)
  }

  function ReadDb(l: LoginData, w: seq<byte>, counted: nat, size: nat, all: nat): Reading<LoginData> {
    var short := 34 + |l.user| + if l.auth.Some? then 20 else 0;
    if short == size then (if all > size then Bad(Trailing) else Got(l))
    else
      var d := FindZero(w);
      if d == |w| then (if all - short == |w| then Bad(NoDb) else Bad(PastPacket))
      else if size != counted + d + 1 then Bad(BadSize)
      else if all > size then Bad(Trailing)
      else Got(l.(db := Clip(w[..d], MAX_DB)))
  }

  lemma DbRoundTrip(l: LoginData, before: LoginData, w: seq<byte>, size: nat)
    requires LoginFits(l) && before == l.(db := []) && w == l.db + [0]
    requires size == 34 + |l.user| + (if l.auth.Some? then 20 else 0) + |l.db| + 1
    ensures ReadDb(before, w, size - |l.db| - 1, size, size) == Got(l)
  {
    assert w == l.db + [0] + [];
    FirstZero(l.db, []);
    assert w[..|l.db|] == l.db;
  }

  lemma AuthRoundTrip(l: LoginData, w: seq<byte>, size: nat)
    requires LoginFits(l) && w == AnswerBytes(l.auth) + l.db + [0]
    requires size == 33 + |l.user| + |w|
    ensures ReadAuth(l.(auth := None, db := []), w, 34 + |l.user|, size, size) == Got(l)
  {
    hide ReadDb;
    match l.auth
    case None =>
      assert w == [0] + (l.db + [0]) && w[1..] == l.db + [0];
      DbRoundTrip(l, l.(db := []), w[1..], size);
    case Some(a) =>
      assert w[1..21] == a && w[21..] == l.db + [0];
      DbRoundTrip(l, l.(db := []), w[21..], size);
  }

  /** A server recovers every field from the client's packet. */
  lemma LoginRoundTrip(l: LoginData)
    requires LoginFits(l) && PROTOCOL_41 in l.capabilities
    ensures ReadLogin(LoginBytes(l), |LoginBytes(l)|) == Got(l)
  {
    hide ReadAuth, Le, Word, FlagsOf, LeValue, LoginHead, FindZero, AnswerBytes, Clip;
    var w, h := LoginBytes(l), LoginHead(l);
    var tail := AnswerBytes(l.auth) + l.db + [0];
    AuthSplits(l);
    FirstZero(l.user, tail);
    BehindHead(h, l.user, tail);
    HeadParts(l);
    assert w[..4] == h[..4] && w[4..8] == h[4..8] && w[8] == h[8];
    MaskArrives(l.capabilities);
    Spans();
    LeRoundTrip(l.maxPacketSize, 4);
    ClipFits(l.user, MAX_USER);
    AuthRoundTrip(l, tail, |w|);
  }

  lemma AuthSplits(l: LoginData)
    ensures AuthBytes(l) == l.user + [0] + (AnswerBytes(l.auth) + l.db + [0])
    ensures |AnswerBytes(l.auth) + l.db + [0]| >= 2
  {
  }

  lemma ClipFits(s: seq<byte>, size: nat)
    requires |s| < size
    ensures Clip(s, size) == s
  {
  }

  lemma BehindHead(h: seq<byte>, user: seq<byte>, tail: seq<byte>)
    ensures var w, n := h + (user + [0] + tail), |h|;
      w[n..] == user + [0] + tail && w[n..n + |user|] == user && w[n + 1 + |user|..] == tail
  {
  }

  lemma HeadParts(l: LoginData)
    ensures var h := LoginHead(l);
      h[..4] == Le(Word(l.capabilities, 0, 32), 4) && h[4..8] == Le(l.maxPacketSize, 4) && h[8] == l.charset &&
      forall i :: 9 <= i < 32 ==> h[i] == 0
  {
    hide Le, Word;
  }

  // -------------------------------------------------------- the state functions

  /** The mask the client sends: drizzle_compile_capabilities. */
  function Compiled(f: Flags, foundRows: bool, interactive: bool, multiStatements: bool, authPlugin: bool, hasDb: bool)
    : Flags
  {
    var client := (f + {PROTOCOL_41}) * CLIENT - (if foundRows then {} else {FOUND_ROWS});
    var wanted := client + (if interactive then {INTERACTIVE} else {}) +
      (if multiStatements then {MULTI_STATEMENTS} else {}) + (if authPlugin then {PLUGIN_AUTH} else {});
    wanted - {COMPRESS} - (if hasDb then {} else {CONNECT_WITH_DB})
  }

  /** The mask is fit for the wire, always has the 4.1 protocol, never compression,
      and a database only when there is one. */
  lemma CompiledBits(f: Flags, foundRows: bool, interactive: bool, multiStatements: bool, authPlugin: bool, hasDb: bool)
    ensures var c := Compiled(f, foundRows, interactive, multiStatements, authPlugin, hasDb);
      && c == Below(c, 32) && PROTOCOL_41 in c && COMPRESS !in c
      && (CONNECT_WITH_DB in c <==> hasDb && CONNECT_WITH_DB in f)
      && (FOUND_ROWS in c <==> foundRows && FOUND_ROWS in f)
      && (INTERACTIVE in c <==> interactive) && (MULTI_STATEMENTS in c <==> multiStatements)
      && (PLUGIN_AUTH in c <==> authPlugin || PLUGIN_AUTH in f)
      && (forall b :: b in {0, 2, 13, 15} ==> (b in c <==> b in f))
      && (forall b :: b in c ==> b in {0, 1, 2, 3, 9, 10, 13, 15, 16, 19})
  {
  }

  /** A password sent as it is: strncpy into 20 bytes, the last of them a NUL. */
  function PlainAuth(password: seq<Octet>): (r: seq<Octet>)
    ensures |r| == 20
  {
    seq(20, i requires 0 <= i => if i < |password| && i < 19 then password[i] else 0)
  }

  /** Read as a C string it is the password, up to its first 19 characters; zeros follow. */
  lemma PlainAuthReads(password: seq<Octet>)
    requires 0 !in password
    ensures 0 in PlainAuth(password)
    ensures Login.CString(PlainAuth(password)) == password[..if |password| < 19 then |password| else 19]
    ensures forall i :: |password| <= i < 20 ==> PlainAuth(password)[i] == 0
  {
    var n := if |password| < 19 then |password| else 19;
    var r := PlainAuth(password);
    assert r[..n] == password[..n] && r[n] == 0;
    Login.CStringIs(r, n);
  }

  function RetOf(p: Problem): Ret {
    match p
    case ErrorPacket => ErrorCode
    case BadProtocol => ProtocolNotSupported
    case TooOld => ProtocolNotSupported
    case Trailing => UnexpectedData
    case _ => BadHandshakePacket
  }

  ghost predicate Terminated(memory: array<Octet>)
    reads memory
  {
    0 in memory[..]
  }

  /** The connection during the handshake; text fields are kept without the
      terminator. */
  class Session {
    const con: Connection
    const replies: ReplyReader
    const scrambleBuffer: array<Octet>
    const password: array<Octet>
    const rawScramble: bool
    const authPlugin: bool
    const foundRows: bool
    const interactive: bool
    const multiStatements: bool
    /** NULL, or scrambleBuffer. */
    var scramble: array?<Octet>
    var protocolVersion: byte
    var serverVersion: seq<byte>
    var serverExtra: seq<byte>
    var threadId: nat
    var capabilities: Flags
    var charset: byte
    var status: nat
    var maxPacketSize: nat
    var user: seq<byte>
    var db: seq<byte>

    constructor (con: Connection, replies: ReplyReader, password: array<Octet>, user: seq<byte>, db: seq<byte>,
                 rawScramble: bool, authPlugin: bool, foundRows: bool, interactive: bool, multiStatements: bool)
      requires con.Valid() && replies.con == con && Terminated(password) && con.buffer as object != password as object
      requires |user| < MAX_USER && 0 !in user && |db| < MAX_DB && 0 !in db
      ensures Valid() && this.con == con && this.replies == replies && this.password == password && scramble == null
      ensures this.user == user && this.db == db && this.rawScramble == rawScramble && this.authPlugin == authPlugin
      ensures this.foundRows == foundRows && this.interactive == interactive && this.multiStatements == multiStatements
      ensures maxPacketSize == 0xFFFF_FFFF
    {
      this.con, this.replies, this.password, this.user, this.db := con, replies, password, user, db;
      this.rawScramble, this.authPlugin, this.foundRows := rawScramble, authPlugin, foundRows;
      this.interactive, this.multiStatements := interactive, multiStatements;
      scrambleBuffer := new Octet[20];
      scramble := null;
      protocolVersion, serverVersion, serverExtra, threadId, capabilities := 10, [], [], 0, {};
      charset, status, maxPacketSize := 0, 0, 0xFFFF_FFFF;
    }

    ghost predicate Valid()
      reads this`scramble, this`serverVersion, this`threadId, this`status, this`maxPacketSize, this`user, this`db
      reads con`buffer, con`bufferPtr, con`bufferSize, password
    {
      && con.Valid() && replies.con == con && scrambleBuffer.Length == 20 && Terminated(password)
      && con.buffer as object !in {password as object, scrambleBuffer as object} && password != scrambleBuffer
      && (scramble != null ==> scramble == scrambleBuffer)
      && |serverVersion| < MAX_VERSION && 0 !in serverVersion && threadId < 0x1_0000_0000 && status < 65536
      && maxPacketSize < 0x1_0000_0000
      && |user| < MAX_USER && 0 !in user && |db| < MAX_DB && 0 !in db
    }

    ghost function ScrambleBytes(): (s: seq<byte>)
      reads this`scramble, scrambleBuffer
      requires scrambleBuffer.Length == 20
      ensures |s| == 20
    {
      if scramble == null then Zeros(20) else WireOf(scrambleBuffer[..])
    }

    /** What the server says of itself. */
    ghost function Greets(): (g: Greeting)
      reads this`scramble, this`serverVersion, this`threadId, this`status, this`charset, this`capabilities
      reads scrambleBuffer
      requires scrambleBuffer.Length == 20
      ensures |g.scramble| == 20
    {
      Greeting(serverVersion, threadId, ScrambleBytes(), capabilities, charset, status)
    }

    /** Appends a piece to what is written behind `from`. */
    method Put(ghost from: nat, ghost written: seq<byte>, ptr: nat, piece: seq<byte>)
      returns (next: nat, ghost now: seq<byte>)
      requires from <= ptr && ptr + |piece| <= con.buffer.Length && con.buffer[from..ptr] == written
      modifies con.buffer
      ensures next == ptr + |piece| && now == written + piece && con.buffer[from..next] == now
      ensures con.buffer[..from] == old(con.buffer[..from])
    {
      Copy(con.buffer, ptr, piece);
      next, now := ptr + |piece|, written + piece;
    }

    /** Packet size and packet number at the front of the buffer. */
    method PutHeader(size: nat, number: byte)
      requires con.buffer.Length >= 4
      modifies con.buffer
      ensures con.buffer[..4] == Le(size, 3) + [number] && con.buffer[4..] == old(con.buffer[4..])
    {
      hide Le;
      Copy(con.buffer, 0, Le(size, 3));
      con.buffer[3] := number;
    }

    /** The part of drizzle_state_handshake_server_write behind the version. */
    method PutGreetingTail(start: nat) returns (ptr: nat)
      requires Valid() && start + 44 <= con.buffer.Length
      modifies con.buffer
      ensures ptr == start + 44 && con.buffer[start..ptr] == GreetingTail(Greets())
      ensures con.buffer[..start] == old(con.buffer[..start])
    {
      hide Le, Word, Splice, WireOf, Connection.Valid;
      ghost var w := [];
      ptr, w := Put(start, w, start, Le(threadId, 4));
      if scramble == null {
        ptr, w := Put(start, w, ptr, Zeros(8));
      } else {
        ptr, w := Put(start, w, ptr, WireOf(scramble[..8]));
      }
      HalfScrambles();
      ptr, w := Put(start, w, ptr, [0]);
      ptr, w := Put(start, w, ptr, Le(Word(capabilities, 0, 32), 2));
      ptr, w := Put(start, w, ptr, [charset]);
      ptr, w := Put(start, w, ptr, Le(status, 2));
      ptr, w := Put(start, w, ptr, Zeros(13));
      if scramble == null {
        ptr, w := Put(start, w, ptr, Zeros(12));
      } else {
        ptr, w := Put(start, w, ptr, WireOf(scramble[8..]));
      }
      ptr, w := Put(start, w, ptr, [0]);
      assert [] + Le(threadId, 4) == Le(threadId, 4);
    }

    lemma HalfScrambles()
      requires scrambleBuffer.Length == 20 && (scramble != null ==> scramble == scrambleBuffer)
      ensures scramble == null ==> ScrambleBytes()[..8] == Zeros(8) && ScrambleBytes()[8..] == Zeros(12)
      ensures scramble != null ==>
        ScrambleBytes()[..8] == WireOf(scramble[..8]) && ScrambleBytes()[8..] == WireOf(scramble[8..])
    {
    }

    /** The part of drizzle_state_handshake_server_write from the protocol version on. */
    method PutGreeting(start: nat) returns (ptr: nat)
      requires Valid() && start + 46 + |serverVersion| <= con.buffer.Length
      modifies this`capabilities, con.buffer
      ensures Valid() && capabilities == old(capabilities) + {PROTOCOL_41}
      ensures ptr == start + 46 + |serverVersion|
      ensures con.buffer[start..ptr] == GreetingBytes(protocolVersion, Greets())
      ensures con.buffer[..start] == old(con.buffer[..start])
    {
      hide Splice, GreetingTail, ScrambleBytes, Connection.Valid, Terminated;
      ghost var w := [];
      ptr, w := Put(start, w, start, [protocolVersion]);
      ptr, w := Put(start, w, ptr, serverVersion);
      ptr, w := Put(start, w, ptr, [0]);
      capabilities := capabilities + {PROTOCOL_41};
      ghost var at, head := ptr, con.buffer[..ptr];
      ptr := PutGreetingTail(ptr);
      TwoParts(con.buffer[..], start, at, ptr, w, GreetingTail(Greets()));
      assert con.buffer[..at][start..] == w && con.buffer[..at][..start] == head[..start];
      assert [] + [protocolVersion] == [protocolVersion];
    }

    /** drizzle_state_handshake_server_write.  The packed size is the computed one, so
        it always returns Ok. */
    method StateServerWrite() returns (ret: Ret)
      requires Valid() && con.stack != [] && con.bufferPtr == 0 && con.bufferSize == 0
      modifies this`capabilities, con`packetSize, con`packetNumber, con`bufferSize, con`stack, con.buffer
      ensures ret == Ok && Valid() && con.stack == old(con.stack)[1..] && con.packetNumber == 1
      ensures capabilities == old(capabilities) + {PROTOCOL_41}
      ensures con.Window() == Frame(0, GreetingBytes(protocolVersion, Greets()))
    {
      hide Le, Splice, GreetingBytes, Greets, Terminated;
      con.packetSize := 1 + |serverVersion| + 1 + 4 + 8 + 1 + 2 + 1 + 2 + 13 + 12 + 1;
      if con.packetSize + 4 > con.buffer.Length {
        return InternalError;
      }
      PutHeader(con.packetSize, 0);
      con.packetNumber := 1;
      ghost var head := con.buffer[..4];
      var end := PutGreeting(con.bufferPtr + 4);
      con.bufferSize := con.bufferSize + (4 + con.packetSize);
      if end - con.bufferPtr != 4 + con.packetSize {
        return InternalError;
      }
      WholePacket(con.buffer[..], end);
      con.stack := con.stack[1..];
      return Ok;
    }

    /** memchr for a NUL among n bytes. */
    method MemChr(from: nat, n: nat) returns (i: nat)
      requires con.Valid() && from + n <= con.bufferSize
      ensures i == FindZero(con.Window()[from..from + n])
    {
      hide Connection.Window, FindZero;
      ghost var s := con.Window()[from..from + n];
      i := 0;
      assert s[0..] == s;
      while i < n && con.Get(from + i) != 0
        invariant i <= n && FindZero(s) == i + FindZero(s[i..])
      {
        assert s[i] == con.Window()[from + i];
        NoZero(s, i);
        i := i + 1;
      }
      assert i < n ==> s[i] == con.Window()[from + i];
      ZeroOrEnd(s, i);
    }

    lemma NoZero(s: seq<byte>, i: nat)
      requires i < |s| && s[i] != 0
      ensures FindZero(s[i..]) == 1 + FindZero(s[i + 1..])
    {
      assert s[i..][1..] == s[i + 1..];
    }

    lemma ZeroOrEnd(s: seq<byte>, i: nat)
      requires i <= |s| && (i == |s| || s[i] == 0)
      ensures FindZero(s[i..]) == 0
    {
    }

    /** memcpy into the scramble. */
    method CopyScramble(at: nat, piece: seq<byte>)
      requires at + |piece| <= scrambleBuffer.Length
      modifies scrambleBuffer
      ensures scrambleBuffer[..] == Splice(old(scrambleBuffer[..]), at, OctetsOf(piece))
    {
      Copy(scrambleBuffer, at, OctetsOf(piece));
    }

    /** The fields of a greeting. */
    ghost predicate HasRead(gr: Greeted)
      reads this`serverVersion, this`serverExtra, this`threadId, this`status, this`charset, this`capabilities
      reads this`scramble, scrambleBuffer
    {
      && serverVersion == gr.g.version && threadId == gr.g.threadId && capabilities == gr.g.capabilities
      && charset == gr.g.charset && status == gr.g.status && serverExtra == gr.extra
      && scramble == scrambleBuffer && WireOf(scrambleBuffer[..]) == gr.g.scramble
    }

    /** The part of drizzle_state_handshake_server_read behind the version; `at` is
        where it starts. */
    method ReadGreetingTail(at: nat) returns (ret: Ret)
      requires con.Valid() && scrambleBuffer.Length == 20
      requires at + 44 <= con.packetSize <= con.bufferSize
      modifies this`threadId, this`capabilities, this`charset, this`status, this`serverExtra, this`scramble
      modifies scrambleBuffer
      ensures var t := con.Window()[at..at + 44];
        match ReadTail(serverVersion, t, con.Window()[at + 44..con.packetSize], false)
        case Got(gr) => ret == Ok && HasRead(gr)
        case Bad(p) => ret == RetOf(p)
        case NeedBytes => false
      ensures ret == Ok <==> PROTOCOL_41 in FlagsOf(LeValue(con.Window()[at..at + 44][13..15]), 0, 16)
      ensures serverVersion == old(serverVersion)
    {
      hide Connection.Window, Connection.Slice, LeValue, FlagsOf, Clip, WireOf, OctetsOf, Splice;
      var t := con.Slice(at, 44);
      ghost var before := scrambleBuffer[..];
      threadId := LeValue(t[..4]);
      scramble := scrambleBuffer;
      CopyScramble(0, t[4..12]);
      capabilities := FlagsOf(LeValue(t[13..15]), 0, 16);
      if PROTOCOL_41 !in capabilities {
        return ProtocolNotSupported;
      }
      charset := t[15];
      status := LeValue(t[16..18]);
      CopyScramble(8, t[31..43]);
      BothHalves(before, t[4..12], t[31..43]);
      serverExtra := Clip(con.Slice(at + 44, con.packetSize - (at + 44)), MAX_EXTRA);
      return Ok;
    }

    /** The part of drizzle_state_handshake_server_read behind the test for an error
        packet, up to the end of the packet. */
    method ReadPacket() returns (ret: Ret, passed: nat)
      requires con.Valid() && con.packetSize <= con.bufferSize && scrambleBuffer.Length == 20
      requires con.packetSize > 0 ==> con.Window()[0] != 255
      modifies this`protocolVersion, this`serverVersion, this`serverExtra, this`threadId, this`capabilities
      modifies this`charset, this`status, this`scramble, scrambleBuffer
      ensures match ReadGreeting(con.Window(), con.packetSize)
        case NeedBytes => false
        case Bad(p) => if p == Trailing then ret == Ok && con.packetSize != con.bufferSize else ret == RetOf(p) != Ok
        case Got(gr) => ret == Ok && HasRead(gr) && con.packetSize == con.bufferSize
      ensures passed == Passed(con.Window(), con.packetSize)
    {
      hide Connection.Window, Connection.Get, Connection.Slice, Allocation, ReadTail, FindZero, Clip, HasRead, PassedTail;
      ghost var w := con.Window();
      if con.packetSize < 46 {
        return BadHandshakePacket, 0;
      }
      protocolVersion := con.Get(0);
      if protocolVersion != 10 {
        return ProtocolNotSupported, 1;
      }
      var n := MemChr(1, con.bufferSize - 1);
      assert w[1..1 + (|w| - 1)] == w[1..];
      if n == con.bufferSize - 1 {
        return BadHandshakePacket, 1;
      }
      if con.packetSize < 46 + n {
        return BadHandshakePacket, 1;
      }
      ret, passed := ReadVersion(n);
    }

    /** The server's version, n bytes long, and all that follows it. */
    method ReadVersion(n: nat) returns (ret: Ret, passed: nat)
      requires con.Valid() && 46 + n <= con.packetSize <= con.bufferSize && scrambleBuffer.Length == 20
      modifies this`serverVersion, this`serverExtra, this`threadId, this`capabilities
      modifies this`charset, this`status, this`scramble, scrambleBuffer
      ensures var w := con.Window();
        match ReadTail(Clip(w[1..1 + n], MAX_VERSION), w[n + 2..n + 46], w[n + 46..con.packetSize], |w| > con.packetSize)
        case NeedBytes => false
        case Bad(p) => if p == Trailing then ret == Ok && con.packetSize != con.bufferSize else ret == RetOf(p) != Ok
        case Got(gr) => ret == Ok && HasRead(gr) && con.packetSize == con.bufferSize
      ensures passed == PassedTail(con.Window()[n + 2..n + 46], n)
    {
      hide Connection.Window, Connection.Get, Connection.Slice, Allocation, ReadTail, Clip, HasRead, FlagsOf, LeValue;
      ghost var w := con.Window();
      serverVersion := Clip(con.Slice(1, n), MAX_VERSION);
      ret := ReadGreetingTail(n + 2);
      passed := if ret == Ok then n + 46 else n + 17;
      MoreIsTrailing(serverVersion, w[n + 2..n + 46], w[n + 46..con.packetSize]);
    }

    /** drizzle_state_handshake_server_read.  Its test for protocol version 255 is
        absent: a packet that starts so is taken for an error packet before.  An error
        packet is taken whole, and the function stays on the stack; the function may
        then run again without a packet.  `wild` is an error packet of fewer than nine
        bytes, as drizzle_check_unpack_error finds it. */
    method StateServerRead() returns (ret: Ret, wild: bool)
      requires Valid() && con.stack != []
      requires con.packetSize <= con.bufferSize ==> con.bufferPtr < con.buffer.Length
      modifies this`protocolVersion, this`serverVersion, this`serverExtra, this`threadId, this`capabilities
      modifies this`charset, this`status, this`scramble, scrambleBuffer, replies
      modifies con`bufferPtr, con`bufferSize, con`packetSize, con`stack
      ensures wild <==> old(con.packetSize <= con.bufferSize && con.First() == 255 && con.packetSize < 9)
      ensures wild ==> ret == ErrorCode && con.stack == old(con.stack) && con.packetSize == 0
      ensures wild || ret == Ok || ret == ErrorCode ==> con.Valid()
      ensures !wild ==> match ReadGreeting(old(con.Window()), old(con.packetSize))
        case NeedBytes =>
          ret == Ok && con.stack == [Read] + old(con.stack) && con.Window() == old(con.Window()) &&
          con.packetSize == old(con.packetSize)
        case Bad(ErrorPacket) =>
          ret == ErrorCode && con.stack == old(con.stack) && con.packetSize == 0 &&
          con.Window() == old(con.Window()[con.packetSize..]) &&
          replies.errorCode == old(con.GetLe(1, 2)) && replies.sqlstate == old(con.Slice(4, 5))
        case Bad(p) =>
          ret == RetOf(p) && con.stack == old(con.stack) &&
          con.bufferPtr == old(con.bufferPtr + Passed(con.Window(), con.packetSize)) &&
          con.bufferSize == old(con.bufferSize) - if p == Trailing then con.packetSize else 0
        case Got(gr) =>
          ret == Ok && HasRead(gr) && con.Window() == [] && con.bufferPtr == 0 &&
          con.stack == [HandshakeClientWrite, Write, PacketRead, HandshakeResultRead] + old(con.stack)[1..]
    {
      hide Connection.Window, ReadGreeting, HasRead, Terminated, Passed;
      WaitsOrRefuses(con.Window(), con.packetSize);
      wild := false;
      if con.bufferSize < con.packetSize {
        con.stack := [Read] + con.stack;
        return Ok, wild;
      }
      var isError;
      isError, wild := replies.CheckUnpackError();
      if isError {
        return ErrorCode, wild;
      }
      ret := TakeGreeting();
    }

    /** drizzle_state_handshake_server_read behind the test for an error packet. */
    method TakeGreeting() returns (ret: Ret)
      requires con.Valid() && con.stack != [] && con.packetSize <= con.bufferSize && scrambleBuffer.Length == 20
      requires con.packetSize > 0 ==> con.Window()[0] != 255
      requires con.buffer as object != scrambleBuffer as object
      modifies this`protocolVersion, this`serverVersion, this`serverExtra, this`threadId, this`capabilities
      modifies this`charset, this`status, this`scramble, scrambleBuffer
      modifies con`bufferPtr, con`bufferSize, con`stack
      ensures match ReadGreeting(old(con.Window()), old(con.packetSize))
        case NeedBytes => false
        case Bad(p) =>
          p != ErrorPacket && ret == RetOf(p) != Ok && con.stack == old(con.stack) &&
          con.bufferPtr == old(con.bufferPtr + Passed(con.Window(), con.packetSize)) &&
          con.bufferSize == old(con.bufferSize) - if p == Trailing then con.packetSize else 0
        case Got(gr) =>
          ret == Ok && con.Valid() && HasRead(gr) && con.Window() == [] && con.bufferPtr == 0 &&
          con.stack == [HandshakeClientWrite, Write, PacketRead, HandshakeResultRead] + old(con.stack)[1..]
    {
      hide Connection.Window, ReadGreeting, HasRead, Passed, Allocation;
      WaitsOrRefuses(con.Window(), con.packetSize);
      var passed;
      ret, passed := ReadPacket();
      con.bufferPtr := con.bufferPtr + passed;
      if ret != Ok {
        return;
      }
      con.bufferSize := con.bufferSize - con.packetSize;
      if con.bufferSize != 0 {
        ret := UnexpectedData;
        return;
      }
      con.bufferPtr := 0;
      con.stack := con.stack[1..];
      con.stack := [HandshakeResultRead] + con.stack;
      con.stack := [PacketRead] + con.stack;
      con.stack := [Write] + con.stack;
      con.stack := [HandshakeClientWrite] + con.stack;
      assert |con.Window()| == 0;
    }

    /** The password of the connection. */
    ghost function Secret(): seq<Octet>
      reads password
      requires Terminated(password)
    {
      Login.CString(password[..])
    }

    /** There is a password to answer with, but no scramble to answer to. */
    ghost predicate LacksScramble()
      reads this`scramble, password
      requires Terminated(password)
    {
      scramble == null && Secret() != [] && !authPlugin
    }

    /** What the client answers to the scramble. */
    ghost function Answer(): (r: Option<seq<byte>>)
      reads this`scramble, scrambleBuffer, password
      requires Terminated(password) && scrambleBuffer.Length == 20 && !LacksScramble()
      ensures r.Some? ==> |r.value| == 20
    {
      if rawScramble && scramble != null then Some(WireOf(scrambleBuffer[..]))
      else if Secret() == [] then None
      else if authPlugin then Some(WireOf(PlainAuth(Secret())))
      else Some(WireOf(Login.Reply(Secret(), scrambleBuffer[..])))
    }

    /** What the client says of itself. */
    ghost function Sends(): (l: LoginData)
      reads this`scramble, this`maxPacketSize, this`charset, this`capabilities, this`user, this`db
      reads scrambleBuffer, password
      requires Terminated(password) && scrambleBuffer.Length == 20 && !LacksScramble()
      ensures l.auth.Some? ==> |l.auth.value| == 20
    {
      LoginData(Compiled(capabilities, foundRows, interactive, multiStatements, authPlugin, db != []), maxPacketSize,
                charset, user, Answer(), db)
    }

    /** drizzle_compile_capabilities. */
    method CompileCapabilities() returns (mask: Flags)
      modifies this`capabilities
      ensures capabilities == old(capabilities) + {PROTOCOL_41}
      ensures mask == Compiled(old(capabilities), foundRows, interactive, multiStatements, authPlugin, db != [])
      ensures mask == Compiled(capabilities, foundRows, interactive, multiStatements, authPlugin, db != [])
    {
      capabilities := capabilities + {PROTOCOL_41};
      mask := capabilities * CLIENT;
      if !foundRows {
        mask := mask - {FOUND_ROWS};
      }
      if interactive {
        mask := mask + {INTERACTIVE};
      }
      if multiStatements {
        mask := mask + {MULTI_STATEMENTS};
      }
      if authPlugin {
        mask := mask + {PLUGIN_AUTH};
      }
      mask := mask - {COMPRESS};
      if db == [] {
        mask := mask - {CONNECT_WITH_DB};
      }
    }

    /** The branches of drizzle_pack_auth for the reply to the scramble. */
    method PackAnswer() returns (ret: Ret, answer: seq<byte>)
      requires Valid()
      ensures ret == if LacksScramble() then NoScramble else Ok
      ensures ret == Ok ==> answer == AnswerBytes(Answer())
    {
      hide Login.Reply, Login.ServerAccepts, WireOf, Login.CString;
      if rawScramble && scramble != null {
        return Ok, [20] + WireOf(scramble[..]);
      }
      var length := Login.StrLen(password);
      assert password[..length] == Secret();
      if length == 0 {
        return Ok, [0];
      }
      if authPlugin {
        return Ok, [20] + WireOf(PlainAuth(password[..length]));
      }
      var packed := Login.PackScrambleHash(password, scramble);
      match packed {
        case NoScramble =>
          return Ret.NoScramble, [];
        case Packed(reply) =>
          return Ok, [20] + WireOf(reply);
      }
    }

    lemma SendsIs()
      requires Terminated(password) && scrambleBuffer.Length == 20 && !LacksScramble()
      ensures Sends().user == user && Sends().db == db && Sends().auth == Answer()
      ensures |AnswerBytes(Answer())| == if Answer().None? then 1 else 21
    {
      hide Answer, Compiled;
    }

    lemma SendsSize()
      requires Terminated(password) && scrambleBuffer.Length == 20 && !LacksScramble()
      ensures |LoginBytes(Sends())| == 35 + |user| + |db| + if Answer().None? then 0 else 20
    {
      hide Answer, Compiled, Le;
    }

    /** User, reply and database, one behind the other. */
    method PutAuth(start: nat, answer: seq<byte>) returns (ptr: nat)
      requires start + |user| + |answer| + |db| + 2 <= con.buffer.Length
      modifies con.buffer
      ensures ptr == start + |user| + |answer| + |db| + 2
      ensures con.buffer[start..ptr] == user + [0] + answer + db + [0]
      ensures con.buffer[..start] == old(con.buffer[..start])
    {
      hide Splice;
      ghost var w := [];
      ptr, w := Put(start, w, start, user);
      ptr, w := Put(start, w, ptr, [0]);
      ptr, w := Put(start, w, ptr, answer);
      ptr, w := Put(start, w, ptr, db);
      ptr, w := Put(start, w, ptr, [0]);
      assert [] + user == user;
    }

    /** drizzle_pack_auth. */
    method PackAuth(start: nat) returns (ret: Ret, ptr: nat)
      requires Valid() && start + 150 <= con.buffer.Length && con.packetSize >= 20
      modifies con.buffer, con`packetSize
      ensures ret == if LacksScramble() then NoScramble else Ok
      ensures con.buffer[..start] == old(con.buffer[..start])
      ensures ret == Ok ==>
        ptr == start + |AuthBytes(Sends())| && ptr <= con.buffer.Length &&
        con.buffer[start..ptr] == AuthBytes(Sends()) &&
        con.packetSize == old(con.packetSize) - if Answer().None? then 20 else 0
    {
      hide Answer, AnswerBytes, Terminated, Connection.Valid, LacksScramble, Sends;
      var answer;
      ret, answer := PackAnswer();
      if ret != Ok {
        return ret, start;
      }
      SendsIs();
      ptr := PutAuth(start, answer);
      if |answer| == 1 {
        con.packetSize := con.packetSize - 20;
      }
    }

    /** The fields of a client's packet in front of the user. */
    method PutLoginHead(start: nat, mask: Flags) returns (ptr: nat)
      requires start + 32 <= con.buffer.Length
      modifies con.buffer
      ensures ptr == start + 32
      ensures con.buffer[start..ptr] == Le(Word(mask, 0, 32), 4) + Le(maxPacketSize, 4) + [charset] + Zeros(23)
      ensures con.buffer[..start] == old(con.buffer[..start])
    {
      hide Le, Word;
      ghost var w := [];
      ptr, w := Put(start, w, start, Le(Word(mask, 0, 32), 4));
      ptr, w := Put(start, w, ptr, Le(maxPacketSize, 4));
      ptr, w := Put(start, w, ptr, [charset]);
      ptr, w := Put(start, w, ptr, Zeros(23));
      assert [] + Le(Word(mask, 0, 32), 4) == Le(Word(mask, 0, 32), 4);
    }

    /** The part of drizzle_state_handshake_client_write behind the packet number. */
    method PutLogin(start: nat) returns (ret: Ret, ptr: nat)
      requires Valid() && start + 182 <= con.buffer.Length && con.packetSize >= 20
      modifies this`capabilities, con.buffer, con`packetSize
      ensures Valid() && capabilities == old(capabilities) + {PROTOCOL_41}
      ensures ret == if LacksScramble() then NoScramble else Ok
      ensures con.buffer[..start] == old(con.buffer[..start])
      ensures ret == Ok ==>
        ptr == start + |LoginBytes(Sends())| && ptr <= con.buffer.Length &&
        con.buffer[start..ptr] == LoginBytes(Sends()) &&
        con.packetSize == old(con.packetSize) - if Answer().None? then 20 else 0
    {
      hide Answer, Terminated, Connection.Valid, LacksScramble, Compiled, AuthBytes, Le, Word;
      var mask := CompileCapabilities();
      ptr := PutLoginHead(start, mask);
      ghost var head := con.buffer[start..ptr];
      ret, ptr := PackAuth(ptr);
      if ret == Ok {
        assert con.buffer[..start + 32][start..] == head;
        TwoParts(con.buffer[..], start, start + 32, ptr, head, AuthBytes(Sends()));
      }
      assert con.buffer[..start + 32][..start] == con.buffer[..start];
    }

    /** drizzle_state_handshake_client_write.  The packed size is the computed one, so
        it fails only when there is no scramble to answer to. */
    method StateClientWrite() returns (ret: Ret)
      requires Valid() && con.stack != [] && con.bufferPtr == 0 && con.bufferSize == 0
      modifies this`capabilities, con`packetSize, con`packetNumber, con`bufferSize, con`stack, con.buffer
      ensures Valid() && ret == if LacksScramble() then NoScramble else Ok
      ensures ret == Ok ==>
        con.stack == old(con.stack)[1..] && con.packetNumber == (old(con.packetNumber) + 1) % 256 &&
        con.Window() == Frame(old(con.packetNumber), LoginBytes(Sends()))
    {
      hide Le, Frame, LoginBytes, Sends, Answer, Terminated, LacksScramble;
      con.packetSize := 4 + 4 + 1 + 23 + |user| + 1 + 1 + 20 + |db| + 1;
      if con.packetSize + 4 > con.buffer.Length {
        return InternalError;
      }
      con.buffer[3] := con.packetNumber;
      ghost var number := con.packetNumber;
      con.packetNumber := (con.packetNumber + 1) % 256;
      var end;
      ret, end := PutLogin(con.bufferPtr + 4);
      if ret != Ok {
        return;
      }
      SendsSize();
      con.bufferSize := con.bufferSize + (4 + con.packetSize);
      if end - con.bufferPtr != 4 + con.packetSize {
        return InternalError;
      }
      assert con.buffer[3] == con.buffer[..4][3] == number;
      PutSize(con.packetSize, number, LoginBytes(Sends()));
      con.stack := con.stack[1..];
    }

    /** drizzle_set_byte3 at the front of the buffer. */
    method PutSize(size: nat, ghost number: byte, ghost body: seq<byte>)
      requires size == |body| && 4 + size <= con.buffer.Length
      requires con.buffer[3] == number && con.buffer[4..4 + size] == body
      modifies con.buffer
      ensures con.buffer[0..4 + size] == Frame(number, body)
    {
      hide Le, Frame, Splice;
      ghost var before := con.buffer[..];
      Copy(con.buffer, 0, Le(size, 3));
      FramedLater(before, number, body);
    }

    /** The fields of a login, the answer to the scramble among them. */
    ghost predicate HasLogin(l: LoginData)
      reads this`scramble, this`maxPacketSize, this`charset, this`capabilities, this`user, this`db, scrambleBuffer
    {
      && capabilities == l.capabilities && maxPacketSize == l.maxPacketSize && charset == l.charset && user == l.user
      && (if l.auth.None? then scramble == null
          else scramble == scrambleBuffer && WireOf(scrambleBuffer[..]) == l.auth.value)
      && db == l.db
    }

    /** The end of drizzle_state_handshake_client_read, from the database on. */
    method ReadDatabase(at: nat, counted: nat, ghost l: LoginData) returns (ret: Ret)
      requires con.Valid() && con.packetSize <= con.bufferSize && at <= con.bufferSize
      requires HasLogin(l.(db := db)) && l.db == []
      requires ReadDb(l, con.Window()[at..], counted, con.packetSize, con.bufferSize) != Bad(PastPacket)
      modifies this`db
      ensures match ReadDb(l, con.Window()[at..], counted, con.packetSize, con.bufferSize)
        case NeedBytes => false
        case Bad(p) => if p == Trailing then ret == Ok && con.packetSize != con.bufferSize else ret == RetOf(p) != Ok
        case Got(full) => ret == Ok && HasLogin(full) && con.packetSize == con.bufferSize
    {
      hide Connection.Window, FindZero, Clip, WireOf;
      ghost var w := con.Window()[at..];
      var short := 34 + |user| + if scramble == null then 0 else 20;
      if short == con.packetSize {
        db := [];
        return Ok;
      }
      assert con.Window()[at..at + (con.bufferSize - at)] == w;
      var d := MemChr(at, con.bufferSize - at);
      if d == con.bufferSize - at {
        return BadHandshakePacket;
      }
      if con.packetSize != counted + d + 1 {
        return BadHandshakePacket;
      }
      assert con.Window()[at..at + d] == w[..d];
      db := Clip(con.Slice(at, d), MAX_DB);
      return Ok;
    }

    /** The answer to the scramble, and what follows it. */
    method ReadAnswer(at: nat, counted: nat, ghost l: LoginData) returns (ret: Ret)
      requires con.Valid() && con.packetSize <= con.bufferSize && at <= con.bufferSize && scrambleBuffer.Length == 20
      requires capabilities == l.capabilities && maxPacketSize == l.maxPacketSize && charset == l.charset
      requires user == l.user && l.auth == None && l.db == []
      requires ReadAuth(l, con.Window()[at..], counted, con.packetSize, con.bufferSize) != Bad(PastPacket)
      modifies this`scramble, this`db, scrambleBuffer
      ensures match ReadAuth(l, con.Window()[at..], counted, con.packetSize, con.bufferSize)
        case NeedBytes => false
        case Bad(p) => if p == Trailing then ret == Ok && con.packetSize != con.bufferSize else ret == RetOf(p) != Ok
        case Got(full) => ret == Ok && HasLogin(full) && con.packetSize == con.bufferSize
    {
      hide Connection.Window, ReadDb, WireOf, OctetsOf, Splice;
      ghost var w := con.Window()[at..];
      var scrambleSize := con.Get(at);
      if scrambleSize == 0 {
        scramble := null;
        assert con.Window()[at + 1..] == w[1..];
        ret := ReadDatabase(at + 1, counted, l);
      } else if scrambleSize != 20 {
        return BadHandshakePacket;
      } else {
        var answer := con.Slice(at + 1, 20);
        assert con.Window()[at + 1..at + 1 + 20] == w[1..21] && con.Window()[at + 21..] == w[21..];
        scramble := scrambleBuffer;
        WholeScramble(scrambleBuffer[..], answer);
        CopyScramble(0, answer);
        ret := ReadDatabase(at + 21, counted + 20, l.(auth := Some(answer)));
      }
    }

    /** The fields in front of the user. */
    method ReadHead()
      requires con.Valid() && 9 <= con.bufferSize
      modifies this`capabilities, this`maxPacketSize, this`charset
      ensures capabilities == FlagsOf(LeValue(con.Window()[..4]), 0, 32)
      ensures maxPacketSize == LeValue(con.Window()[4..8]) && charset == con.Window()[8]
    {
      hide Connection.Window, FlagsOf, LeValue;
      ghost var w := con.Window();
      assert w[0..0 + 4] == w[..4];
      capabilities := FlagsOf(con.GetLe(0, 4), 0, 32);
      maxPacketSize := con.GetLe(4, 4);
      charset := con.Get(8);
    }

    /** The part of drizzle_state_handshake_client_read up to the end of the packet. */
    method ReadClientPacket() returns (ret: Ret)
      requires con.Valid() && con.packetSize <= con.bufferSize && scrambleBuffer.Length == 20
      requires ReadLogin(con.Window(), con.packetSize) != Bad(PastPacket)
      modifies this, scrambleBuffer
      ensures match ReadLogin(con.Window(), con.packetSize)
        case NeedBytes => false
        case Bad(p) => if p == Trailing then ret == Ok && con.packetSize != con.bufferSize else ret == RetOf(p) != Ok
        case Got(l) => ret == Ok && HasLogin(l) && con.packetSize == con.bufferSize
    {
      hide Connection.Window, Connection.Get, Connection.Slice, Allocation;
      hide ReadAuth, FindZero, Clip, HasLogin, FlagsOf, LeValue;
      ghost var w := con.Window();
      if con.packetSize < 34 {
        return BadHandshakePacket;
      }
      ReadHead();
      if PROTOCOL_41 !in capabilities {
        return ProtocolNotSupported;
      }
      assert w[32..32 + (|w| - 32)] == w[32..];
      var u := MemChr(32, con.bufferSize - 32);
      if u == con.bufferSize - 32 {
        return BadHandshakePacket;
      }
      if con.packetSize < 34 + u {
        return BadHandshakePacket;
      }
      user := Clip(con.Slice(32, u), MAX_USER);
      ret := ReadAnswer(33 + u, 34 + u, LoginData(capabilities, maxPacketSize, charset, user, None, []));
    }

    /** drizzle_state_handshake_client_read. */
    method StateClientRead() returns (ret: Ret)
      requires con.Valid() && con.stack != [] && scrambleBuffer.Length == 20
      requires ReadLogin(con.Window(), con.packetSize) != Bad(PastPacket)
      modifies this, scrambleBuffer, con`bufferPtr, con`bufferSize, con`stack
      ensures con.Valid()
      ensures match ReadLogin(old(con.Window()), con.packetSize)
        case NeedBytes =>
          ret == Ok && con.stack == [Read] + old(con.stack) && con.Window() == old(con.Window())
        case Bad(p) => ret == RetOf(p)
        case Got(l) =>
          ret == Ok && HasLogin(l) && con.Window() == [] && con.bufferPtr == 0 && con.stack == old(con.stack)[1..]
    {
      hide Connection.Window, HasLogin, FlagsOf, FindZero, LeValue, ReadAuth;
      if con.bufferSize < con.packetSize {
        con.stack := [Read] + con.stack;
        return Ok;
      }
      ret := ReadClientPacket();
      if ret != Ok {
        return;
      }
      if con.bufferSize - con.packetSize != 0 {
        return UnexpectedData;
      }
      con.bufferSize := con.bufferSize - con.packetSize;
      con.bufferPtr := 0;
      con.stack := con.stack[1..];
    }
  }

  lemma WholePacket(s: seq<byte>, end: nat)
    requires 4 <= end <= |s|
    ensures s[0..0 + end] == s[..4] + s[4..end]
  {
  }

  lemma WholeScramble(before: seq<Octet>, p: seq<byte>)
    requires |before| == |p|
    ensures WireOf(Splice(before, 0, OctetsOf(p))) == p
  {
    hide WireOf, OctetsOf;
    assert Splice(before, 0, OctetsOf(p)) == OctetsOf(p);
    WireOfOctets(p);
  }

  /** The whole handshake: whoever answers the scramble of the greeting with the
      password, through both packets, passes the check of a server that holds
      only the password's hash. */
  lemma HandshakeAuthenticates(g: Greeting, extra: seq<byte>, password: seq<Octet>, l: LoginData)
    requires GreetingFits(g) && PROTOCOL_41 in g.capabilities
    requires LoginFits(l) && PROTOCOL_41 in l.capabilities
    ensures var hello := ReadGreeting(GreetingBytes(10, g) + extra, |GreetingBytes(10, g) + extra|);
      var login := ReadLogin(LoginBytes(l), |LoginBytes(l)|);
      hello.Got? && login.Got? &&
      (l.auth == Some(WireOf(Login.Reply(password, OctetsOf(hello.value.g.scramble)))) ==>
         login.value.auth.Some? &&
         Login.ServerAccepts(Login.StoredHash(password), OctetsOf(g.scramble), OctetsOf(login.value.auth.value)))
  {
    hide ReadGreeting, ReadLogin, GreetingBytes, LoginBytes, Login.Reply, Login.ServerAccepts, Login.StoredHash;
    GreetingRoundTrip(g, extra);
    LoginRoundTrip(l);
    OctetsOfWire(Login.Reply(password, OctetsOf(g.scramble)));
    Login.LoginAccepted(password, OctetsOf(g.scramble));
  }

  /** A packet whose size is written last. */
  lemma FramedLater(before: seq<byte>, number: byte, body: seq<byte>)
    requires |before| >= 4 + |body| && before[3] == number && before[4..4 + |body|] == body
    ensures Splice(before, 0, Le(|body|, 3))[0..3 + (1 + |body|)] == Frame(number, body)
  {
    hide Le, Splice;
    SpliceFront(before, Le(|body|, 3), 1 + |body|);
    HeadOfSlice(before, 3, |body|);
    Regroup(Le(|body|, 3), [number], body);
  }

  lemma HeadOfSlice(s: seq<byte>, i: nat, n: nat)
    requires i + 1 + n <= |s|
    ensures s[i..i + 1 + n] == [s[i]] + s[i + 1..i + 1 + n]
  {
  }

  lemma SpliceFront(s: seq<byte>, p: seq<byte>, k: nat)
    requires |p| + k <= |s|
    ensures Splice(s, 0, p)[0..|p| + k] == p + s[|p|..|p| + k]
  {
  }

  lemma MoreIsTrailing(version: seq<byte>, t: seq<byte>, extra: seq<byte>)
    requires |t| == 44
    ensures match ReadTail(version, t, extra, false)
      case NeedBytes => false
      case Bad(p) => p == TooOld && ReadTail(version, t, extra, true) == Bad(p)
      case Got(_) => ReadTail(version, t, extra, true) == Bad(Trailing)
  {
    hide FlagsOf, LeValue, Clip;
  }

  lemma BothHalves(before: seq<Octet>, p: seq<byte>, q: seq<byte>)
    requires |before| == |p| + |q|
    ensures WireOf(Splice(Splice(before, 0, OctetsOf(p)), |p|, OctetsOf(q))) == p + q
  {
    hide WireOf, OctetsOf;
    assert Splice(Splice(before, 0, OctetsOf(p)), |p|, OctetsOf(q)) == OctetsOf(p) + OctetsOf(q);
    OctetsAdd(p, q);
    WireOfOctets(p + q);
  }

  lemma OctetsAdd(p: seq<byte>, q: seq<byte>)
    ensures OctetsOf(p + q) == OctetsOf(p) + OctetsOf(q)
  {
    hide Bits;
  }

  lemma TwoParts(s: seq<byte>, i: nat, j: nat, k: nat, a: seq<byte>, b: seq<byte>)
    requires i <= j <= k <= |s| && s[..j][i..] == a && s[j..k] == b
    ensures s[i..k] == a + b
  {
    assert s[i..k] == s[i..j] + s[j..k];
  }
}
