/** drizzle_escape_str of src/query.cc. */
module Escape {
  import opened Bytes
  import opened StateStack

  const NUL: byte := 0
  const QUOTE: byte := 39
  const DOUBLE_QUOTE: byte := 34
  const BACKSLASH: byte := 92

  /** The letter that stands for a byte behind a backslash, if the byte is escaped.
      Bytes with the high bit set belong to multi-byte characters. */
  function Letter(b: byte, pattern: bool): Option<byte> {
    if b >= 128 then None
    else if b == NUL then Some(48)
    else if b == 8 then Some(98)
    else if b == 9 then Some(116)
    else if b == 10 then Some(110)
    else if b == 13 then Some(114)
    else if b == 26 then Some(90)
    else if b == BACKSLASH || b == QUOTE || b == DOUBLE_QUOTE then Some(b)
    else if pattern && (b == 37 || b == 95) then Some(b)
    else None
  }

  function EscapeByte(b: byte, pattern: bool): seq<byte> {
    match Letter(b, pattern)
    case None => [b]
    case Some(c) => [BACKSLASH, c]
  }

  function Escaped(s: seq<byte>, pattern: bool): seq<byte> {
    if s == [] then [] else EscapeByte(s[0], pattern) + Escaped(s[1..], pattern)
  }

  /** The byte a letter behind a backslash stands for. */
  function Meant(c: byte): byte {
    if c == 48 then 0
    else if c == 98 then 8
    else if c == 116 then 9
    else if c == 110 then 10
    else if c == 114 then 13
    else if c == 90 then 26
    else c
  }

  /** Reading from left to right, as a server does. */
  function Unescaped(s: seq<byte>): Option<seq<byte>> {
    if s == [] then Some([])
    else if s[0] != BACKSLASH then Behind(s[0], Unescaped(s[1..]))
    else if |s| == 1 then None
    else Behind(Meant(s[1]), Unescaped(s[2..]))
  }

  function Behind(b: byte, rest: Option<seq<byte>>): Option<seq<byte>> {
    if rest.None? then None else Some([b] + rest.value)
  }

  /** Read from left to right, no quote stands without a backslash, and no backslash
      is left over to swallow what follows the string. */
  predicate Enclosable(s: seq<byte>) {
    if s == [] then true
    else if s[0] == BACKSLASH then |s| > 1 && Enclosable(s[2..])
    else s[0] != QUOTE && s[0] != DOUBLE_QUOTE && Enclosable(s[1..])
  }

  const PERCENT: byte := 37
  const UNDERSCORE: byte := 95

  /** Read from left to right, no wildcard of a LIKE stands without a backslash. */
  predicate NoBareWildcard(s: seq<byte>) {
    if s == [] then true
    else if s[0] == BACKSLASH then |s| > 1 && NoBareWildcard(s[2..])
    else s[0] != PERCENT && s[0] != UNDERSCORE && NoBareWildcard(s[1..])
  }

  /** Read from left to right, no wildcard stands behind a backslash. */
  predicate NoEscapedWildcard(s: seq<byte>) {
    if s == [] then true
    else if s[0] == BACKSLASH then |s| > 1 && s[1] != PERCENT && s[1] != UNDERSCORE && NoEscapedWildcard(s[2..])
    else NoEscapedWildcard(s[1..])
  }

  /** NUL, backspace, tab, line feed, carriage return and the byte 26. */
  const CONTROLS: set<byte> := {0, 8, 9, 10, 13, 26}

  function CountEscaped(s: seq<byte>, pattern: bool): nat {
    if s == [] then 0 else (if IsPlain(s[0], pattern) then 0 else 1) + CountEscaped(s[1..], pattern)
  }

  lemma ByteRoundTrip(b: byte, pattern: bool, rest: seq<byte>)
    ensures Unescaped(EscapeByte(b, pattern) + rest) == Behind(b, Unescaped(rest))
    ensures Enclosable(EscapeByte(b, pattern) + rest) <==> Enclosable(rest)
    ensures forall c :: c in CONTROLS ==> c !in EscapeByte(b, pattern)
  {
    hide Behind;
    var s := EscapeByte(b, pattern) + rest;
    if Letter(b, pattern).Some? {
      assert s[2..] == rest;
    } else {
      assert s[1..] == rest;
    }
  }

  /** A server reads back the bytes that were escaped. */
  lemma {:induction false} EscapeRoundTrip(s: seq<byte>, pattern: bool)
    ensures Unescaped(Escaped(s, pattern)) == Some(s)
  {
    if s != [] {
      hide EscapeByte, Unescaped;
      EscapeRoundTrip(s[1..], pattern);
      ByteRoundTrip(s[0], pattern, Escaped(s[1..], pattern));
      assert s == [s[0]] + s[1..];
    }
  }

  /** Nothing in an escaped string ends it early, and it has no control byte. */
  lemma {:induction false} EscapedIsEnclosable(s: seq<byte>, pattern: bool)
    ensures Enclosable(Escaped(s, pattern))
    ensures forall c :: c in CONTROLS ==> c !in Escaped(s, pattern)
  {
    if s != [] {
      hide EscapeByte, CONTROLS;
      EscapedIsEnclosable(s[1..], pattern);
      ByteRoundTrip(s[0], pattern, Escaped(s[1..], pattern));
    }
  }

  lemma ByteWildcards(b: byte, pattern: bool, rest: seq<byte>)
    ensures pattern ==> (NoBareWildcard(EscapeByte(b, pattern) + rest) <==> NoBareWildcard(rest))
    ensures !pattern ==> (NoEscapedWildcard(EscapeByte(b, pattern) + rest) <==> NoEscapedWildcard(rest))
  {
    var s := EscapeByte(b, pattern) + rest;
    if Letter(b, pattern).Some? {
      assert s[2..] == rest;
    } else {
      assert s[1..] == rest;
    }
  }

  /** In a pattern every wildcard of the input is escaped, elsewhere none is. */
  lemma {:induction false} Wildcards(s: seq<byte>, pattern: bool)
    ensures if pattern then NoBareWildcard(Escaped(s, pattern)) else NoEscapedWildcard(Escaped(s, pattern))
  {
    if s != [] {
      hide EscapeByte, NoBareWildcard, NoEscapedWildcard;
      Wildcards(s[1..], pattern);
      ByteWildcards(s[0], pattern, Escaped(s[1..], pattern));
    }
  }

  /** The bytes that are no quote, backslash, control byte or, in a pattern,
      wildcard. */
  predicate IsPlain(b: byte, pattern: bool) {
    && b !in CONTROLS && b != QUOTE && b != DOUBLE_QUOTE && b != BACKSLASH
    && (pattern ==> b != PERCENT && b != UNDERSCORE)
  }

  /** How each byte that needs it is escaped. */
  lemma Letters(pattern: bool)
    ensures EscapeByte(0, pattern) == ['\\' as int, '0' as int] && EscapeByte(8, pattern) == ['\\' as int, 'b' as int]
    ensures EscapeByte(9, pattern) == ['\\' as int, 't' as int] && EscapeByte(10, pattern) == ['\\' as int, 'n' as int]
    ensures EscapeByte(13, pattern) == ['\\' as int, 'r' as int] && EscapeByte(26, pattern) == ['\\' as int, 'Z' as int]
    ensures forall c: char :: c in "\\'\"" ==> EscapeByte(c as int, pattern) == ['\\' as int, c as int]
    ensures forall c: char :: c in "%_" ==> EscapeByte(c as int, pattern) == if pattern then ['\\' as int, c as int] else [c as int]
  {
  }

  lemma EscapedByteSize(b: byte, pattern: bool)
    ensures EscapeByte(b, pattern) == [b] <==> IsPlain(b, pattern)
    ensures |EscapeByte(b, pattern)| == if IsPlain(b, pattern) then 1 else 2
  {
  }

  lemma {:induction false} EscapedSize(s: seq<byte>, pattern: bool)
    ensures |Escaped(s, pattern)| == |s| + CountEscaped(s, pattern) <= 2 * |s|
    ensures CountEscaped(s, pattern) == |s| <==> forall i :: 0 <= i < |s| ==> !IsPlain(s[i], pattern)
  {
    if s != [] {
      hide Letter, IsPlain, EscapeByte;
      EscapedSize(s[1..], pattern);
      EscapedByteSize(s[0], pattern);
      assert s == [s[0]] + s[1..];
      assert forall i :: 0 < i < |s| ==> s[i] == s[1..][i - 1];
    }
  }

  /** The terminator that is written behind the result lies inside the allocation of
      twice the input's size exactly when some byte needs no escape. */
  lemma TerminatorFits(s: seq<byte>, pattern: bool)
    ensures |Escaped(s, pattern)| < 2 * |s| <==> exists i :: 0 <= i < |s| && IsPlain(s[i], pattern)
  {
    hide Letter, IsPlain, Escaped;
    EscapedSize(s, pattern);
  }

  /** A single quote fills its allocation. */
  lemma OnlyQuotes()
    ensures |Escaped([QUOTE], false)| == 2 * |[QUOTE]|
  {
    assert Escaped([QUOTE], false) == EscapeByte(QUOTE, false) + Escaped([], false);
  }

  /** drizzle_escape_str.  The two tests for room inside the loop never fail.
      `overrun` is the terminator written behind the allocation. */
  method EscapeStr(from: Option<seq<byte>>, pattern: bool)
    returns (toSize: int, destination: array?<byte>, overrun: bool)
    ensures toSize == -1 <==> from.None? || from.value == []
    ensures toSize == -1 ==> destination == null
    ensures toSize != -1 ==>
      && destination != null && destination.Length == 2 * |from.value|
      && toSize == |from.value| + CountEscaped(from.value, pattern) <= destination.Length
      && destination[..toSize] == Escaped(from.value, pattern)
      && Unescaped(destination[..toSize]) == Some(from.value) && Enclosable(destination[..toSize])
      && (forall c :: c in CONTROLS ==> c !in destination[..toSize])
      && (if pattern then NoBareWildcard(destination[..toSize]) else NoEscapedWildcard(destination[..toSize]))
      && (!overrun ==> toSize < destination.Length && destination[toSize] == 0)
    ensures overrun <==> toSize != -1 && forall i :: 0 <= i < |from.value| ==> !IsPlain(from.value[i], pattern)
  {
    hide Letter, IsPlain, EscapeByte, Escaped, Unescaped, Enclosable, NoBareWildcard, NoEscapedWildcard, CONTROLS;
    if from.None? || from.value == [] {
      return -1, null, false;
    }
    var s := from.value;
    var to := new byte[|s| * 2];
    var size: nat := 0;
    var i := 0;
    NothingEscaped(s, pattern);
    while i < |s|
      invariant i <= |s| && size <= 2 * i
      invariant to[..size] + Escaped(s[i..], pattern) == Escaped(s, pattern)
    {
      EscapeStep(s, i, pattern, to[..size]);
      var room;
      room, size := PutEscaped(to, size, s[i], pattern);
      if !room {
        return -1, null, false;
      }
      i := i + 1;
    }
    assert s[i..] == [] && to[..size] + [] == to[..size];
    EscapedSize(s, pattern);
    overrun := size == to.Length;
    if !overrun {
      to[size] := 0;
    }
    toSize, destination := size, to;
    EscapeRoundTrip(s, pattern);
    EscapedIsEnclosable(s, pattern);
    Wildcards(s, pattern);
  }

  /** One round of the loop of drizzle_escape_str; `room` is its test. */
  method PutEscaped(to: array<byte>, size: nat, b: byte, pattern: bool) returns (room: bool, now: nat)
    requires size + 2 <= to.Length
    modifies to
    ensures room && size < now <= size + 2 && to[..now] == old(to[..size]) + EscapeByte(b, pattern)
  {
    hide Letter;
    room, now := true, size;
    var newchar := Letter(b, pattern);
    if newchar.Some? {
      if size + 2 > to.Length {
        return false, size;
      }
      to[size] := BACKSLASH;
      to[size + 1] := newchar.value;
      now := size + 2;
    } else {
      if size + 1 > to.Length {
        return false, size;
      }
      to[size] := b;
      now := size + 1;
    }
  }

  lemma NothingEscaped(s: seq<byte>, pattern: bool)
    ensures [] + Escaped(s[0..], pattern) == Escaped(s, pattern)
    ensures Escaped([], pattern) == []
  {
    assert s[0..] == s;
  }

  lemma EscapeStep(s: seq<byte>, i: nat, pattern: bool, done: seq<byte>)
    requires i < |s|
    ensures done + Escaped(s[i..], pattern) == (done + EscapeByte(s[i], pattern)) + Escaped(s[i + 1..], pattern)
  {
    hide EscapeByte;
    assert s[i..][1..] == s[i + 1..];
    Regroup(done, EscapeByte(s[i], pattern), Escaped(s[i + 1..], pattern));
  }
}
