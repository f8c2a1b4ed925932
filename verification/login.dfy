/** The login proof: _pack_scramble_hash of src/pack.cc, the stored password
    hash of src/query.cc, and the check a server makes with the hash alone. */
module Login {
  import opened Bytes
  import opened Sha1Spec
  import opened Sha1

  function Xor(a: seq<Octet>, b: seq<Octet>): (r: seq<Octet>)
    requires |a| == |b|
    ensures |r| == |a|
  {
    seq(|a|, i requires 0 <= i < |a| => a[i] ^ b[i])
  }

  function XorOctet(a: Octet, b: Octet): Octet {
    a ^ b
  }

  lemma XorIs(a: seq<Octet>, b: seq<Octet>, r: seq<Octet>)
    requires |a| == |b| == |r|
    requires forall i :: 0 <= i < |a| ==> r[i] == XorOctet(a[i], b[i])
    ensures r == Xor(a, b)
  {
  }

  lemma XorCancels(a: seq<Octet>, b: seq<Octet>)
    requires |a| == |b|
    ensures Xor(Xor(a, b), a) == b
  {
    forall i | 0 <= i < |a|
      ensures Xor(Xor(a, b), a)[i] == b[i]
    {
      CancelBits(a[i], b[i]);
    }
  }

  lemma CancelBits(a: Octet, b: Octet)
    ensures (a ^ b) ^ a == b
  {
  }

  /** The characters of a C string up to its terminator. */
  function CString(memory: seq<Octet>): (s: seq<Octet>)
    requires 0 in memory
    ensures 0 !in s && |s| < |memory| && s == memory[..|s|] && memory[|s|] == 0
  {
    if memory[0] == 0 then [] else [memory[0]] + CString(memory[1..])
  }

  lemma {:induction false} CStringIs(memory: seq<Octet>, n: nat)
    requires n < |memory| && memory[n] == 0 && 0 !in memory[..n]
    ensures 0 in memory && CString(memory) == memory[..n]
  {
    if n > 0 {
      assert memory[0] == memory[..n][0] && memory[1..][..n - 1] == memory[..n][1..];
      CStringIs(memory[1..], n - 1);
      assert memory[..n] == [memory[0]] + memory[1..][..n - 1];
    }
  }

  /** What a server keeps of a password. */
  function StoredHash(password: seq<Octet>): seq<Octet> {
    Hash(Hash(password))
  }

  /** What the client answers to a scramble. */
  function Reply(password: seq<Octet>, scramble: seq<Octet>): seq<Octet> {
    Xor(Hash(scramble + StoredHash(password)), Hash(password))
  }

  /** The server's test: it holds h and the scramble it sent, never the password. */
  predicate ServerAccepts(h: seq<Octet>, scramble: seq<Octet>, reply: seq<Octet>) {
    |reply| == DIGEST_LENGTH && Hash(Xor(reply, Hash(scramble + h))) == h
  }

  datatype Packed = Packed(reply: seq<Octet>) | NoScramble

  /** The reply is an array filled by the last hash and xored in place. */
  method PackScrambleHash(password: array<Octet>, scramble: array?<Octet>) returns (r: Packed)
    requires 0 in password[..]
    requires scramble != null ==> scramble.Length == DIGEST_LENGTH
    ensures scramble == null <==> r == NoScramble
    ensures scramble != null ==>
      r == Packed(Reply(CString(password[..]), scramble[..])) &&
      ServerAccepts(StoredHash(CString(password[..])), scramble[..], r.reply)
  {
    hide Hash, Holds, CountOf, Sha1Context.Chaining, CString, Xor;
    if scramble == null {
      return NoScramble;
    }
    ghost var secret, challenge := CString(password[..]), scramble[..];
    var length := StrLen(password);
    var ctx := new Sha1Context();
    ctx.Update(password[..length]);
    assert ctx.message == secret;
    var hash_tmp1 := ctx.Final();

    ctx.Init();
    ctx.Update(hash_tmp1[..]);
    assert ctx.message == Hash(secret);
    var hash_tmp2 := ctx.Final();

    ctx.Init();
    ctx.Update(scramble[..]);
    ctx.Update(hash_tmp2[..]);
    assert ctx.message == challenge + StoredHash(secret);
    var buffer := ctx.Final();
    XorInto(buffer, hash_tmp1);
    LoginAccepted(secret, challenge);
    r := Packed(buffer[..]);
  }

  /** strlen. */
  method StrLen(memory: array<Octet>) returns (length: nat)
    requires 0 in memory[..]
    ensures length < memory.Length && memory[..length] == CString(memory[..])
  {
    hide CString;
    ghost var s := CString(memory[..]);
    length := 0;
    while memory[length] != 0
      invariant 0 <= length <= |s|
      decreases |s| - length
    {
      length := length + 1;
    }
  }

  /** The loop at the end of _pack_scramble_hash. */
  method XorInto(buffer: array<Octet>, other: array<Octet>)
    requires buffer.Length == other.Length == DIGEST_LENGTH && buffer != other
    modifies buffer
    ensures buffer[..] == Xor(old(buffer[..]), other[..])
  {
    hide Xor, XorOctet;
    ghost var last := buffer[..];
    var x := 0;
    while x < DIGEST_LENGTH
      invariant 0 <= x <= DIGEST_LENGTH
      invariant forall i :: x <= i < DIGEST_LENGTH ==> buffer[i] == last[i]
      invariant forall i :: 0 <= i < x ==> buffer[i] == XorOctet(last[i], other[i])
    {
      buffer[x] := XorOctet(buffer[x], other[x]);
      x := x + 1;
    }
    XorIs(last, other[..], buffer[..]);
  }

  /** Whoever knows the password passes the check of a server that only holds its hash. */
  lemma LoginAccepted(password: seq<Octet>, scramble: seq<Octet>)
    ensures ServerAccepts(StoredHash(password), scramble, Reply(password, scramble))
  {
    hide Hash, Xor;
    XorCancels(Hash(scramble + StoredHash(password)), Hash(password));
  }

  /** A reply reveals to the holder of h exactly one preimage candidate: the
      server accepts the replies built on the preimages of h and no others. */
  lemma AcceptedReplies(h: seq<Octet>, scramble: seq<Octet>, reply: seq<Octet>)
    requires |reply| == DIGEST_LENGTH
    ensures ServerAccepts(h, scramble, reply) <==>
      exists token :: |token| == DIGEST_LENGTH && Hash(token) == h && reply == Xor(Hash(scramble + h), token)
  {
    hide Hash;
    var mask := Hash(scramble + h);
    var token := Xor(reply, mask);
    assert Xor(mask, token) == reply by {
      assert Xor(mask, token) == Xor(Xor(mask, reply), mask) by { XorCommutes(mask, reply); XorCommutes(mask, token); }
      XorCancels(mask, reply);
    }
    forall t | |t| == DIGEST_LENGTH && reply == Xor(mask, t)
      ensures t == token
    {
      XorCancels(mask, t);
    }
  }

  lemma XorCommutes(a: seq<Octet>, b: seq<Octet>)
    requires |a| == |b|
    ensures Xor(a, b) == Xor(b, a)
  {
    forall i | 0 <= i < |a|
      ensures a[i] ^ b[i] == b[i] ^ a[i]
    {
    }
  }

  const HEX_MAP: string := "0123456789ABCDEF"

  function HexDigit(n: Octet): char
    requires n < 16
  {
    HEX_MAP[n as nat]
  }

  /** The upper four bits of a byte. */
  function High(o: Octet): (n: Octet)
    ensures n < 16
  {
    o >> 4
  }

  /** The lower four bits of a byte. */
  function Low(o: Octet): (n: Octet)
    ensures n < 16
  {
    o & 0xF
  }

  function Hex(s: seq<Octet>): (r: string)
    ensures |r| == 2 * |s|
  {
    if s == [] then [] else Hex(s[..|s| - 1]) + [HexDigit(High(s[|s| - 1])), HexDigit(Low(s[|s| - 1]))]
  }

  lemma HexStep(s: seq<Octet>, i: nat)
    requires i < |s|
    ensures Hex(s[..i + 1]) == Hex(s[..i]) + [HexDigit(High(s[i])), HexDigit(Low(s[i]))]
  {
    hide HexDigit, High, Low;
    assert s[..i + 1][..i] == s[..i];
  }

  /** drizzle_hex_string. */
  method HexString(to: array<char>, from: seq<Octet>) returns (ok: bool)
    requires to.Length > 2 * |from|
    modifies to
    ensures ok <==> from != []
    ensures ok ==> to[..2 * |from|] == Hex(from) && to[2 * |from|] == '\0'
  {
    if |from| == 0 {
      return false;
    }
    hide Hex, HexDigit, High, Low;
    var i := 0;
    while i < |from|
      invariant 0 <= i <= |from|
      invariant to[..2 * i] == Hex(from[..i])
    {
      to[2 * i] := HexDigit(High(from[i]));
      to[2 * i + 1] := HexDigit(Low(from[i]));
      HexStep(from, i);
      i := i + 1;
    }
    assert from[..i] == from;
    to[2 * i] := '\0';
    return true;
  }

  /** drizzle_mysql_password_hash: the hash in hexadecimal. */
  method MysqlPasswordHash(to: array<char>, from: seq<Octet>) returns (ok: bool)
    requires to.Length > 2 * DIGEST_LENGTH
    modifies to
    ensures ok <==> from != []
    ensures ok ==> to[..2 * DIGEST_LENGTH] == Hex(StoredHash(from)) && to[2 * DIGEST_LENGTH] == '\0'
  {
    hide Hash, Hex, Holds, CountOf, Sha1Context.Chaining;
    if |from| == 0 {
      return false;
    }
    var ctx := new Sha1Context();
    ctx.Update(from);
    assert ctx.message == from;
    var hash_tmp1 := ctx.Final();
    ctx.Init();
    ctx.Update(hash_tmp1[..]);
    assert ctx.message == hash_tmp1[..];
    var hash_tmp2 := ctx.Final();
    ok := HexString(to, hash_tmp2[..]);
  }

  function DigitValue(c: char): Octet {
    if c == '0' then 0 else if c == '1' then 1 else if c == '2' then 2 else if c == '3' then 3
    else if c == '4' then 4 else if c == '5' then 5 else if c == '6' then 6 else if c == '7' then 7
    else if c == '8' then 8 else if c == '9' then 9 else if c == 'A' then 10 else if c == 'B' then 11
    else if c == 'C' then 12 else if c == 'D' then 13 else if c == 'E' then 14 else 15
  }

  function Unhex(s: string): seq<Octet>
  {
    if |s| < 2 then []
    else
      var n := |s| - 2;
      Unhex(s[..n]) + [(DigitValue(s[n]) << 4) | DigitValue(s[n + 1])]
  }

  lemma DigitRoundTrip(n: Octet)
    requires n < 16
    ensures DigitValue(HexDigit(n)) == n
  {
  }

  lemma Nibbles(o: Octet)
    ensures (High(o) << 4) | Low(o) == o
  {
  }

  lemma {:induction false} HexRoundTrip(s: seq<Octet>)
    ensures Unhex(Hex(s)) == s
  {
    hide Hex, Unhex;
    if s == [] {
      NoDigits();
    } else {
      HexRoundTrip(s[..|s| - 1]);
      HexByteBack(s[..|s| - 1], s[|s| - 1]);
      assert s == s[..|s| - 1] + [s[|s| - 1]];
    }
  }

  lemma NoDigits()
    ensures Unhex(Hex([])) == []
  {
  }

  lemma HexByteBack(front: seq<Octet>, o: Octet)
    ensures Unhex(Hex(front + [o])) == Unhex(Hex(front)) + [o]
  {
    var s, n := front + [o], |Hex(front)|;
    Nibbles(o);
    DigitRoundTrip(High(o));
    DigitRoundTrip(Low(o));
    hide HexDigit, DigitValue, High, Low;
    assert s[..|s| - 1] == front;
    assert Hex(s)[..n] == Hex(front);
  }

  /** A server that reads the printed hash back accepts the client's reply. */
  lemma PrintedHashSuffices(password: seq<Octet>, scramble: seq<Octet>)
    ensures ServerAccepts(Unhex(Hex(StoredHash(password))), scramble, Reply(password, scramble))
  {
    hide Hash, Hex, Unhex;
    HexRoundTrip(StoredHash(password));
    LoginAccepted(password, scramble);
  }
}
