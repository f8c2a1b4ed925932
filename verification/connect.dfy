/** Connecting over TCP: drizzle_state_connect, drizzle_state_connecting,
    connect_failed_try_next and the loop of drizzle_connect in src/conn.cc. */
module Connect {
  import opened StateStack
  import opened Connection

  /** An entry of the list getaddrinfo returns. */
  type Address = nat

  /** What socket, setsockopt and connect do for one address.  InProgress covers
      EINTR, EINPROGRESS, EALREADY and ERESTART, Unreachable the failures that
      concern this address alone. */
  datatype Attempt = NoSocket | NoOption | Connected | InProgress | Unreachable | Broken

  /** What a wait for the socket ends with: the events poll reports, or none in
      time. */
  datatype Wait = Ready(events: Events) | TimedOut

  datatype Events = Events(pollOut: bool, pollErr: bool, pollHup: bool, pollNval: bool)

  const NO_EVENTS := Events(false, false, false, false)

  /** What getsockopt says of the socket: itself failed, or an error or none. */
  datatype SocketState = Unknown | Faulty | Sound

  /** Every failure of the n attempts concerns its address alone. */
  predicate Plain(n: nat, attempts: seq<Attempt>, states: seq<SocketState>) {
    && |attempts| >= n && (forall k :: 0 <= k < |attempts| ==> attempts[k] in {Connected, InProgress, Unreachable})
    && |states| >= n && Unknown !in states
  }

  lemma PlainAttempt(n: nat, attempts: seq<Attempt>, states: seq<SocketState>, k: nat)
    ensures Plain(n, attempts, states) ==>
      (k < n ==> k < |attempts| && attempts[k] in {Connected, InProgress, Unreachable}) &&
      (0 < k <= n ==> k <= |states| && states[k - 1] != Unknown)
  {
  }

  // ------------------------------------------------ which address the connection is to

  function AttemptAt(attempts: seq<Attempt>, k: nat): Attempt {
    if k < |attempts| then attempts[k] else Broken
  }

  function StateAt(states: seq<SocketState>, k: nat): SocketState {
    if k < |states| then states[k] else Unknown
  }

  /** Of the waits from `from` on, those before `to` are over without an event. */
  predicate Quiet(waits: seq<Wait>, from: nat, to: nat) {
    from <= to <= |waits| && forall j :: from <= j < to ==> waits[j] == Ready(NO_EVENTS)
  }

  /** The one before `to` is the first to report an event. */
  predicate Reports(waits: seq<Wait>, from: nat, to: nat) {
    from < to && Quiet(waits, from, to - 1) && to <= |waits| && waits[to - 1].Ready? && waits[to - 1].events != NO_EVENTS
  }

  /** The address connects: at once, or when its socket becomes writable without an
      error.  The waits for it are those between `from` and `to`. */
  predicate Connects(attempt: Attempt, state: SocketState, waits: seq<Wait>, from: nat, to: nat) {
    match attempt
    case Connected => from == to
    case InProgress => Reports(waits, from, to) && waits[to - 1].events.pollOut && state == Sound
    case _ => false
  }

  /** The address fails, and nothing else does. */
  predicate Fails(attempt: Attempt, state: SocketState, waits: seq<Wait>, from: nat, to: nat) {
    match attempt
    case Unreachable => from == to
    case InProgress =>
      Reports(waits, from, to) &&
      var e := waits[to - 1].events;
      (e.pollOut ==> state == Faulty) && (e.pollErr || e.pollHup ==> state != Unknown)
    case _ => false
  }

  /** The waits that are over before address k is tried, when used[k] are over
      behind it. */
  function Over(used: seq<nat>, k: nat): nat
    requires k <= |used|
  {
    if k == 0 then 0 else used[k - 1]
  }

  /** The first m addresses fail. */
  predicate FirstFail(m: nat, attempts: seq<Attempt>, states: seq<SocketState>, waits: seq<Wait>, used: seq<nat>) {
    m <= |used| &&
    forall k :: 0 <= k < m ==> Fails(AttemptAt(attempts, k), StateAt(states, k), waits, Over(used, k), used[k])
  }

  /** Address m connects, and those before it fail. */
  predicate ConnectsAt(m: nat, attempts: seq<Attempt>, states: seq<SocketState>, waits: seq<Wait>, used: seq<nat>) {
    |used| == m + 1 && FirstFail(m, attempts, states, waits, used) &&
    Connects(AttemptAt(attempts, m), StateAt(states, m), waits, Over(used, m), used[m])
  }

  /** Address m neither connects nor fails: it meets a failure that is not its own, or
      no wait reports an event. */
  ghost predicate Stuck(m: nat, attempts: seq<Attempt>, states: seq<SocketState>, waits: seq<Wait>, used: seq<nat>)
    requires m <= |used|
  {
    forall to: nat ::
      !Fails(AttemptAt(attempts, m), StateAt(states, m), waits, Over(used, m), to) &&
      !Connects(AttemptAt(attempts, m), StateAt(states, m), waits, Over(used, m), to)
  }

  /** What the state loop is at: the connection stands, the next address is to be tried,
      or the connection to the last one tried is in progress. */
  datatype Phase = Standing | Trying | Pending

  /** `events` are those of the waits for an address that are over. */
  predicate Awaits(waits: seq<Wait>, from: nat, to: nat, events: Events) {
    if events == NO_EVENTS then Quiet(waits, from, to) else Reports(waits, from, to) && waits[to - 1].events == events
  }

  /** The state loop when `tried` addresses have been tried and nextWait waits are over. */
  predicate Reached(phase: Phase, tried: nat, events: Events, attempts: seq<Attempt>, states: seq<SocketState>,
                    waits: seq<Wait>, nextWait: nat, used: seq<nat>)
  {
    match phase
    case Standing => 0 < tried && ConnectsAt(tried - 1, attempts, states, waits, used)
    case Trying =>
      tried == |used| && FirstFail(tried, attempts, states, waits, used) && nextWait == Over(used, tried) <= |waits|
    case Pending =>
      tried == |used| + 1 && FirstFail(|used|, attempts, states, waits, used) &&
      AttemptAt(attempts, |used|) == InProgress && Awaits(waits, Over(used, |used|), nextWait, events)
  }

  lemma OneMoreFails(m: nat, attempts: seq<Attempt>, states: seq<SocketState>, waits: seq<Wait>, used: seq<nat>, to: nat)
    requires m == |used| && FirstFail(m, attempts, states, waits, used)
    ensures FirstFail(m, attempts, states, waits, used + [to]) && Over(used + [to], m) == Over(used, m)
    ensures Fails(AttemptAt(attempts, m), StateAt(states, m), waits, Over(used, m), to) ==>
      FirstFail(m + 1, attempts, states, waits, used + [to])
  {
    hide Fails;
    forall k | 0 <= k < m
      ensures Over(used + [to], k) == Over(used, k) && (used + [to])[k] == used[k]
    {
    }
  }

  /** The next address is tried. */
  lemma Tries(m: nat, events: Events, attempts: seq<Attempt>, states: seq<SocketState>, waits: seq<Wait>, nextWait: nat,
              used: seq<nat>, after: Events)
    requires Reached(Trying, m, events, attempts, states, waits, nextWait, used)
    ensures m == |used| && FirstFail(m, attempts, states, waits, used)
    ensures match AttemptAt(attempts, m)
      case Connected => Reached(Standing, m + 1, after, attempts, states, waits, nextWait, used + [nextWait])
      case InProgress => Reached(Pending, m + 1, NO_EVENTS, attempts, states, waits, nextWait, used)
      case Unreachable => Reached(Trying, m + 1, after, attempts, states, waits, nextWait, used + [nextWait])
      case _ => Stuck(m, attempts, states, waits, used)
  {
    hide FirstFail, Reports;
    OneMoreFails(m, attempts, states, waits, used, nextWait);
  }

  /** A wait has ended with events. */
  lemma Wakes(m: nat, events: Events, attempts: seq<Attempt>, states: seq<SocketState>, waits: seq<Wait>, nextWait: nat,
              used: seq<nat>, after: Events)
    requires Reached(Pending, m, events, attempts, states, waits, nextWait, used) && events != NO_EVENTS && nextWait <= |waits|
    ensures 0 < m == |used| + 1 && FirstFail(|used|, attempts, states, waits, used)
    ensures var state := StateAt(states, |used|);
      if state == Unknown && (events.pollOut || events.pollErr || events.pollHup) then
        Stuck(|used|, attempts, states, waits, used)
      else
        var phase := if events.pollOut && state == Sound then Standing else Trying;
        Reached(phase, m, after, attempts, states, waits, nextWait, used + [nextWait])
  {
    hide FirstFail, Reports;
    OneMoreFails(|used|, attempts, states, waits, used, nextWait);
    forall to: nat | Reports(waits, Over(used, |used|), to)
      ensures to == nextWait
    {
      ReportsOnce(waits, Over(used, |used|), to, nextWait);
    }
  }

  /** The loop waits once more. */
  lemma Waits(m: nat, attempts: seq<Attempt>, states: seq<SocketState>, waits: seq<Wait>, nextWait: nat, used: seq<nat>)
    requires Reached(Pending, m, NO_EVENTS, attempts, states, waits, nextWait, used) && nextWait <= |waits|
    ensures 0 < m == |used| + 1 && FirstFail(|used|, attempts, states, waits, used)
    ensures if nextWait == |waits| || waits[nextWait] == TimedOut then Stuck(|used|, attempts, states, waits, used)
            else Reached(Pending, m, waits[nextWait].events, attempts, states, waits, nextWait + 1, used)
  {
    hide FirstFail;
  }

  lemma ReportsOnce(waits: seq<Wait>, from: nat, to: nat, other: nat)
    requires Reports(waits, from, to) && Reports(waits, from, other)
    ensures to == other
  {
  }

  lemma OneEnd(attempt: Attempt, state: SocketState, waits: seq<Wait>, from: nat, to: nat, other: nat)
    requires Fails(attempt, state, waits, from, to)
    ensures Fails(attempt, state, waits, from, other) ==> to == other
    ensures !Connects(attempt, state, waits, from, other)
  {
    hide Reports;
    if Reports(waits, from, to) && Reports(waits, from, other) {
      ReportsOnce(waits, from, to, other);
    }
  }

  /** The addresses that fail do so in one way. */
  lemma {:induction false} FailInOneWay(m: nat, attempts: seq<Attempt>, states: seq<SocketState>, waits: seq<Wait>,
                                        used: seq<nat>, other: seq<nat>)
    requires FirstFail(m, attempts, states, waits, used) && FirstFail(m, attempts, states, waits, other)
    ensures used[..m] == other[..m]
  {
    hide Fails;
    if m > 0 {
      FailInOneWay(m - 1, attempts, states, waits, used, other);
      assert Over(used, m - 1) == Over(other, m - 1) by {
        assert m > 1 ==> used[m - 2] == used[..m - 1][m - 2] && other[m - 2] == other[..m - 1][m - 2];
      }
      OneEnd(AttemptAt(attempts, m - 1), StateAt(states, m - 1), waits, Over(used, m - 1), used[m - 1], other[m - 1]);
    }
  }

  /** Behind m addresses that fail and one that is stuck no address connects, and none
      of the m does. */
  lemma NoneConnects(m: nat, attempts: seq<Attempt>, states: seq<SocketState>, waits: seq<Wait>, used: seq<nat>,
                     k: nat, other: seq<nat>)
    requires FirstFail(m, attempts, states, waits, used) && ConnectsAt(k, attempts, states, waits, other)
    ensures k >= m && !Stuck(m, attempts, states, waits, used)
  {
    hide Fails, Connects;
    if k < m {
      FailInOneWay(k, attempts, states, waits, used, other);
      SameOver(used, other, k);
      OneEnd(AttemptAt(attempts, k), StateAt(states, k), waits, Over(used, k), used[k], other[k]);
    } else {
      FailInOneWay(m, attempts, states, waits, used, other);
      SameOver(used, other, m);
    }
  }

  lemma NoneStands(n: nat, attempts: seq<Attempt>, states: seq<SocketState>, waits: seq<Wait>, used: seq<nat>)
    requires FirstFail(|used|, attempts, states, waits, used)
    requires |used| < n ==> Stuck(|used|, attempts, states, waits, used)
    ensures forall k: nat, other :: k < n ==> !ConnectsAt(k, attempts, states, waits, other)
  {
    hide FirstFail, ConnectsAt, Stuck;
    forall k: nat, other | k < n && ConnectsAt(k, attempts, states, waits, other)
      ensures false
    {
      NoneConnects(|used|, attempts, states, waits, used, k, other);
    }
  }

  lemma SameOver(used: seq<nat>, other: seq<nat>, m: nat)
    requires m <= |used| && m <= |other| && used[..m] == other[..m]
    ensures Over(used, m) == Over(other, m)
  {
    assert m > 0 ==> used[m - 1] == used[..m][m - 1] && other[m - 1] == other[..m][m - 1];
  }

  class Connector {
    const nonBlocking: bool
    /** addrinfo_next and the entries behind it; empty for NULL. */
    var addrinfoNext: seq<Address>
    var revents: Events
    var stack: seq<StateFn>
    /** The addresses connect was called with. */
    var tried: seq<Address>
    /** The steps of the state loop that did not wait. */
    ghost var steps: nat

    constructor (nonBlocking: bool)
      ensures this.nonBlocking == nonBlocking && stack == [] && tried == [] && steps == 0
    {
      this.nonBlocking := nonBlocking;
      addrinfoNext, revents, stack := [], NO_EVENTS, [];
      tried, steps := [], 0;
    }

    /** Of the addresses, those tried are the front of the list, in order: all that
        come before addrinfo_next, and addrinfo_next itself while its connection
        is in progress. */
    ghost predicate InStep(addresses: seq<Address>, beneath: seq<StateFn>)
      reads this`addrinfoNext, this`stack, this`tried
    {
      if |stack| == |beneath| then stack == beneath && addrinfoNext == [] && tried != [] && tried <= addresses
      else
        && |stack| == |beneath| + 1 && stack[1..] == beneath
        && if stack[0] == Connect then addresses == tried + addrinfoNext
           else
             stack[0] == Connecting && addrinfoNext != [] && tried != [] &&
             tried[|tried| - 1] == addrinfoNext[0] && addresses == tried + addrinfoNext[1..]
    }

    /** The steps that are left at most. */
    ghost function Measure(): nat
      reads this`addrinfoNext, this`stack
    {
      2 * |addrinfoNext| + if stack != [] && stack[0] == Connect then 1 else 0
    }

    /** drizzle_state_addrinfo, given the list getaddrinfo returns. */
    method StateAddrinfo(addresses: seq<Address>)
      requires stack != [] && stack[0] == Addrinfo && tried == []
      modifies this`addrinfoNext, this`stack
      ensures stack == old(stack)[1..] && addrinfoNext == addresses
    {
      addrinfoNext := addresses;
      stack := stack[1..];
    }

    /** drizzle_state_connect. */
    method StateConnect(attempt: Attempt, ghost addresses: seq<Address>, ghost beneath: seq<StateFn>)
      returns (ret: Ret)
      requires InStep(addresses, beneath) && |stack| > |beneath| && stack[0] == Connect
      modifies this`addrinfoNext, this`stack, this`revents, this`tried
      ensures ret == Ok <==> old(addrinfoNext) != [] && attempt in {Connected, InProgress, Unreachable}
      ensures ret == Ok ==>
        && InStep(addresses, beneath) && Measure() < old(Measure()) && tried == old(tried) + [old(addrinfoNext)[0]]
        && (attempt == Connected ==> stack == beneath && addrinfoNext == [] && revents == NO_EVENTS.(pollOut := true))
        && (attempt == InProgress ==>
              stack == [Connecting] + beneath && addrinfoNext == old(addrinfoNext) && revents == NO_EVENTS)
        && (attempt == Unreachable ==>
              stack == old(stack) && addrinfoNext == old(addrinfoNext)[1..] && revents == NO_EVENTS)
      ensures ret != Ok ==> ret == CouldNotConnect && tried <= addresses
      ensures ret != Ok && old(addrinfoNext) == [] ==> tried == old(tried) == addresses && stack == []
      ensures attempt in {NoSocket, NoOption} ==> tried == old(tried)
    {
      if addrinfoNext == [] {
        assert tried + [] == tried;
        stack := [];
        return CouldNotConnect;
      }
      Front(tried, addrinfoNext);
      if attempt == NoSocket || attempt == NoOption {
        return CouldNotConnect;
      }
      tried := tried + [addrinfoNext[0]];
      assert addresses == tried + addrinfoNext[1..] && tried <= addresses;
      if attempt == Connected {
        revents := NO_EVENTS.(pollOut := true);
        addrinfoNext := [];
        stack := stack[1..];
        return Ok;
      }
      revents := NO_EVENTS;
      if attempt == InProgress {
        stack := stack[1..];
        stack := [Connecting] + stack;
        return Ok;
      }
      if attempt == Unreachable {
        addrinfoNext := addrinfoNext[1..];
        return Ok;
      }
      return CouldNotConnect;
    }

    /** connect_failed_try_next, called when the attempt in progress has failed and
        its state is popped. */
    method ConnectFailedTryNext(ghost addresses: seq<Address>, ghost beneath: seq<StateFn>)
      requires stack == beneath && addrinfoNext != [] && addresses == tried + addrinfoNext[1..]
      modifies this`addrinfoNext, this`stack
      ensures InStep(addresses, beneath) && |stack| > |beneath| && stack[0] == Connect
      ensures addrinfoNext == old(addrinfoNext)[1..]
    {
      addrinfoNext := addrinfoNext[1..];
      stack := [Connect] + stack;
    }

    /** drizzle_state_connecting.  addrinfo_next is never NULL here. */
    method StateConnecting(state: SocketState, ghost addresses: seq<Address>, ghost beneath: seq<StateFn>)
      returns (ret: Ret)
      requires InStep(addresses, beneath) && |stack| > |beneath| && stack[0] == Connecting
      modifies this`addrinfoNext, this`stack, this`revents
      ensures ret == IoWait <==> old(revents) == NO_EVENTS
      ensures ret == IoWait ==>
        stack == old(stack) && addrinfoNext == old(addrinfoNext) && revents == NO_EVENTS && InStep(addresses, beneath)
      ensures ret == InternalError <==>
        state == Unknown && (old(revents).pollOut || old(revents).pollErr || old(revents).pollHup)
      ensures ret == Ok || ret == IoWait || ret == InternalError
      ensures ret == Ok ==> InStep(addresses, beneath) && Measure() < old(Measure())
      ensures ret == Ok && old(revents).pollOut && state == Sound ==> stack == beneath && addrinfoNext == []
      ensures ret == Ok && !(old(revents).pollOut && state == Sound) ==>
        stack == [Connect] + beneath && addrinfoNext == old(addrinfoNext)[1..]
      ensures revents ==
        if old(revents).pollOut || old(revents).pollErr || old(revents).pollHup then old(revents) else NO_EVENTS
    {
      if revents.pollOut || revents.pollErr || revents.pollHup {
        stack := stack[1..];
        if state == Unknown {
          return InternalError;
        }
        if state == Sound && revents.pollOut {
          addrinfoNext := [];
          assert tried <= tried + old(addrinfoNext)[1..];
          return Ok;
        }
        ConnectFailedTryNext(addresses, beneath);
        return Ok;
      } else if revents.pollNval {
        revents := NO_EVENTS;
        stack := stack[1..];
        ConnectFailedTryNext(addresses, beneath);
        return Ok;
      } else {
        revents := NO_EVENTS;
        return IoWait;
      }
    }

    lemma TriedInOrder(addresses: seq<Address>, beneath: seq<StateFn>)
      requires InStep(addresses, beneath)
      ensures tried <= addresses
      ensures |stack| > |beneath| && stack[0] == Connect && addrinfoNext != [] ==> |tried| < |addresses|
      ensures if |stack| == |beneath| then stack == beneath && addrinfoNext == [] && tried != []
              else |stack| == |beneath| + 1 && (stack[0] == Connect || (stack[0] == Connecting && tried != []))
    {
      assert tried <= tried + addrinfoNext;
      if addrinfoNext != [] {
        assert tried <= tried + addrinfoNext[1..];
      }
    }

    ghost function Stage(beneath: seq<StateFn>): Phase
      reads this`stack
    {
      if |stack| <= |beneath| then Standing else if stack[0] == Connect then Trying else Pending
    }

    /** One step of the state loop. */
    method Step(attempt: Attempt, state: SocketState, ghost addresses: seq<Address>, ghost beneath: seq<StateFn>)
      returns (ret: Ret)
      requires InStep(addresses, beneath) && |stack| > |beneath|
      modifies this
      ensures ret == Ok || ret == IoWait ==> InStep(addresses, beneath)
      ensures ret == Ok ==> Measure() < old(Measure()) && steps == old(steps) + 1
      ensures ret == IoWait ==>
        && old(stack)[0] == Connecting && old(revents) == NO_EVENTS && revents == NO_EVENTS
        && stack == old(stack) && Measure() == old(Measure()) && steps == old(steps) && tried == old(tried)
      ensures ret != Ok && ret != IoWait ==> tried <= addresses && steps == old(steps) + 1 && old(Measure()) >= 1
      ensures old(stack)[0] == Connect ==>
        if old(addrinfoNext) == [] then ret == CouldNotConnect && tried == old(tried) == addresses && stack == []
        else if attempt !in {Connected, InProgress, Unreachable} then ret == CouldNotConnect
        else
          ret == Ok && |tried| == |old(tried)| + 1 &&
          stack == (if attempt == Connected then beneath
                    else if attempt == InProgress then [Connecting] + beneath
                    else old(stack)) &&
          (attempt == InProgress ==> revents == NO_EVENTS)
      ensures old(stack)[0] == Connecting ==>
        tried == old(tried) &&
        var e := old(revents);
        if e == NO_EVENTS then ret == IoWait
        else if state == Unknown && (e.pollOut || e.pollErr || e.pollHup) then ret == InternalError
        else ret == Ok && stack == if e.pollOut && state == Sound then beneath else [Connect] + beneath
    {
      TriedInOrder(addresses, beneath);
      if stack[0] == Connect {
        ret := StateConnect(attempt, addresses, beneath);
        steps := steps + 1;
      } else {
        ret := StateConnecting(state, addresses, beneath);
        if ret != IoWait {
          steps := steps + 1;
        }
      }
    }

    /** drizzle_connect from the address list on: the state loop, and a wait whenever
        it asks for one (by drizzle_wait, or by the caller of a connection that does
        not block).  attempts[k] and states[k] are what happens to the k-th address
        tried, used[k] counts the waits that are over when it connects or fails.
        Addresses are tried in list order, none twice and none skipped; at most
        2n + 1 steps do not wait.  The connection is to the first address that
        connects, provided nothing but an address fails before it. */
    method OpenConnection(addresses: seq<Address>, attempts: seq<Attempt>, states: seq<SocketState>, waits: seq<Wait>,
                          beneath: seq<StateFn>) returns (ret: Ret, ghost used: seq<nat>)
      requires stack == [Addrinfo, Connect] + beneath && tried == [] && steps == 0
      modifies this
      ensures tried <= addresses && steps <= 2 * |addresses| + 1
      ensures ret.Ok? || ret.CouldNotConnect? || ret.InternalError? || ret.Timeout?
      ensures ret == Ok ==>
        && stack == beneath && addrinfoNext == [] && tried != []
        && ConnectsAt(|tried| - 1, attempts, states, waits, used)
      ensures ret != Ok ==>
        && FirstFail(|used|, attempts, states, waits, used)
        && if |used| < |addresses| then Stuck(|used|, attempts, states, waits, used)
           else ret == CouldNotConnect && tried == addresses && stack == []
      ensures ret == Ok <==> exists k: nat, other :: k < |addresses| && ConnectsAt(k, attempts, states, waits, other)
      ensures Plain(|addresses|, attempts, states) ==>
        ret == Ok || ret == Timeout || (ret == CouldNotConnect && tried == addresses && stack == [])
    {
      StateAddrinfo(addresses);
      assert stack[1..] == beneath && tried + addrinfoNext == addresses;
      assert InStep(addresses, beneath);
      var nextWait := 0;
      used := [];
      hide InStep, Plain, FirstFail, ConnectsAt, Stuck;
      assert Reached(Trying, 0, revents, attempts, states, waits, 0, []);
      hide Reached;
      while |stack| != |beneath|
        invariant InStep(addresses, beneath) && nextWait <= |waits|
        invariant Reached(Stage(beneath), |tried|, revents, attempts, states, waits, nextWait, used)
        invariant steps + Measure() <= 2 * |addresses| + 1
        decreases Measure(), |waits| - nextWait
      {
        ret, nextWait, used := Turn(addresses, attempts, states, waits, beneath, nextWait, used);
        if ret != Ok {
          NoneStands(|addresses|, attempts, states, waits, used);
          return;
        }
      }
      TriedInOrder(addresses, beneath);
      StandsAt(|tried|, revents, attempts, states, waits, nextWait, used);
      ret := Ok;
    }

    /** One step of the state loop and the wait it asks for. */
    method Turn(addresses: seq<Address>, attempts: seq<Attempt>, states: seq<SocketState>, waits: seq<Wait>,
                ghost beneath: seq<StateFn>, nextWait: nat, ghost used: seq<nat>)
      returns (ret: Ret, waitsOver: nat, ghost now: seq<nat>)
      requires InStep(addresses, beneath) && |stack| > |beneath| && nextWait <= |waits|
      requires Reached(Stage(beneath), |tried|, revents, attempts, states, waits, nextWait, used)
      modifies this
      ensures nextWait <= waitsOver <= |waits|
      ensures ret == Ok ==>
        && InStep(addresses, beneath)
        && Reached(Stage(beneath), |tried|, revents, attempts, states, waits, waitsOver, now)
        && steps + Measure() <= old(steps) + old(Measure())
        && (Measure() < old(Measure()) || (Measure() == old(Measure()) && waitsOver > nextWait))
      ensures ret != Ok ==>
        && tried <= addresses && steps <= old(steps) + old(Measure())
        && FirstFail(|now|, attempts, states, waits, now)
        && if |now| < |addresses| then Stuck(|now|, attempts, states, waits, now)
           else ret == CouldNotConnect && tried == addresses && stack == []
      ensures ret.Ok? || ret.CouldNotConnect? || ret.InternalError? || ret.Timeout?
      ensures Plain(|addresses|, attempts, states) && ret != Ok ==>
        ret == Timeout || (ret == CouldNotConnect && tried == addresses && stack == [])
    {
      hide InStep, Plain, Reached, FirstFail, ConnectsAt, Stuck;
      TriedInOrder(addresses, beneath);
      waitsOver, now := nextWait, used;
      PlainAttempt(|addresses|, attempts, states, |tried|);
      ghost var m, events, connects := |tried|, revents, stack[0] == Connect;
      var attempt, state := AttemptAt(attempts, |tried|), if tried == [] then Unknown else StateAt(states, |tried| - 1);
      ret := Step(attempt, state, addresses, beneath);
      if connects {
        Tries(m, events, attempts, states, waits, nextWait, used, revents);
      } else if events == NO_EVENTS {
        Waits(m, attempts, states, waits, nextWait, used);
      } else {
        Wakes(m, events, attempts, states, waits, nextWait, used, revents);
      }
      if ret == IoWait {
        if nextWait == |waits| || waits[nextWait] == TimedOut {
          return Timeout, nextWait, used;
        }
        revents := waits[nextWait].events;
        return Ok, nextWait + 1, used;
      }
      if ret == Ok && !(connects && attempt == InProgress) {
        now := used + [nextWait];
      }
    }
  }

  lemma StandsAt(tried: nat, events: Events, attempts: seq<Attempt>, states: seq<SocketState>, waits: seq<Wait>,
                 nextWait: nat, used: seq<nat>)
    requires Reached(Standing, tried, events, attempts, states, waits, nextWait, used)
    ensures 0 < tried && ConnectsAt(tried - 1, attempts, states, waits, used)
  {
  }

  lemma Front(tried: seq<Address>, next: seq<Address>)
    requires next != []
    ensures tried + next == (tried + [next[0]]) + next[1..]
    ensures tried <= tried + next && tried + [next[0]] <= tried + next
  {
  }
}
