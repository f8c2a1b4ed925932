/** The stack of state functions of a connection: two intrusive doubly linked
    lists (src/packet.h) sharing eight pool nodes (src/structs.h). */
module StateStack {
  /** The functions a connection can have on its stack. */
  datatype StateFn =
    | Addrinfo | Connect | Connecting
    | Read | Write | PacketRead
    | HandshakeServerRead | HandshakeClientRead
    | HandshakeSslClientWrite | HandshakeClientWrite | HandshakeResultRead
    | CommandWrite | ResultRead | ColumnRead | RowRead
    | FieldRead | BinaryNullRead | BinaryFieldRead | BinlogRead

  datatype Option<T> = None | Some(value: T)

  /** A node.  A pooled node lives inside the connection, the others on the heap. */
  class Packet {
    const pooled: bool
    var func: Option<StateFn>
    var next: Packet?
    var prev: Packet?

    constructor (pooled: bool, func: Option<StateFn>)
      ensures this.pooled == pooled && this.func == func && next == null && prev == null
    {
      this.pooled := pooled;
      this.func := func;
      next := null;
      prev := null;
    }
  }

  ghost predicate Distinct(nodes: seq<Packet>) {
    forall i, j :: 0 <= i < j < |nodes| ==> nodes[i] != nodes[j]
  }

  /** The nodes are different objects, all in repr, and each points at its neighbours. */
  ghost predicate Linked(nodes: seq<Packet>, repr: set<Packet>)
    reads repr`next, repr`prev
  {
    && Distinct(nodes)
    && (forall i :: 0 <= i < |nodes| ==> nodes[i] in repr)
    && (forall i {:trigger nodes[i].next} :: 0 <= i < |nodes| ==>
          nodes[i].next == (if i + 1 < |nodes| then nodes[i + 1] else null))
    && (forall i {:trigger nodes[i].prev} :: 0 <= i < |nodes| ==>
          nodes[i].prev == (if i > 0 then nodes[i - 1] else null))
  }

  /** A list head and its count, as the macros LIBDRIZZLE_LIST_ADD and
      LIBDRIZZLE_LIST_DEL paste them together. */
  class PacketList {
    var list: Packet?
    var count: nat
    ghost var nodes: seq<Packet>
    ghost var repr: set<Packet>

    /** The list is acyclic and linked both ways, and the count is its length. */
    ghost predicate Valid()
      reads this, repr`next, repr`prev
    {
      && count == |nodes|
      && list == (if nodes == [] then null else nodes[0])
      && Linked(nodes, repr)
    }

    constructor ()
      ensures Valid() && nodes == [] && repr == {}
    {
      list := null;
      count := 0;
      nodes := [];
      repr := {};
    }

    /** LIBDRIZZLE_LIST_ADD. */
    method Add(obj: Packet)
      requires Valid() && obj !in repr
      modifies this, obj`next, obj`prev, repr`prev
      ensures Valid() && nodes == [obj] + old(nodes) && repr == old(repr) + {obj}
    {
      ghost var before := nodes;
      if list != null {
        list.prev := obj;
      }
      obj.next := list;
      obj.prev := null;
      list := obj;
      count := count + 1;
      nodes := [obj] + nodes;
      repr := repr + {obj};
      assert forall i :: 1 <= i < |nodes| ==> nodes[i] == before[i - 1];
    }

    /** LIBDRIZZLE_LIST_DEL, for a node anywhere in the list. */
    method Del(obj: Packet, ghost k: nat)
      requires Valid() && k < |nodes| && nodes[k] == obj
      modifies this, repr`next, repr`prev
      ensures Valid() && nodes == old(nodes[..k] + nodes[k + 1..]) && repr == old(repr) - {obj}
    {
      ghost var before := nodes;
      assert obj.next == (if k + 1 < |nodes| then nodes[k + 1] else null);
      assert obj.prev == (if k > 0 then nodes[k - 1] else null);
      if list == obj {
        list := obj.next;
      }
      if obj.prev != null {
        obj.prev.next := obj.next;
      }
      if obj.next != null {
        obj.next.prev := obj.prev;
      }
      count := count - 1;
      nodes := nodes[..k] + nodes[k + 1..];
      repr := repr - {obj};
      assert forall i :: 0 <= i < |nodes| ==> nodes[i] == (if i < k then before[i] else before[i + 1]);
    }
  }

  datatype Op = Push(f: StateFn) | Pop | Clear

  /** A stack of functions, top first. */
  function Apply(stack: seq<StateFn>, op: Op): seq<StateFn> {
    match op
    case Push(f) => [f] + stack
    case Pop => if stack == [] then [] else stack[1..]
    case Clear => []
  }

  function ApplyAll(stack: seq<StateFn>, ops: seq<Op>): seq<StateFn> {
    if ops == [] then stack else Apply(ApplyAll(stack, ops[..|ops| - 1]), ops[|ops| - 1])
  }

  /** Every node on the stack has a function to run. */
  ghost predicate Ready(nodes: seq<Packet>, repr: set<Packet>)
    reads repr`func
  {
    forall i :: 0 <= i < |nodes| ==> nodes[i] in repr && nodes[i].func.Some?
  }

  /** The functions of a list of nodes. */
  ghost function Functions(nodes: seq<Packet>, repr: set<Packet>): (r: seq<StateFn>)
    reads repr`func
    requires Ready(nodes, repr)
    ensures |r| == |nodes|
    ensures forall i :: 0 <= i < |nodes| ==> r[i] == nodes[i].func.value
  {
    if nodes == [] then [] else [nodes[0].func.value] + Functions(nodes[1..], repr)
  }

  lemma Uncovered(nodes: seq<Packet>, repr: set<Packet>, less: set<Packet>)
    requires Ready(nodes, repr) && nodes != [] && forall p :: p in nodes[1..] ==> p in less
    ensures Ready(nodes[1..], less) && Functions(nodes[1..], less) == Functions(nodes, repr)[1..]
  {
  }

  /** How pool nodes are spread: the lowest eight nodes of the stack come from
      the pool, those above from the heap, and every free node is a pool node. */
  ghost predicate Disciplined(states: seq<Packet>, free: seq<Packet>) {
    && |free| == (if |states| <= 8 then 8 - |states| else 0)
    && (forall p :: p in free ==> p.pooled)
    && (forall i :: 0 <= i < |states| ==> (states[i].pooled <==> |states| - i <= 8))
  }

  /** The pool nodes, free or in use. */
  ghost function PoolOf(states: seq<Packet>, free: seq<Packet>): set<Packet> {
    (set p | p in states && p.pooled) + (set p | p in free)
  }

  lemma MoveToStack(states: seq<Packet>, free: seq<Packet>)
    requires Disciplined(states, free) && free != []
    ensures Disciplined([free[0]] + states, free[1..])
    ensures PoolOf([free[0]] + states, free[1..]) == PoolOf(states, free)
    ensures free[0] in PoolOf(states, free)
  {
    var after := [free[0]] + states;
    assert forall i :: 1 <= i < |after| ==> after[i] == states[i - 1];
    assert free == [free[0]] + free[1..];
  }

  lemma HeapOnTop(states: seq<Packet>, free: seq<Packet>, p: Packet)
    requires Disciplined(states, free) && free == [] && !p.pooled
    ensures Disciplined([p] + states, free) && PoolOf([p] + states, free) == PoolOf(states, free)
  {
    var after := [p] + states;
    assert forall i :: 1 <= i < |after| ==> after[i] == states[i - 1];
  }

  lemma MoveFromStack(states: seq<Packet>, free: seq<Packet>)
    requires Disciplined(states, free) && states != []
    ensures var free' := if states[0].pooled then [states[0]] + free else free;
      Disciplined(states[1..], free') && PoolOf(states[1..], free') == PoolOf(states, free)
  {
    assert states == [states[0]] + states[1..];
    assert forall i :: 0 <= i < |states| - 1 ==> states[1..][i] == states[i + 1];
  }

  lemma PoolRunsOut(states: seq<Packet>, free: seq<Packet>)
    requires Disciplined(states, free)
    ensures free == [] <==> |states| >= 8
    ensures states == [] ==> |free| == 8
  {
  }

  /** The pool has eight nodes: those free and those on the stack. */
  lemma PoolConserved(states: seq<Packet>, free: seq<Packet>)
    requires Disciplined(states, free) && Distinct(states) && Distinct(free)
    requires forall p :: p in states ==> p !in free
    ensures |PoolOf(states, free)| == 8
  {
    var used, idle := set p | p in states && p.pooled, set p | p in free;
    SetSize(free);
    var low := if |states| <= 8 then 0 else |states| - 8;
    assert used == set p | p in states[low..];
    SetSize(states[low..]);
    assert used !! idle;
  }

  lemma {:induction false} SetSize(nodes: seq<Packet>)
    requires Distinct(nodes)
    ensures |set p | p in nodes| == |nodes|
  {
    if nodes == [] {
    } else {
      SetSize(nodes[1..]);
      assert nodes[0] !in nodes[1..];
      assert (set p | p in nodes) == {nodes[0]} + (set p | p in nodes[1..]);
    }
  }

  /** The part of drizzle_st that holds states. */
  class Stack {
    const states: PacketList
    const free: PacketList

    ghost predicate Valid()
      reads this, states, free, states.repr, free.repr
    {
      && states != free
      && states.Valid() && free.Valid()
      && states.repr !! free.repr
      && Disciplined(states.nodes, free.nodes)
      && Ready(states.nodes, states.repr)
    }

    /** The functions on the stack, top first. */
    ghost function Contents(): (r: seq<StateFn>)
      reads this, states, free, states.repr, free.repr
      requires Valid()
      ensures |r| == states.count
    {
      Functions(states.nodes, states.repr)
    }

    /** The eight nodes inside the connection. */
    ghost function Pool(): set<Packet>
      reads this, states, free
    {
      PoolOf(states.nodes, free.nodes)
    }

    constructor ()
      ensures Valid() && Contents() == []
      ensures fresh(states) && fresh(free) && fresh(states.repr) && fresh(free.repr)
    {
      states := new PacketList();
      free := new PacketList();
      new;
      var x := 0;
      while x < 8
        invariant 0 <= x <= 8
        invariant states != free && fresh(states) && fresh(free)
        invariant states.Valid() && states.nodes == [] && states.repr == {}
        invariant free.Valid() && free.count == x && fresh(free.repr)
        invariant forall p :: p in free.nodes ==> p.pooled
      {
        var packet := new Packet(true, None);
        free.Add(packet);
        x := x + 1;
      }
    }

    /** has_state: despite its name it tells that the stack is empty. */
    method HasState() returns (empty: bool)
      requires Valid()
      ensures empty <==> Contents() == []
    {
      empty := states.count == 0;
    }

    /** The function current_state runs. */
    method Current() returns (f: StateFn)
      requires Valid() && Contents() != []
      ensures f == Contents()[0]
    {
      f := states.list.func.value;
    }

    /** push_state takes a pool node while there is one: up to a depth of eight. */
    method PushState(f: StateFn)
      requires Valid()
      modifies states, free, states.repr, free.repr
      ensures Valid() && Contents() == Apply(old(Contents()), Push(f))
      ensures Pool() == old(Pool())
      ensures states.nodes != [] && states.nodes[1..] == old(states.nodes)
      ensures if old(states.count) < 8 then states.nodes[0] in old(Pool()) else fresh(states.nodes[0])
      ensures free.repr <= old(free.repr) && fresh(states.repr - old(states.repr) - old(free.repr))
    {
      hide Disciplined, PoolOf, Linked, Functions, Ready;
      ghost var stacked, unused := states.nodes, free.nodes;
      PoolRunsOut(stacked, unused);
      var tmp;
      if free.count != 0 {
        MoveToStack(stacked, unused);
        tmp := TakeFree(f);
      } else {
        tmp := new Packet(false, Some(f));
        HeapOnTop(stacked, unused, tmp);
      }
      PutOnTop(tmp, f);
    }

    /** A free node, with its function. */
    method TakeFree(f: StateFn) returns (tmp: Packet)
      requires Valid() && free.count != 0
      modifies free, free.repr
      ensures tmp == old(free.nodes)[0] && tmp.func == Some(f)
      ensures states.Valid() && free.Valid() && free.nodes == old(free.nodes)[1..] && free.repr == old(free.repr) - {tmp}
      ensures Ready(states.nodes, states.repr) && Functions(states.nodes, states.repr) == old(Contents())
      ensures tmp in old(free.repr)
    {
      hide Disciplined, PoolOf, Linked, Functions, Ready;
      tmp := free.list;
      MembersLinked(free.nodes, free.repr);
      free.Del(tmp, 0);
      tmp.func := Some(f);
    }

    /** A node with a function goes on top. */
    method PutOnTop(tmp: Packet, f: StateFn)
      requires states != free && states.Valid() && free.Valid() && states.repr !! free.repr
      requires tmp !in states.repr && tmp !in free.repr && tmp.func == Some(f)
      requires Ready(states.nodes, states.repr) && Disciplined([tmp] + states.nodes, free.nodes)
      modifies states, tmp`next, tmp`prev, states.repr`prev
      ensures Valid() && Contents() == [f] + old(Functions(states.nodes, states.repr))
      ensures states.nodes == [tmp] + old(states.nodes) && states.repr == old(states.repr) + {tmp}
    {
      hide Disciplined, Linked;
      ghost var stacked := states.nodes;
      states.Add(tmp);
      assert states.nodes[1..] == stacked;
    }

    /** pop_state gives a pool node back and frees any other; on an empty stack
        it does nothing. */
    method PopState()
      requires Valid()
      modifies states, free, states.repr, free.repr
      ensures Valid() && Contents() == Apply(old(Contents()), Pop)
      ensures Pool() == old(Pool())
      ensures states.nodes == if old(states.nodes) == [] then [] else old(states.nodes)[1..]
      ensures states.repr <= old(states.repr) && free.repr <= old(states.repr + free.repr)
    {
      hide Disciplined, PoolOf, Linked, Distinct, Functions, Ready;
      if states.list != null {
        MoveFromStack(states.nodes, free.nodes);
        var tmp := TakeTop();
        if tmp.pooled {
          GiveBack(tmp);
        }
      }
    }

    /** The node on top is taken off. */
    method TakeTop() returns (tmp: Packet)
      requires Valid() && states.list != null
      modifies states, states.repr`next, states.repr`prev
      ensures states.Valid() && free.Valid() && states.nodes == old(states.nodes)[1..] && tmp == old(states.nodes)[0]
      ensures states.repr == old(states.repr) - {tmp} && tmp in old(states.repr)
      ensures Ready(states.nodes, states.repr) && Functions(states.nodes, states.repr) == old(Contents())[1..]
    {
      hide Disciplined, PoolOf, Linked, Distinct, Functions, Ready;
      ghost var stacked, mine := states.nodes, states.repr;
      tmp := states.list;
      MembersLinked(stacked, mine);
      states.Del(tmp, 0);
      assert states.nodes == stacked[1..];
      MembersLinked(states.nodes, states.repr);
      Uncovered(stacked, mine, states.repr);
    }

    /** A pool node is free again. */
    method GiveBack(tmp: Packet)
      requires states != free && states.Valid() && free.Valid() && states.repr !! free.repr
      requires tmp !in states.repr && tmp !in free.repr && Ready(states.nodes, states.repr)
      modifies free, tmp, free.repr`prev
      ensures states.Valid() && free.Valid() && free.nodes == [tmp] + old(free.nodes) && free.repr == old(free.repr) + {tmp}
      ensures Ready(states.nodes, states.repr) && tmp.func == None
      ensures Functions(states.nodes, states.repr) == old(Functions(states.nodes, states.repr))
    {
      hide Linked, Functions, Ready;
      tmp.func := None;
      free.Add(tmp);
    }

    /** clear_state. */
    method ClearState()
      requires Valid()
      modifies states, free, states.repr, free.repr
      ensures Valid() && Contents() == [] && free.count == 8
      ensures Pool() == old(Pool())
      ensures states.repr <= old(states.repr) && free.repr <= old(states.repr + free.repr)
    {
      hide Disciplined, PoolOf, Linked;
      while states.list != null
        invariant Valid() && Pool() == old(Pool())
        invariant states.repr <= old(states.repr) && free.repr <= old(states.repr + free.repr)
        decreases states.count
      {
        PopState();
      }
      PoolRunsOut(states.nodes, free.nodes);
    }

    /** Every sequence of operations leaves the stack of functions a LIFO
        sequence, and never loses or gains a pool node. */
    method Run(ops: seq<Op>)
      requires Valid()
      modifies states, free, states.repr, free.repr
      ensures Valid() && Contents() == ApplyAll(old(Contents()), ops)
      ensures Pool() == old(Pool()) && |Pool()| == 8
    {
      hide Disciplined, PoolOf, Linked, Functions, Ready, Distinct;
      ghost var mine := states.repr + free.repr;
      var i := 0;
      while i < |ops|
        invariant 0 <= i <= |ops|
        invariant Valid() && Contents() == ApplyAll(old(Contents()), ops[..i])
        invariant Pool() == old(Pool())
        invariant fresh(states.repr + free.repr - mine)
      {
        assert ops[..i + 1][..i] == ops[..i];
        match ops[i] {
          case Push(f) => PushState(f);
          case Pop => PopState();
          case Clear => ClearState();
        }
        i := i + 1;
      }
      assert ops[..i] == ops;
      MembersLinked(states.nodes, states.repr);
      MembersLinked(free.nodes, free.repr);
      PoolConserved(states.nodes, free.nodes);
    }
  }

  lemma MembersLinked(nodes: seq<Packet>, repr: set<Packet>)
    requires Linked(nodes, repr)
    ensures Distinct(nodes) && (forall p :: p in nodes ==> p in repr)
  {
  }
}
