/** A ring buffer in an array, and iterators that walk it in both directions. */
module RingBuffers {

  /* ---------- Bounded queues ---------- */

  /** What a ring buffer stands for: items, oldest first, and what becomes of a new one when there is no room. */
  datatype Queue<T> = Queue(items: seq<T>, override: bool)

  datatype Command<T> = Put(item: T) | Get | Clear | OverrideIfFull(state: bool)

  function AfterPut<T>(items: seq<T>, override: bool, capacity: nat, item: T): seq<T>
    requires 0 < capacity
  {
    if |items| < capacity then items + [item]
    else if override then items[1..] + [item]
    else items
  }

  function Step<T>(q: Queue<T>, capacity: nat, c: Command<T>): Queue<T>
    requires 0 < capacity
  {
    match c
    case Put(item) => q.(items := AfterPut(q.items, q.override, capacity, item))
    case Get => q.(items := if q.items == [] then [] else q.items[1..])
    case Clear => q.(items := [])
    case OverrideIfFull(state) => q.(override := state)
  }

  /** What a command hands out: the oldest item, or a default if there is none. */
  function Output<T>(q: Queue<T>, nothing: T, c: Command<T>): seq<T> {
    if c.Get? then [if q.items == [] then nothing else q.items[0]] else []
  }

  function Steps<T>(q: Queue<T>, capacity: nat, commands: seq<Command<T>>): Queue<T>
    requires 0 < capacity
    decreases |commands|
  {
    if commands == [] then q else Steps(Step(q, capacity, commands[0]), capacity, commands[1..])
  }

  function Outputs<T>(q: Queue<T>, capacity: nat, nothing: T, commands: seq<Command<T>>): seq<T>
    requires 0 < capacity
    decreases |commands|
  {
    if commands == [] then []
    else Output(q, nothing, commands[0]) + Outputs(Step(q, capacity, commands[0]), capacity, nothing, commands[1..])
  }

  /** A queue with room for everything that is put into it gives it all back, in order. */
  lemma {:induction false} FirstInFirstOut<T>(items: seq<T>, q: Queue<T>, capacity: nat, nothing: T)
    requires |q.items| + |items| <= capacity && 0 < capacity
    ensures Steps(q, capacity, Puts(items)).items == q.items + items
    ensures Outputs(q.(items := q.items + items), capacity, nothing, seq(|q.items| + |items|, _ => Get)) == q.items + items
  {
    if items != [] {
      var more := Step(q, capacity, Put(items[0]));
      assert q.items + items == more.items + items[1..];
      assert Puts(items)[1..] == Puts(items[1..]);
      FirstInFirstOut(items[1..], more, capacity, nothing);
    } else {
      assert q.items + items == q.items;
      GetAll(q, capacity, nothing);
    }
  }

  function Puts<T>(items: seq<T>): seq<Command<T>> {
    seq(|items|, i requires 0 <= i < |items| => Put(items[i]))
  }

  lemma {:induction false} GetAll<T>(q: Queue<T>, capacity: nat, nothing: T)
    requires 0 < capacity
    ensures Outputs(q, capacity, nothing, seq(|q.items|, _ => Get)) == q.items
    decreases |q.items|
  {
    if q.items != [] {
      var less := q.(items := q.items[1..]);
      var gets: seq<Command<T>> := seq(|q.items|, _ => Get);
      assert gets[0] == Get && gets[1..] == seq(|less.items|, _ => Get);
      GetAll(less, capacity, nothing);
      assert q.items == [q.items[0]] + less.items;
    }
  }

  /** The last items of a sequence, as many as there is room for. */
  function Latest<T>(all: seq<T>, capacity: nat): seq<T> {
    if |all| <= capacity then all else all[|all| - capacity..]
  }

  /** A full queue that overrides keeps the latest items. */
  lemma {:induction false} LatestAreKept<T>(items: seq<T>, q: Queue<T>, capacity: nat)
    requires 0 < capacity && |q.items| <= capacity && q.override
    ensures Steps(q, capacity, Puts(items)).items == Latest(q.items + items, capacity)
    decreases |items|
  {
    hide Latest, AfterPut;
    if items != [] {
      var more := Step(q, capacity, Put(items[0]));
      assert Puts(items)[1..] == Puts(items[1..]);
      LatestOfMore(q.items, items, capacity);
      LatestAreKept(items[1..], more, capacity);
    } else {
      LatestOfFew(q.items, capacity);
      assert q.items + items == q.items;
    }
  }

  lemma LatestOfFew<T>(held: seq<T>, capacity: nat)
    requires |held| <= capacity
    ensures Latest(held, capacity) == held
  {
  }

  lemma LatestOfMore<T>(held: seq<T>, items: seq<T>, capacity: nat)
    requires 0 < capacity && |held| <= capacity && items != []
    ensures var next := AfterPut(held, true, capacity, items[0]);
            |next| <= capacity && Latest(next + items[1..], capacity) == Latest(held + items, capacity)
  {
    hide Latest;
    var all, rest := held + items, AfterPut(held, true, capacity, items[0]) + items[1..];
    assert items == [items[0]] + items[1..];
    if |held| < capacity {
      assert rest == all;
    } else {
      assert rest == all[1..];
      LatestOfTail(all, capacity);
    }
  }

  lemma LatestOfTail<T>(all: seq<T>, capacity: nat)
    requires |all| > capacity
    ensures Latest(all[1..], capacity) == Latest(all, capacity)
  {
  }

  /* ---------- The buffer ---------- */

  /** The items between a tail and a head; a tail behind the data means that there are none. */
  function Between<T>(data: seq<T>, tail: nat, head: nat): (items: seq<T>)
    requires head < |data| && tail <= |data|
    ensures |items| <= |data|
    ensures |items| == |data| <==> head == tail
    ensures |items| == 0 <==> tail == |data|
  {
    if tail == |data| then []
    else if tail < head then data[tail..head]
    else data[tail..] + data[..head]
  }

  /** The place after another one. */
  function After(place: nat, capacity: nat): (r: nat)
    requires place < capacity
    ensures r == if place + 1 == capacity then 0 else place + 1
  {
    (place + 1) % capacity
  }

  lemma FirstRemoved<T>(data: seq<T>, tail: nat, head: nat)
    requires head < |data| && tail < |data|
    ensures var next := After(tail, |data|);
            Between(data, if next == head then |data| else next, head) == Between(data, tail, head)[1..]
    ensures Between(data, tail, head)[0] == data[tail]
  {
    hide After;
    if head < tail && tail + 1 < |data| {
      assert (data[tail..] + data[..head])[1..] == data[tail + 1..] + data[..head];
    }
  }

  lemma OneAppended<T>(data: seq<T>, tail: nat, head: nat, item: T)
    requires head < |data| && tail <= |data| && head != tail
    ensures var start := if tail == |data| then head else tail;
            Between(data[head := item], start, After(head, |data|)) == Between(data, tail, head) + [item]
  {
    hide After;
    var data' := data[head := item];
    assert data'[..head + 1] == data[..head] + [item];
    if tail == |data| {
      assert head + 1 < |data| ==> data'[head..head + 1] == [item];
      assert head + 1 == |data| ==> data'[head..] + data'[..0] == [item];
    } else if tail < head {
      assert data'[tail..head + 1] == data[tail..head] + [item];
    } else {
      assert data'[tail..] == data[tail..];
    }
  }

  class RingBuffer<T> {
    const data: array<T>
    const nothing: T
    var head: nat
    var tail: nat
    var override: bool

    ghost predicate Valid()
      reads this
    {
      head < data.Length && tail <= data.Length
    }

    /** The items, oldest first. */
    ghost function Items(): (items: seq<T>)
      requires Valid()
      reads this, data
    {
      Between(data[..], tail, head)
    }

    ghost function Abstract(): Queue<T>
      requires Valid()
      reads this, data
    {
      Queue(Items(), override)
    }

    constructor (memory: array<T>, nothing: T)
      requires 0 < memory.Length
      modifies memory
      ensures Valid() && data == memory && this.nothing == nothing
      ensures Abstract() == Queue([], false)
      ensures forall i :: 0 <= i < memory.Length ==> memory[i] == nothing
    {
      data, this.nothing := memory, nothing;
      head, tail, override := 0, memory.Length, false;
      new;
      for i := 0 to memory.Length
        invariant forall k :: 0 <= k < i ==> memory[k] == nothing
        invariant head == 0 && tail == memory.Length && !override
      {
        memory[i] := nothing;
      }
    }

    predicate Empty()
      reads this
    {
      tail == data.Length
    }

    predicate Full()
      reads this
    {
      head == tail
    }

    method Size() returns (n: nat)
      requires Valid()
      ensures n == |Items()| <= data.Length
      ensures n == 0 <==> Empty()
      ensures n == data.Length <==> Full()
    {
      if Empty() {
        return 0;
      }
      if tail < head {
        return head - tail;
      }
      return (data.Length - tail) + head;
    }

    method AdvanceTail()
      requires Valid() && !Empty()
      modifies this`tail
      ensures Valid() && Items() == old(Items())[1..]
    {
      hide Between, After;
      FirstRemoved(data[..], tail, head);
      tail := After(tail, data.Length);
      if tail == head {
        tail := data.Length;
      }
    }

    method Get() returns (item: T)
      requires Valid()
      modifies this`tail
      ensures Valid()
      ensures old(Items()) == [] ==> item == nothing && Items() == []
      ensures old(Items()) != [] ==> old(Items()) == [item] + Items()
    {
      if Empty() {
        return nothing;
      }
      item := data[tail];
      FirstRemoved(data[..], tail, head);
      AdvanceTail();
    }

    method Put(item: T)
      requires Valid()
      modifies this`head, this`tail, data
      ensures Valid() && Items() == AfterPut(old(Items()), override, data.Length, item)
    {
      if Full() {
        if override {
          AdvanceTail();
        } else {
          return;
        }
      }
      Append(item);
    }

    /** Put an item where there is room. */
    method Append(item: T)
      requires Valid() && |Items()| < data.Length
      modifies this`head, this`tail, data
      ensures Valid() && Items() == old(Items()) + [item]
    {
      hide Between, After;
      OneAppended(data[..], tail, head, item);
      ghost var before := data[..];
      if Empty() {
        tail := head;
      }
      data[head] := item;
      assert data[..] == before[head := item];
      head := After(head, data.Length);
    }

    method Clear()
      requires Valid()
      modifies this`tail
      ensures Valid() && Items() == []
    {
      tail := data.Length;
    }

    method OverrideIfFull(state: bool)
      requires Valid()
      modifies this`override
      ensures Valid() && override == state && Items() == old(Items())
    {
      override := state;
    }

    method Execute(c: Command<T>) returns (output: seq<T>)
      requires Valid()
      modifies this, data
      ensures Valid() && Abstract() == Step(old(Abstract()), data.Length, c)
      ensures output == Output(old(Abstract()), nothing, c)
    {
      output := [];
      match c {
        case Put(item) => Put(item);
        case Get =>
          var item := Get();
          output := [item];
        case Clear => Clear();
        case OverrideIfFull(state) => OverrideIfFull(state);
      }
    }

    /** Every run of a ring buffer is one of a bounded queue. */
    method Run(commands: seq<Command<T>>) returns (outputs: seq<T>)
      requires Valid()
      modifies this, data
      ensures Valid() && Abstract() == Steps(old(Abstract()), data.Length, commands)
      ensures outputs == Outputs(old(Abstract()), data.Length, nothing, commands)
    {
      outputs := [];
      for i := 0 to |commands|
        invariant Valid()
        invariant Steps(Abstract(), data.Length, commands[i..]) == Steps(old(Abstract()), data.Length, commands)
        invariant outputs + Outputs(Abstract(), data.Length, nothing, commands[i..])
               == Outputs(old(Abstract()), data.Length, nothing, commands)
      {
        ghost var q := Abstract();
        var output := Execute(commands[i]);
        assert commands[i..][0] == commands[i] && commands[i..][1..] == commands[i + 1..];
        Regroup(outputs, output, Outputs(Abstract(), data.Length, nothing, commands[i + 1..]));
        outputs := outputs + output;
      }
    }
  }

  lemma Regroup<T>(a: seq<T>, b: seq<T>, c: seq<T>)
    ensures (a + b) + c == a + (b + c)
  {
  }

  /* ---------- Iterators ---------- */

  datatype Mode = OldToNew | NewToOld

  class Iterator {
    var steps: nat
    var index: nat
    const size: nat
    const mode: Mode

    constructor <T>(c: RingBuffer<T>, mode: Mode)
      requires c.Valid()
      ensures size == c.data.Length && this.mode == mode && steps == |c.Items()|
      ensures index == if mode == OldToNew then c.tail else if c.head == 0 then c.data.Length - 1 else c.head - 1
    {
      size, this.mode := c.data.Length, mode;
      index := if mode == OldToNew then c.tail else if c.head == 0 then c.data.Length - 1 else c.head - 1;
      new;
      var n := c.Size();
      steps := n;
    }

    predicate Done()
      reads this
    {
      steps == 0
    }

    method Advance()
      requires 0 < steps && 0 < size
      modifies this
      ensures steps == old(steps) - 1
      ensures index == if mode == OldToNew then (old(index) + 1) % size
                       else if old(index) == 0 then size - 1 else old(index) - 1
    {
      match mode {
        case OldToNew => index := (index + 1) % size;
        case NewToOld => index := if index == 0 then size - 1 else index - 1;
      }
      steps := steps - 1;
    }
  }

  function Reversed<T>(s: seq<T>): (r: seq<T>)
    ensures |r| == |s|
    ensures forall i :: 0 <= i < |s| ==> r[i] == s[|s| - 1 - i]
  {
    if s == [] then [] else Reversed(s[1..]) + [s[0]]
  }

  /** The place of the k-th item behind the tail. */
  function Place(tail: nat, capacity: nat, k: nat): int {
    if tail + k < capacity then tail + k else tail + k - capacity
  }

  /** Where an iterator of the given mode stands that has so many items in front of it. */
  predicate StandsAt(mode: Mode, tail: nat, capacity: nat, n: nat, steps: nat, index: nat) {
    && steps <= n <= capacity && tail <= capacity
    && (0 < steps ==> tail < capacity && index == Place(tail, capacity, if mode == OldToNew then n - steps else steps - 1))
  }

  lemma ItemAt<T>(data: seq<T>, tail: nat, head: nat, k: nat)
    requires head < |data| && tail <= |data| && k < |Between(data, tail, head)|
    ensures 0 <= Place(tail, |data|, k) < |data|
    ensures data[Place(tail, |data|, k)] == Between(data, tail, head)[k]
  {
  }

  lemma NextPlace(tail: nat, capacity: nat, k: nat)
    requires tail < capacity && k + 1 < capacity
    ensures Place(tail, capacity, k + 1) == (Place(tail, capacity, k) + 1) % capacity
    ensures var p := Place(tail, capacity, k + 1);
            Place(tail, capacity, k) == if p == 0 then capacity - 1 else p - 1
  {
    var p := Place(tail, capacity, k);
    assert p + 1 < capacity ==> (p + 1) % capacity == p + 1;
  }

  /** A new iterator stands at the oldest item, or at the newest one in front of the head. */
  lemma FirstStand<T>(mode: Mode, data: seq<T>, tail: nat, head: nat)
    requires head < |data| && tail <= |data|
    ensures var n := |Between(data, tail, head)|;
            StandsAt(mode, tail, |data|, n, n, if mode == OldToNew then tail else if head == 0 then |data| - 1 else head - 1)
  {
  }

  lemma NextStand(mode: Mode, tail: nat, capacity: nat, n: nat, steps: nat, index: nat)
    requires StandsAt(mode, tail, capacity, n, steps, index) && 0 < steps
    ensures 0 < capacity
    ensures StandsAt(mode, tail, capacity, n, steps - 1,
              if mode == OldToNew then (index + 1) % capacity else if index == 0 then capacity - 1 else index - 1)
  {
    hide Place;
    if 1 < steps {
      NextPlace(tail, capacity, if mode == OldToNew then n - steps else steps - 2);
    }
  }

  /** The items in the order in which an iterator of the given mode comes to them. */
  function InOrder<T>(mode: Mode, items: seq<T>): (r: seq<T>)
    ensures |r| == |items|
  {
    if mode == OldToNew then items else Reversed(items)
  }

  lemma ItemInFront<T>(mode: Mode, data: seq<T>, tail: nat, head: nat, steps: nat, index: nat)
    requires head < |data| && tail <= |data|
    requires StandsAt(mode, tail, |data|, |Between(data, tail, head)|, steps, index) && 0 < steps
    ensures var order := InOrder(mode, Between(data, tail, head));
            index < |data| && order[|order| - steps] == data[index]
            && order[..|order| - (steps - 1)] == order[..|order| - steps] + [data[index]]
  {
    hide Between, Place;
    var n := |Between(data, tail, head)|;
    ItemAt(data, tail, head, if mode == OldToNew then n - steps else steps - 1);
  }

  /** Walking a buffer visits its items oldest first, or in exactly the opposite order. */
  method Walk<T>(c: RingBuffer<T>, mode: Mode) returns (visited: seq<T>)
    requires c.Valid()
    ensures visited == if mode == OldToNew then c.Items() else Reversed(c.Items())
  {
    hide Between, Reversed, StandsAt, InOrder;
    ghost var data, tail, head := c.data[..], c.tail, c.head;
    ghost var order := InOrder(mode, Between(data, tail, head));
    OrderIs(mode, Between(data, tail, head));
    var iter := new Iterator(c, mode);
    visited := [];
    FirstStand(mode, data, tail, head);
    while !iter.Done()
      invariant fresh(iter) && iter.mode == mode && iter.size == |data| && iter.steps <= |order|
      invariant StandsAt(mode, tail, |data|, |order|, iter.steps, iter.index)
      invariant visited == order[..|order| - iter.steps]
      decreases iter.steps
    {
      ItemInFront(mode, data, tail, head, iter.steps, iter.index);
      NextStand(mode, tail, |data|, |order|, iter.steps, iter.index);
      visited := visited + [c.data[iter.index]];
      iter.Advance();
    }
    assert order[..|order|] == order;
  }

  lemma OrderIs<T>(mode: Mode, items: seq<T>)
    ensures InOrder(mode, items) == if mode == OldToNew then items else Reversed(items)
  {
  }
}
