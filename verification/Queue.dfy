/** The doubly linked queue of src/octopus/common/queue.go.

    A value is optional because the queue stores interface values and nil is one of them. Locks,
    condition variables and the Next cursor are not part of this model. */
module Queues {

  import opened Bytes

  // ----- what the operations do to the sequence of stored values -----

  /** s without the first element that equals v. */
  function Without<T(==)>(s: seq<T>, v: T): (r: seq<T>)
    ensures v !in s ==> r == s
    ensures |r| == if v in s then |s| - 1 else |s|
  {
    if |s| == 0 then s else if s[0] == v then s[1..] else [s[0]] + Without(s[1..], v)
  }

  lemma {:induction false} WithoutContents<T>(s: seq<T>, v: T)
    requires v in s
    ensures multiset(Without(s, v)) + multiset{v} == multiset(s)
  {
    assert s == [s[0]] + s[1..];
    if s[0] != v { WithoutContents(s[1..], v); }
  }

  lemma {:induction false} WithoutAt<T>(s: seq<T>, k: nat)
    requires k < |s| && s[k] !in s[..k]
    ensures Without(s, s[k]) == s[..k] + s[k + 1..]
  {
    if k > 0 {
      assert s[0] == s[..k][0];
      assert s[1..][..k - 1] == s[..k][1..];
      WithoutAt(s[1..], k - 1);
      assert s[..k] + s[k + 1..] == [s[0]] + (s[1..][..k - 1] + s[1..][k..]);
    }
  }

  /** v is at place k of s and not before. */
  ghost predicate FirstAt<T>(s: seq<T>, v: T, k: nat) {
    k < |s| && s[k] == v && v !in s[..k]
  }

  /** s without the first occurrence of each of the values vs. */
  function WithoutEach<T(==)>(s: seq<T>, vs: set<T>): (r: seq<T>) {
    if |s| == 0 then s
    else if s[0] in vs then WithoutEach(s[1..], vs - {s[0]})
    else [s[0]] + WithoutEach(s[1..], vs)
  }

  lemma {:induction false} WithoutNone<T>(s: seq<T>)
    ensures WithoutEach(s, {}) == s
  {
    if |s| > 0 { WithoutNone(s[1..]); }
  }

  /** Removing values one at a time comes to the same whichever is removed first. */
  lemma {:induction false} WithoutOneFirst<T>(s: seq<T>, v: T, vs: set<T>)
    requires v in vs
    ensures WithoutEach(Without(s, v), vs - {v}) == WithoutEach(s, vs)
  {
    if |s| == 0 {
    } else if s[0] == v {
    } else if s[0] in vs {
      var r := Without(s, v);
      assert r[0] == s[0] && r[1..] == Without(s[1..], v);
      assert vs - {v} - {s[0]} == vs - {s[0]} - {v};
      WithoutOneFirst(s[1..], v, vs - {s[0]});
    } else {
      var r := Without(s, v);
      assert r[0] == s[0] && r[1..] == Without(s[1..], v);
      WithoutOneFirst(s[1..], v, vs);
    }
  }

  /** The elements of s outside vs, in their order. */
  function Outside<T(==, !new)>(s: seq<T>, vs: set<T>): (r: seq<T>)
    ensures forall x :: x in r <==> x in s && x !in vs
  {
    if |s| == 0 then s
    else if s[0] in vs then Outside(s[1..], vs)
    else [s[0]] + Outside(s[1..], vs)
  }

  ghost predicate Distinct<T>(s: seq<T>) {
    forall i, j :: 0 <= i < j < |s| ==> s[i] != s[j]
  }

  /** In a queue without duplicates, removing first occurrences removes the values. */
  lemma {:induction false} WithoutEachOfDistinct<T(!new)>(s: seq<T>, vs: set<T>)
    requires Distinct(s)
    ensures WithoutEach(s, vs) == Outside(s, vs)
    ensures Distinct(Outside(s, vs))
  {
    if |s| > 0 {
      var rest := s[1..];
      assert s[0] !in rest;
      WithoutEachOfDistinct(rest, vs);
      WithoutEachOfDistinct(rest, vs - {s[0]});
      OutsideIgnores(rest, vs, s[0]);
    }
  }

  lemma {:induction false} OutsideIgnores<T(!new)>(s: seq<T>, vs: set<T>, v: T)
    requires v !in s
    ensures Outside(s, vs - {v}) == Outside(s, vs)
  {
    if |s| > 0 { OutsideIgnores(s[1..], vs, v); }
  }

  // ----- runs -----

  datatype Op<V> = Put(v: Option<V>) | Poll | Remove(v: Option<V>) | Contains(v: Option<V>)

  /** What an operation that found room answers. */
  datatype Reply<V> = Done | Item(item: Option<V>) | Answer(yes: bool)

  /** The values stored after op. */
  function After<V(==)>(s: seq<Option<V>>, op: Op<V>): seq<Option<V>> {
    match op
    case Put(v) => s + [v]
    case Poll => if |s| == 0 then s else s[1..]
    case Remove(v) => if v.None? then s else Without(s, v)
    case Contains(_) => s
  }

  function Replied<V(==)>(s: seq<Option<V>>, op: Op<V>): Reply<V> {
    match op
    case Put(_) => Done
    case Poll => Item(if |s| == 0 then None else s[0])
    case Remove(v) => Answer(v.Some? && v in s)
    case Contains(v) => Answer(v.Some? && v in s)
  }

  function AfterAll<V(==)>(s: seq<Option<V>>, ops: seq<Op<V>>): seq<Option<V>>
    decreases |ops|
  {
    if |ops| == 0 then s else AfterAll(After(s, ops[0]), ops[1..])
  }

  /** The values put by a run, in order. */
  function PutBy<V>(ops: seq<Op<V>>): seq<Option<V>> {
    if |ops| == 0 then []
    else (if ops[0].Put? then [ops[0].v] else []) + PutBy(ops[1..])
  }

  function Polled<V(==)>(s: seq<Option<V>>, op: Op<V>): seq<Option<V>> {
    if op.Poll? && |s| > 0 then [s[0]] else []
  }

  function Removed<V(==)>(s: seq<Option<V>>, op: Op<V>): multiset<Option<V>> {
    if op.Remove? && op.v.Some? && op.v in s then multiset{op.v} else multiset{}
  }

  /** The values that polls of a run take out, in order. */
  function PolledBy<V(==)>(s: seq<Option<V>>, ops: seq<Op<V>>): seq<Option<V>>
    decreases |ops|
  {
    if |ops| == 0 then []
    else Polled(s, ops[0]) + PolledBy(After(s, ops[0]), ops[1..])
  }

  /** The values that removals of a run take out. */
  function RemovedBy<V(==)>(s: seq<Option<V>>, ops: seq<Op<V>>): multiset<Option<V>>
    decreases |ops|
  {
    if |ops| == 0 then multiset{}
    else Removed(s, ops[0]) + RemovedBy(After(s, ops[0]), ops[1..])
  }

  /** First in, first out: over any run without removals the polled values followed by those still
      stored are those stored at first followed by those put. */
  lemma {:induction false} FirstInFirstOut<V>(s: seq<Option<V>>, ops: seq<Op<V>>)
    requires forall i :: 0 <= i < |ops| ==> !ops[i].Remove?
    ensures PolledBy(s, ops) + AfterAll(s, ops) == s + PutBy(ops)
    decreases |ops|
  {
    hide After, Polled;
    if |ops| > 0 {
      var op, t := ops[0], After(s, ops[0]);
      FirstInFirstOut(t, ops[1..]);
      assert PolledBy(s, ops) == Polled(s, op) + PolledBy(t, ops[1..]);
      StepKeepsOrder(s, op);
      Reassociate(Polled(s, op), PolledBy(t, ops[1..]), AfterAll(t, ops[1..]), t,
                  s, if op.Put? then [op.v] else [], PutBy(ops[1..]));
    }
  }

  lemma Reassociate<T>(a: seq<T>, b: seq<T>, c: seq<T>, t: seq<T>, s: seq<T>, x: seq<T>, y: seq<T>)
    requires b + c == t + y && a + t == s + x
    ensures (a + b) + c == s + (x + y)
  {
    assert (a + b) + c == a + (b + c);
    assert a + (t + y) == (a + t) + y;
    assert (s + x) + y == s + (x + y);
  }

  lemma StepKeepsOrder<V>(s: seq<Option<V>>, op: Op<V>)
    requires !op.Remove?
    ensures Polled(s, op) + After(s, op) == s + if op.Put? then [op.v] else []
  {
  }

  /** Over any run no value is lost or made: every copy of v that is stored at first or put leaves
      by one poll or by one removal, or is still stored. */
  lemma {:induction false} Conservation<V>(s: seq<Option<V>>, ops: seq<Op<V>>, v: Option<V>)
    ensures multiset(PolledBy(s, ops))[v] + RemovedBy(s, ops)[v] + multiset(AfterAll(s, ops))[v]
         == multiset(s)[v] + multiset(PutBy(ops))[v]
    decreases |ops|
  {
    hide After, Polled, Removed;
    if |ops| > 0 {
      var op, t := ops[0], After(s, ops[0]);
      Conservation(t, ops[1..], v);
      StepConserves(s, op, v);
      assert PolledBy(s, ops) == Polled(s, op) + PolledBy(t, ops[1..]);
      assert PutBy(ops) == (if op.Put? then [op.v] else []) + PutBy(ops[1..]);
    }
  }

  lemma StepConserves<V>(s: seq<Option<V>>, op: Op<V>, v: Option<V>)
    ensures multiset(Polled(s, op))[v] + Removed(s, op)[v] + multiset(After(s, op))[v]
         == multiset(s)[v] + multiset(if op.Put? then [op.v] else [])[v]
  {
    match op {
      case Put(_) =>
      case Poll => if |s| > 0 { assert s == [s[0]] + s[1..]; }
      case Remove(x) => if x.Some? && x in s { WithoutContents(s, x); }
      case Contains(_) =>
    }
  }

  // ----- the linked structure -----

  class Node<V> {
    var prev: Node?<V>
    var next: Node?<V>
    var value: Option<V>

    constructor ()
      ensures prev == null && next == null && value == None
    {
      prev, next, value := null, null, None;
    }
  }

  ghost function At<V>(ns: seq<Node<V>>, i: int): Node?<V> {
    if 0 <= i < |ns| then ns[i] else null
  }

  /** Node i of ns is linked to its neighbours in ns and holds value i of vs. */
  ghost predicate Linked<V>(ns: seq<Node<V>>, vs: seq<Option<V>>, i: int)
    requires 0 <= i < |ns| == |vs|
    reads ns
  {
    ns[i].prev == At(ns, i - 1) && ns[i].next == At(ns, i + 1) && ns[i].value == vs[i]
  }

  lemma DistinctPair<T>(s: seq<T>, i: nat, j: nat)
    requires Distinct(s) && i < |s| && j < |s|
    ensures s[i] == s[j] ==> i == j
  {
  }

  lemma DistinctAppend<T>(s: seq<T>, x: T)
    requires Distinct(s) && x !in s
    ensures Distinct(s + [x])
  {
  }

  lemma DistinctCut<T>(s: seq<T>, k: nat)
    requires Distinct(s) && k < |s|
    ensures Distinct(s[..k] + s[k + 1..])
    ensures Distinct(s[..k]) && Distinct(s[k + 1..])
  {
  }

  class Queue<V(==, !new)> {
    var head: Node?<V>
    var tail: Node?<V>
    var count: u64
    const capacity: u64 := 0xFFFF_FFFF_FFFF_FFFF

    /** The linked nodes and their values, from head to tail. */
    ghost var nodes: seq<Node<V>>
    ghost var contents: seq<Option<V>>

    ghost predicate Valid()
      reads this, nodes
    {
      && |contents| == |nodes| == count
      && Distinct(nodes)
      && head == At(nodes, 0)
      && tail == At(nodes, |nodes| - 1)
      && forall i {:trigger Linked(nodes, contents, i)} :: 0 <= i < |nodes| ==> Linked(nodes, contents, i)
    }

    ghost function Owned(): set<Node<V>>
      reads this
    {
      set n | n in nodes
    }

    constructor ()
      ensures Valid() && contents == [] && nodes == []
    {
      count, head, tail := 0, null, null;
      nodes, contents := [], [];
    }

    /** One attempt to append: the code waits and tries again when the queue is full. */
    method Put(v: Option<V>) returns (ok: bool)
      requires Valid()
      modifies this, Owned()
      ensures Valid()
      ensures ok == (|old(contents)| < capacity)
      ensures if ok then |nodes| > 0 && fresh(nodes[|nodes| - 1]) && nodes[..|nodes| - 1] == old(nodes)
              else nodes == old(nodes)
      ensures contents == if ok then old(contents) + [v] else old(contents)
      ensures ok ==> contents == After(old(contents), Op.Put(v)) && Done == Replied(old(contents), Op.Put(v))
    {
      var node := new Node();
      node.value := v;
      ok := LinkLast(node);
    }

    method LinkLast(node: Node<V>) returns (ok: bool)
      requires Valid() && node !in nodes && node.next == null
      modifies this, Owned(), node
      ensures Valid()
      ensures ok == (|old(contents)| < capacity)
      ensures nodes == if ok then old(nodes) + [node] else old(nodes)
      ensures contents == if ok then old(contents) + [old(node.value)] else old(contents)
    {
      hide Distinct;
      if count >= capacity { return false; }
      ghost var ns, vs := nodes, contents;
      ghost var last := |ns| - 1;
      var l := tail;
      node.prev := l;
      tail := node;
      if head == null {
        head := node;
      } else {
        assert Linked(ns, vs, last);
        l.next := node;
      }
      count := count + 1;
      nodes, contents := ns + [node], vs + [node.value];
      DistinctAppend(ns, node);
      forall i | 0 <= i < |nodes| ensures Linked(nodes, contents, i) {
        if i <= last {
          assert old(Linked(ns, vs, i));
          DistinctPair(ns, i, last);
        }
      }
      return true;
    }

    method Poll() returns (v: Option<V>)
      requires Valid()
      modifies this, Owned()
      ensures Valid() && Owned() <= old(Owned())
      ensures v == if |old(contents)| == 0 then None else old(contents)[0]
      ensures contents == if |old(contents)| == 0 then [] else old(contents)[1..]
      ensures Item(v) == Replied(old(contents), Op.Poll)
      ensures contents == After(old(contents), Op.Poll)
    {
      v := UnlinkFirst();
    }

    method UnlinkFirst() returns (v: Option<V>)
      requires Valid()
      modifies this, Owned()
      ensures Valid()
      ensures nodes == if |old(nodes)| == 0 then [] else old(nodes)[1..]
      ensures contents == if |old(contents)| == 0 then [] else old(contents)[1..]
      ensures v == if |old(contents)| == 0 then None else old(contents)[0]
    {
      hide Distinct;
      var f := head;
      if f == null { return None; }
      ghost var ns, vs := nodes, contents;
      assert Linked(ns, vs, 0);
      var n := f.next;
      var item := f.value;
      f.value := None;
      f.next := f;
      head := n;
      if n == null {
        tail := null;
      } else {
        assert n == ns[1];
        n.prev := null;
      }
      count := count - 1;
      nodes, contents := ns[1..], vs[1..];
      DistinctCut(ns, 0);
      forall i | 0 <= i < |nodes| ensures Linked(nodes, contents, i) {
        assert old(Linked(ns, vs, i + 1));
        DistinctPair(ns, i + 1, 0);
        DistinctPair(ns, i + 1, 1);
        assert At(nodes, i + 1) == At(ns, i + 2);
      }
      return item;
    }

    method UnlinkLast() returns (v: Option<V>)
      requires Valid()
      modifies this, Owned()
      ensures Valid()
      ensures nodes == if |old(nodes)| == 0 then [] else old(nodes)[..|old(nodes)| - 1]
      ensures contents == if |old(contents)| == 0 then [] else old(contents)[..|old(contents)| - 1]
      ensures v == if |old(contents)| == 0 then None else old(contents)[|old(contents)| - 1]
    {
      hide Distinct;
      var l := tail;
      if l == null { return None; }
      ghost var ns, vs := nodes, contents;
      ghost var last := |ns| - 1;
      assert Linked(ns, vs, last);
      var p := l.prev;
      var item := l.value;
      l.value := None;
      l.prev := l;
      tail := p;
      if p == null {
        head := null;
      } else {
        assert p == ns[last - 1];
        p.next := null;
      }
      count := count - 1;
      nodes, contents := ns[..last], vs[..last];
      DistinctCut(ns, last);
      forall i | 0 <= i < |nodes| ensures Linked(nodes, contents, i) {
        assert old(Linked(ns, vs, i));
        DistinctPair(ns, i, last);
        DistinctPair(ns, i, last - 1);
      }
      return item;
    }

    /** Takes the node x at place k out of the list, whether it is first, last, alone or in between. */
    method Unlink(x: Node<V>, ghost k: nat)
      requires Valid() && k < |nodes| && nodes[k] == x
      modifies this, Owned()
      ensures Valid()
      ensures nodes == old(nodes)[..k] + old(nodes)[k + 1..]
      ensures contents == old(contents)[..k] + old(contents)[k + 1..]
    {
      hide Distinct;
      assert Linked(nodes, contents, k);
      var p := x.prev;
      var n := x.next;
      if p == null {
        var _ := UnlinkFirst();
      } else if n == null {
        var _ := UnlinkLast();
      } else {
        UnlinkMiddle(x, k, p, n);
      }
    }

    method UnlinkMiddle(x: Node<V>, ghost k: nat, p: Node<V>, n: Node<V>)
      requires Valid() && 0 < k < |nodes| - 1
      requires nodes[k] == x && nodes[k - 1] == p && nodes[k + 1] == n
      modifies this, Owned()
      ensures Valid()
      ensures nodes == old(nodes)[..k] + old(nodes)[k + 1..]
      ensures contents == old(contents)[..k] + old(contents)[k + 1..]
    {
      hide Distinct;
      ghost var ns, vs := nodes, contents;
      p.next := n;
      n.prev := p;
      x.value := None;
      count := count - 1;
      nodes, contents := ns[..k] + ns[k + 1..], vs[..k] + vs[k + 1..];
      DistinctCut(ns, k);
      forall i | 0 <= i < |nodes| ensures Linked(nodes, contents, i) {
        var j := if i < k then i else i + 1;
        assert old(Linked(ns, vs, j));
        DistinctPair(ns, j, k);
        DistinctPair(ns, j, k - 1);
        DistinctPair(ns, j, k + 1);
      }
    }

    method Remove(v: Option<V>) returns (ok: bool)
      requires Valid()
      modifies this, Owned()
      ensures Valid() && Owned() <= old(Owned())
      ensures ok <==> v.Some? && v in old(contents)
      ensures ok ==> exists k: nat :: FirstAt(old(contents), v, k) && contents == old(contents)[..k] + old(contents)[k + 1..]
      ensures !ok ==> contents == old(contents)
      ensures Answer(ok) == Replied(old(contents), Op.Remove(v))
      ensures contents == After(old(contents), Op.Remove(v))
    {
      hide Distinct;
      if v == None { return false; }
      var p := head;
      ghost var k := 0;
      while p != null
        invariant 0 <= k <= |nodes| && p == At(nodes, k)
        invariant v !in contents[..k]
        decreases |nodes| - k
      {
        assert Linked(nodes, contents, k);
        if v == p.value {
          WithoutAt(contents, k);
          assert FirstAt(contents, v, k);
          Unlink(p, k);
          return true;
        }
        p := p.next;
        k := k + 1;
      }
      return false;
    }

    method Contains(o: Option<V>) returns (yes: bool)
      requires Valid()
      ensures yes <==> o.Some? && o in contents
      ensures Answer(yes) == Replied(contents, Op.Contains(o))
    {
      hide Distinct;
      if o == None { return false; }
      var p := head;
      ghost var k := 0;
      while p != null
        invariant 0 <= k <= |nodes| && p == At(nodes, k)
        invariant o !in contents[..k]
        decreases |nodes| - k
      {
        assert Linked(nodes, contents, k);
        if o == p.value { return true; }
        p := p.next;
        k := k + 1;
      }
      return false;
    }

    method Size() returns (n: u64)
      requires Valid()
      ensures n == |contents|
    {
      n := count;
    }

    /** Removes, in the unspecified order of a map iteration, each stored value that staff lacks. */
    method Retrain(staff: seq<Option<V>>)
      requires Valid()
      modifies this, Owned()
      ensures Valid() && Owned() <= old(Owned())
      ensures contents == WithoutEach(old(contents), Stale(old(contents), staff))
    {
      hide Distinct, Valid;
      var stored := StoredValues();
      var total := DropStaff(stored, staff);
      assert total.Keys - {None} == Stale(contents, staff);
      RemoveKeys(total);
    }

    method StoredValues() returns (total: map<Option<V>, int>)
      requires Valid()
      ensures forall x :: x in total <==> x in contents
    {
      hide Distinct;
      total := map[];
      var p := head;
      ghost var k := 0;
      while p != null
        invariant 0 <= k <= |nodes| && p == At(nodes, k)
        invariant forall x :: x in total <==> x in contents[..k]
        decreases |nodes| - k
      {
        assert Linked(nodes, contents, k);
        assert contents[..k + 1] == contents[..k] + [contents[k]];
        total := total[p.value := 1];
        p := p.next;
        k := k + 1;
      }
      assert contents[..k] == contents;
    }

    static method DropStaff(stored: map<Option<V>, int>, staff: seq<Option<V>>)
      returns (total: map<Option<V>, int>)
      ensures forall x :: x in total <==> x in stored && x !in staff
    {
      total := stored;
      for i := 0 to |staff|
        invariant forall x :: x in total <==> x in stored && x !in staff[..i]
      {
        assert staff[..i + 1] == staff[..i] + [staff[i]];
        if staff[i] in total { total := total - {staff[i]}; }
      }
      assert staff[..|staff|] == staff;
    }

    method RemoveKeys(keys: map<Option<V>, int>)
      requires Valid()
      modifies this, Owned()
      ensures Valid() && Owned() <= old(Owned())
      ensures contents == WithoutEach(old(contents), keys.Keys - {None})
    {
      hide Distinct, Valid;
      var total := keys;
      ghost var goal := WithoutEach(contents, keys.Keys - {None});
      while |total| > 0
        invariant Valid() && Owned() <= old(Owned())
        invariant WithoutEach(contents, total.Keys - {None}) == goal
        decreases |total|
      {
        var k :| k in total;
        ghost var due := total.Keys - {None};
        if k.Some? {
          WithoutOneFirst(contents, k, due);
        } else {
          assert due - {k} == due;
        }
        var _ := Remove(k);
        total := total - {k};
        assert total.Keys - {None} == due - {k};
      }
      assert total.Keys - {None} == {};
      WithoutNone(contents);
    }
  }

  /** The values that a refresh against staff has to remove; Remove ignores nil. */
  ghost function Stale<V(!new)>(s: seq<Option<V>>, staff: seq<Option<V>>): (r: set<Option<V>>)
    ensures forall x :: x in r <==> x.Some? && x in s && x !in staff
  {
    set x | x in s && x !in staff && x.Some?
  }
}
