/**
 The list of lines that a global command is still to visit.

 `ptr` only moves forward and yields the nodes; `ndx` rotates, so that taking out a run
 of neighbouring nodes does not start its search over each time.
 */
module EdActive {

  datatype Slot<T> = Cleared | Active(node: T)

  function IncMod(l: int, k: int): int {
    if l + 1 > k then 0 else l + 1
  }

  function DecMod(l: int, k: int): int {
    if l - 1 < 0 then k else l - 1
  }

  // The list with the entries of a set of nodes cleared, and no other change.
  ghost function Unset<T>(list: seq<Slot<T>>, xs: set<T>): (r: seq<Slot<T>>)
    ensures |r| == |list|
    ensures forall k :: 0 <= k < |list| ==>
      r[k] == if list[k].Active? && list[k].node in xs then Cleared else list[k]
  {
    if |list| == 0 then []
    else
      var s := list[|list| - 1];
      Unset(list[..|list| - 1], xs) + [if s.Active? && s.node in xs then Cleared else s]
  }

  lemma UnsetTwice<T>(list: seq<Slot<T>>, xs: set<T>, ys: set<T>)
    ensures Unset(Unset(list, xs), ys) == Unset(list, xs + ys)
  {
  }

  // The nodes of the entries from index ptr on.
  ghost function Nodes<T>(list: seq<Slot<T>>, ptr: nat): set<T> {
    set k | ptr <= k < |list| && list[k].Active? :: list[k].node
  }

  lemma NodesUnset<T>(list: seq<Slot<T>>, ptr: nat, xs: set<T>)
    ensures Nodes(Unset(list, xs), ptr) == Nodes(list, ptr) - xs
  {
    var r := Unset(list, xs);
    forall x | x in Nodes(list, ptr) && x !in xs ensures x in Nodes(r, ptr) {
      var k :| ptr <= k < |list| && list[k] == Active(x);
      assert r[k] == Active(x);
    }
  }

  // Entries may only have been cleared.
  ghost predicate Shrunk<T>(list: seq<Slot<T>>, list': seq<Slot<T>>) {
    |list'| == |list| && forall k :: 0 <= k < |list| ==> list'[k] == list[k] || list'[k] == Cleared
  }

  lemma UnsetShrinks<T>(list: seq<Slot<T>>, xs: set<T>)
    ensures Shrunk(list, Unset(list, xs))
  {
  }

  lemma ShrunkSelf<T>(list: seq<Slot<T>>)
    ensures Shrunk(list, list)
  {
  }

  lemma ShrunkTrans<T>(a: seq<Slot<T>>, b: seq<Slot<T>>, c: seq<Slot<T>>)
    requires Shrunk(a, b) && Shrunk(b, c)
    ensures Shrunk(a, c)
  {
  }

  // The nodes of the entries, in order.
  ghost function Queue<T>(list: seq<Slot<T>>): seq<T> {
    if |list| == 0 then []
    else (if list[0].Active? then [list[0].node] else []) + Queue(list[1..])
  }

  // The elements of a sequence that are in a set, in order.
  ghost function Keep<T>(s: seq<T>, xs: set<T>): seq<T> {
    if |s| == 0 then [] else (if s[0] in xs then [s[0]] else []) + Keep(s[1..], xs)
  }

  lemma {:induction false} QueueConcat<T>(a: seq<Slot<T>>, b: seq<Slot<T>>)
    ensures Queue(a + b) == Queue(a) + Queue(b)
  {
    if |a| == 0 {
      assert a + b == b;
    } else {
      assert (a + b)[1..] == a[1..] + b;
      QueueConcat(a[1..], b);
      var head := if a[0].Active? then [a[0].node] else [];
      assert Queue(a) == head + Queue(a[1..]) && Queue(a + b) == head + Queue((a + b)[1..]);
      assert head + (Queue(a[1..]) + Queue(b)) == head + Queue(a[1..]) + Queue(b);
    }
  }

  lemma {:induction false} KeepConcat<T>(a: seq<T>, b: seq<T>, xs: set<T>)
    ensures Keep(a + b, xs) == Keep(a, xs) + Keep(b, xs)
  {
    if |a| == 0 {
      assert a + b == b;
    } else {
      assert (a + b)[1..] == a[1..] + b;
      KeepConcat(a[1..], b, xs);
      var head := if a[0] in xs then [a[0]] else [];
      assert Keep(a, xs) == head + Keep(a[1..], xs) && Keep(a + b, xs) == head + Keep((a + b)[1..], xs);
      assert head + (Keep(a[1..], xs) + Keep(b, xs)) == head + Keep(a[1..], xs) + Keep(b, xs);
    }
  }

  lemma {:induction false} KeepNone<T>(s: seq<T>, xs: set<T>)
    requires forall x :: x in s ==> x !in xs
    ensures Keep(s, xs) == []
  {
    if |s| > 0 {
      KeepNone(s[1..], xs);
    }
  }

  // Only the elements themselves decide.
  lemma {:induction false} KeepAgree<T>(s: seq<T>, xs: set<T>, ys: set<T>)
    requires forall x :: x in s ==> (x in xs <==> x in ys)
    ensures Keep(s, xs) == Keep(s, ys)
  {
    if |s| > 0 {
      KeepAgree(s[1..], xs, ys);
    }
  }

  lemma {:induction false} KeepMember<T>(s: seq<T>, xs: set<T>, x: T)
    ensures x in Keep(s, xs) <==> x in s && x in xs
  {
    if |s| > 0 {
      KeepMember(s[1..], xs, x);
    }
  }

  lemma {:induction false} KeepTwice<T>(s: seq<T>, xs: set<T>, ys: set<T>)
    ensures Keep(Keep(s, xs), ys) == Keep(s, xs * ys)
  {
    if |s| > 0 {
      var head := if s[0] in xs then [s[0]] else [];
      KeepConcat(head, Keep(s[1..], xs), ys);
      KeepTwice(s[1..], xs, ys);
    }
  }

  lemma {:induction false} QueueMember<T>(list: seq<Slot<T>>, x: T)
    ensures x in Queue(list) <==> Active(x) in list
  {
    if |list| > 0 {
      QueueMember(list[1..], x);
    }
  }

  lemma QueueNodes<T>(list: seq<Slot<T>>, ptr: nat, x: T)
    requires ptr <= |list|
    ensures x in Queue(list[ptr..]) <==> x in Nodes(list, ptr)
  {
    QueueMember(list[ptr..], x);
    if Active(x) in list[ptr..] {
      var k :| 0 <= k < |list[ptr..]| && list[ptr..][k] == Active(x);
      assert list[ptr + k] == Active(x);
    }
    if x in Nodes(list, ptr) {
      var k :| ptr <= k < |list| && list[k] == Active(x);
      assert list[ptr..][k - ptr] == Active(x);
    }
  }

  // Clearing entries takes their nodes out and keeps the order of the others.
  lemma {:induction false} QueueUnset<T>(list: seq<Slot<T>>, xs: set<T>, rest: set<T>)
    requires forall x :: Active(x) in list ==> (x in rest <==> x !in xs)
    ensures Queue(Unset(list, xs)) == Keep(Queue(list), rest)
  {
    if |list| > 0 {
      var r := Unset(list, xs);
      assert list[0] in list;
      assert r[1..] == Unset(list[1..], xs);
      QueueUnset(list[1..], xs, rest);
      var head := if list[0].Active? then [list[0].node] else [];
      KeepConcat(head, Queue(list[1..]), rest);
    }
  }

  ghost predicate Once<T>(list: seq<Slot<T>>) {
    forall i, j :: 0 <= i < j < |list| && list[i].Active? ==> list[i] != list[j]
  }

  // n steps of the rotating index, from any start, visit every entry.
  lemma RotationCovers(start: nat, n: nat, m: nat)
    requires start < n && m < n
    ensures exists k :: 0 <= k < n && Rotate(start, k, n) == m
  {
    var k := if m >= start then m - start else m - start + n;
    assert Rotate(start, k, n) == m;
  }

  function Rotate(start: nat, k: nat, n: nat): (r: nat)
    requires start < n && k <= n
    ensures r < n
  {
    if start + k < n then start + k else start + k - n
  }

  class ActiveList<T(==)> {
    var list: seq<Slot<T>>
    var ptr: nat
    var ndx: nat

    ghost predicate Valid()
      reads this
    {
      && ptr <= |list|
      && (ndx < |list| || ndx == |list| == 0)
      && Once(list)
    }

    // The nodes still to be yielded.
    ghost function Pending(): set<T>
      reads this
    {
      Nodes(list, ptr)
    }

    // The same in the order in which they will be yielded.
    ghost function Waiting(): seq<T>
      reads this
      requires ptr <= |list|
    {
      Queue(list[ptr..])
    }

    constructor ()
      ensures Valid() && list == [] && ptr == 0
    {
      list, ptr, ndx := [], 0, 0;
    }

    // set_active_node
    method Set(x: T)
      requires Valid() && x !in Nodes(list, 0)
      modifies this
      ensures Valid() && list == old(list) + [Active(x)] && ptr == old(ptr)
      ensures Pending() == old(Pending()) + {x}
    {
      list := list + [Active(x)];
      assert list[|list| - 1] == Active(x);
      assert forall k :: 0 <= k < |list| - 1 ==> list[k] == old(list)[k];
    }

    // unset_active_nodes, for one node of the range
    method UnsetOne(x: T)
      requires Valid()
      modifies this`list, this`ndx
      ensures Valid() && list == Unset(old(list), {x})
    {
      var n, i := |list|, 0;
      ghost var start := ndx;
      while i < n
        invariant 0 <= i <= n && list == old(list)
        invariant n > 0 ==> start < n && ndx == Rotate(start, i, n)
        invariant n == 0 ==> ndx == 0
        invariant forall k :: 0 <= k < i ==> list[Rotate(start, k, n)] != Active(x)
      {
        if list[ndx] == Active(x) {
          list := list[ndx := Cleared];
          assert list == Unset(old(list), {x});
          ndx := IncMod(ndx, n - 1);
          return;
        }
        ndx := IncMod(ndx, n - 1);
        i := i + 1;
      }
      forall m | 0 <= m < n ensures list[m] != Active(x) {
        RotationCovers(start, n, m);
      }
      assert list == Unset(old(list), {x});
    }

    // next_active_node: the first entry not cleared, if any
    method Next() returns (r: Slot<T>)
      requires Valid()
      modifies this`ptr
      ensures Valid() && ptr >= old(ptr)
      ensures r.Cleared? ==> old(Pending()) == {} && Pending() == {}
      ensures old(Waiting()) == (if r.Active? then [r.node] else []) + Waiting()
      ensures r.Active? ==>
        && old(ptr) < ptr && list[ptr - 1] == r
        && (forall k :: old(ptr) <= k < ptr - 1 ==> list[k].Cleared?)
        && r.node !in Pending() && old(Pending()) == Pending() + {r.node}
    {
      while ptr < |list| && list[ptr].Cleared?
        invariant old(ptr) <= ptr <= |list|
        invariant forall k :: old(ptr) <= k < ptr ==> list[k].Cleared?
        invariant Pending() == old(Pending()) && Waiting() == old(Waiting())
      {
        assert list[ptr..][1..] == list[ptr + 1..];
        ptr := ptr + 1;
      }
      if ptr < |list| {
        r := list[ptr];
        assert list[ptr..][1..] == list[ptr + 1..];
        ptr := ptr + 1;
      } else {
        r := Cleared;
      }
    }

    // clear_active_list
    method Clear()
      modifies this
      ensures Valid() && list == [] && ptr == 0 && Pending() == {}
    {
      list, ptr, ndx := [], 0, 0;
    }
  }
}
