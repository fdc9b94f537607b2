/** Usage patterns of `List<T>` built from the public operations: the opening
    sequence of the program's self-test on integers, comparison with a freshly
    built list, emptying a list through `Front`/`Remove`, reversing twice (the
    round-trip property of `Reverse`), and writing through the handles of a
    list after copying it. */
module Scenarios {
  import opened Wrappers
  import opened Arena
  import opened DoubleList
  import opened Traversals

  /** `Remove(Front())` on a non-empty list: the rest of the nodes remain,
      the removed node is unlinked, and no node outside the list changes. */
  lemma RemoveFront<T>(h: Heap<T>, l: List, ns: seq<Ref>)
    requires Valid(h, l, ns) && |ns| > 0
    ensures var s := Remove(h, l, Some(Front(h, l, ns).value), ns);
      && Valid(s.heap, s.list, ns[1..]) && Values(s.heap, ns[1..]) == Values(h, ns)[1..]
      && s.list == l.(len := l.len - 1)
      && s.heap.nodes.Keys == h.nodes.Keys
      && s.heap.nodes[ns[0]].prev.None? && s.heap.nodes[ns[0]].next.None?
      && forall r :: r in h.nodes && r != l.head && r != l.tail && r !in ns ==> s.heap.nodes[r] == h.nodes[r]
  {
    IndexOfFirst(ns, ns[0], 0);
    var vs, c := Values(h, ns), Chain(l, ns);
    RemoveEnds(ns);
    RemoveEnds(vs);
    var s := Remove(h, l, Some(ns[0]), ns);
    assert Valid(s.heap, s.list, RemoveAt(ns, 0)) && Values(s.heap, RemoveAt(ns, 0)) == RemoveAt(vs, 0);
    assert Preserves(h, s.heap, {c[0], ns[0], c[2]});
    ChainStart(l, ns);
    forall r | r in h.nodes && r != l.head && r != l.tail && r !in ns
      ensures s.heap.nodes[r] == h.nodes[r]
    {
      assert r !in {c[0], ns[0], c[2]};
    }
  }

  /** The first three links of a chain with at least one data node. */
  lemma ChainStart(l: List, ns: seq<Ref>)
    requires |ns| > 0
    ensures var c := Chain(l, ns);
      && c[0] == l.head && c[1] == ns[0]
      && (|ns| == 1 ==> c[2] == l.tail)
      && (|ns| > 1 ==> c[2] == ns[1])
  {
  }

  /** Addresses before position `k` of a duplicate-free sequence do not occur from `k` on. */
  lemma DistinctSplit<X>(s: seq<X>, k: nat)
    requires Distinct(s) && k <= |s|
    ensures forall x :: x in s[..k] ==> x !in s[k..]
  {
    forall x | x in s[..k] ensures x !in s[k..] {
      var i :| 0 <= i < k && s[i] == x;
      forall j | k <= j < |s| ensures s[j] != x {
        assert i < j;
      }
    }
  }

  /** `while (!IsEmpty()) Remove(Front());` empties the list and leaves every
      removed node unlinked. */
  method Drain<T>(h: Heap<T>, l: List, ghost ns: seq<Ref>) returns (s: State<T>)
    requires Valid(h, l, ns)
    ensures Valid(s.heap, s.list, []) && IsEmpty(s.heap, s.list, [])
    ensures s.list == l.(len := 0) && Size(s.heap, s.list, []) == 0
    ensures s.heap.nodes.Keys == h.nodes.Keys
    ensures forall r :: r in ns ==> s.heap.nodes[r].prev.None? && s.heap.nodes[r].next.None?
  {
    SentinelsApart(h, l, ns);
    s := State(h, l);
    ghost var k := 0;
    while !IsEmpty(s.heap, s.list, ns[k..])
      invariant 0 <= k <= |ns|
      invariant Valid(s.heap, s.list, ns[k..]) && s.list == l.(len := |ns| - k)
      invariant s.heap.nodes.Keys == h.nodes.Keys
      invariant forall r :: r in ns[..k] ==> s.heap.nodes[r].prev.None? && s.heap.nodes[r].next.None?
      decreases |ns| - k
    {
      RemoveFront(s.heap, s.list, ns[k..]);
      DistinctSplit(ns, k);
      TakeOneMore(ns, k);
      assert ns[k..][1..] == ns[k + 1..];
      s := Remove(s.heap, s.list, Some(Front(s.heap, s.list, ns[k..]).value), ns[k..]);
      k := k + 1;
    }
    assert ns[..k] == ns;
  }

  /** Reversing twice restores the elements and never moves a node. */
  method ReverseTwice<T>(h: Heap<T>, l: List, ghost ns: seq<Ref>) returns (h': Heap<T>)
    requires Valid(h, l, ns)
    ensures Valid(h', l, ns) && Values(h', ns) == Values(h, ns)
    ensures SameShape(h, h', ns)
  {
    var h1 := Reverse(h, l, ns);
    h' := Reverse(h1, l, ns);
    ReversedInvolution(Values(h, ns));
    SameShapeTrans(h, h1, h', ns);
  }

  /** `List<int> newList = list; list.Front()->data = x; list.Back()->data = x;`:
      the writes reach the original only, and the copy keeps the old elements. */
  method CopyThenWriteEnds<T>(h: Heap<T>, src: List, ghost ns: seq<Ref>, x: T)
    returns (h': Heap<T>, copy: List, ghost ds: seq<Ref>)
    requires Valid(h, src, ns) && |ns| > 0
    ensures Valid(h', src, ns) && Valid(h', copy, ds)
    ensures Values(h', ns) == Values(h, ns)[0 := x][|ns| - 1 := x]
    ensures Values(h', ds) == Values(h, ns)
  {
    var c;
    c, ds := Copy(h, src, ns);
    copy := c.list;
    var m := |ns| - 1;
    var f := Front(c.heap, src, ns).value;
    var b := Back(c.heap, src, ns).value;
    assert f !in Footprint(copy, ds) && b !in Footprint(copy, ds) by {
      assert f in h.nodes && b in h.nodes;
    }
    WriteThroughHandle(c.heap, src, ns, 0, x);
    WriteElsewhere(c.heap, copy, ds, f, x);
    var h1 := SetData(c.heap, f, x);
    WriteThroughHandle(h1, src, ns, m, x);
    WriteElsewhere(h1, copy, ds, b, x);
    h' := SetData(h1, b, x);
  }

  /** `Front()->data` and `Back()->data` are the first and last elements. */
  lemma EndValues<T>(h: Heap<T>, l: List, ns: seq<Ref>)
    requires Valid(h, l, ns) && |ns| > 0
    ensures h.nodes[Front(h, l, ns).value].data == Item(Values(h, ns)[0])
    ensures h.nodes[Back(h, l, ns).value].data == Item(Values(h, ns)[|ns| - 1])
  {
  }

  /** `list == List<T>(items)`: comparing with a freshly built list holds
      exactly when the list reads `items`, and the list itself is untouched. */
  method EqualsItems<T(==)>(h: Heap<T>, l: List, ghost ns: seq<Ref>, xs: seq<T>) returns (eq: bool)
    requires Valid(h, l, ns)
    ensures eq <==> Values(h, ns) == xs
  {
    var t, ts := FromItems(h, xs);
    ValidFrame(h, t.heap, l, ns, {});
    eq := Equal(t.heap, l, ns, t.list, ts);
  }

  /** `List<int>({ 1,2 })`, `PushBack(3)`, `PushBack({ 4, 5 })`, `PushFront(0)`. */
  method BuildZeroToFive(h: Heap<int>) returns (s: State<int>, ghost ns: seq<Ref>)
    requires WellFormed(h)
    ensures Valid(s.heap, s.list, ns) && Values(s.heap, ns) == [0, 1, 2, 3, 4, 5]
    ensures Size(s.heap, s.list, ns) == 6
  {
    s, ns := FromItems(h, [1, 2]);
    ghost var addr := s.heap.free;
    s := PushBack(s.heap, s.list, 3, ns);
    ns := ns + [addr];
    assert Values(s.heap, ns) == [1, 2, 3];
    s, ns := PushBackItems(s.heap, s.list, [4, 5], ns);
    assert Values(s.heap, ns) == [1, 2, 3, 4, 5];
    addr := s.heap.free;
    ghost var old5 := Values(s.heap, ns);
    s := PushFront(s.heap, s.list, 0, ns);
    ns := [addr] + ns;
    assert Values(s.heap, ns) == [0] + old5;
    PrependZero(old5);
  }

  /** Putting `0` in front of `1..5` gives `0..5`. */
  lemma PrependZero(s: seq<int>)
    requires s == [1, 2, 3, 4, 5]
    ensures [0] + s == [0, 1, 2, 3, 4, 5]
  {
  }

  /** `MoveToBack(Front())` on `0..5`, then `MoveToFront(Back())`, with the
      end elements read in between. */
  method RotateAndRestore(h: Heap<int>, l: List, ghost ns: seq<Ref>)
    returns (s: State<int>, ghost ns': seq<Ref>)
    requires Valid(h, l, ns) && Values(h, ns) == [0, 1, 2, 3, 4, 5]
    ensures Valid(s.heap, s.list, ns') && Values(s.heap, ns') == [0, 1, 2, 3, 4, 5]
    ensures Size(s.heap, s.list, ns') == 6
  {
    EndValues(h, l, ns);
    MoveFrontToBack(h, l, ns);
    var s1 := MoveToBack(h, l, Some(Front(h, l, ns).value), ns);
    ghost var ns1 := ns[1..] + [ns[0]];
    assert Values(s1.heap, ns1) == [1, 2, 3, 4, 5, 0];
    assert Size(s1.heap, s1.list, ns1) == 6;
    EndValues(s1.heap, s1.list, ns1);
    assert s1.heap.nodes[Back(s1.heap, s1.list, ns1).value].data == Item(0);
    assert s1.heap.nodes[Front(s1.heap, s1.list, ns1).value].data == Item(1);
    MoveBackToFront(s1.heap, s1.list, ns1);
    s := MoveToFront(s1.heap, s1.list, Some(Back(s1.heap, s1.list, ns1).value), ns1);
    ns' := [ns1[5]] + ns1[..5];
    RotateUndo(Values(h, ns), 5);
    EndValues(s.heap, s.list, ns');
    assert s.heap.nodes[Back(s.heap, s.list, ns').value].data == Item(5);
    assert s.heap.nodes[Front(s.heap, s.list, ns').value].data == Item(0);
  }

  /** `if (auto node = Search(2)) Remove(node);` on `0..5`. */
  method SearchRemoveTwo(h: Heap<int>, l: List, ghost ns: seq<Ref>)
    returns (s: State<int>, ghost ns': seq<Ref>)
    requires Valid(h, l, ns) && Values(h, ns) == [0, 1, 2, 3, 4, 5]
    ensures Valid(s.heap, s.list, ns') && Values(s.heap, ns') == [0, 1, 3, 4, 5]
  {
    var vs := Values(h, ns);
    IndexOfFirst(vs, 2, 2);
    IndexOfDistinct(ns, 2);
    var node := Search(h, l, 2, ns);
    if node.Some? {
      s := Remove(h, l, node, ns);
      ns' := RemoveAt(ns, 2);
      assert RemoveAt(vs, 2) == [0, 1, 3, 4, 5];
    } else {
      s, ns' := State(h, l), ns;
    }
  }

  /** `Reverse()` on `0, 1, 3, 4, 5`. */
  method ReverseFive(h: Heap<int>, l: List, ghost ns: seq<Ref>) returns (h': Heap<int>)
    requires Valid(h, l, ns) && Values(h, ns) == [0, 1, 3, 4, 5]
    ensures Valid(h', l, ns) && Values(h', ns) == [5, 4, 3, 1, 0]
  {
    h' := Reverse(h, l, ns);
    ReversedIndex(Values(h, ns));
  }

  /** The self-test's opening sequence: build `0..5`, compare it, rotate it
      and back, remove the `2` found by `Search`, and reverse. */
  method SelfTestOpening(h: Heap<int>) returns (s: State<int>, ghost ns: seq<Ref>)
    requires WellFormed(h)
    ensures Valid(s.heap, s.list, ns) && Values(s.heap, ns) == [5, 4, 3, 1, 0]
    ensures Size(s.heap, s.list, ns) == 5
  {
    s, ns := BuildZeroToFive(h);
    var eq := EqualsItems(s.heap, s.list, ns, [0, 1, 2, 3, 4, 5]);
    assert eq;
    s, ns := RotateAndRestore(s.heap, s.list, ns);
    eq := EqualsItems(s.heap, s.list, ns, [0, 1, 2, 3, 4, 5]);
    assert eq;
    s, ns := SearchRemoveTwo(s.heap, s.list, ns);
    eq := EqualsItems(s.heap, s.list, ns, [0, 1, 3, 4, 5]);
    assert eq;
    var h' := ReverseFive(s.heap, s.list, ns);
    s := State(h', s.list);
    eq := EqualsItems(s.heap, s.list, ns, [5, 4, 3, 1, 0]);
    assert eq;
  }

  /** `List<int>({ 1,2,3,4,5 }).Size() == 5`, and the list compares equal to the same items. */
  method FiveItems(h: Heap<int>) returns (s: State<int>, ghost ns: seq<Ref>)
    requires WellFormed(h)
    ensures Valid(s.heap, s.list, ns) && Size(s.heap, s.list, ns) == 5
    ensures Values(s.heap, ns) == [1, 2, 3, 4, 5]
  {
    s, ns := FromItems(h, [1, 2, 3, 4, 5]);
    var eq := EqualsItems(s.heap, s.list, ns, [1, 2, 3, 4, 5]);
    assert eq;
  }
}
