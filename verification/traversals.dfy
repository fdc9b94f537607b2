/** The `List<T>` operations that walk the chain: `Search`, `Reverse`,
    `operator==`, the copy and initializer-list constructors and
    `PushBack(initializer_list)`. */
module Traversals {
  import opened Wrappers
  import opened Arena
  import opened DoubleList

  /** Reference definition of a reversed sequence. */
  function Reversed<X>(s: seq<X>): (r: seq<X>)
  {
    if s == [] then [] else Reversed(s[1..]) + [s[0]]
  }

  lemma {:induction false} ReversedIndex<X>(s: seq<X>)
    ensures |Reversed(s)| == |s|
    ensures forall i :: 0 <= i < |s| ==> Reversed(s)[i] == s[|s| - 1 - i]
  {
    if s != [] {
      ReversedIndex(s[1..]);
    }
  }

  /** Reversing twice gives back the sequence. */
  lemma ReversedInvolution<X>(s: seq<X>)
    ensures Reversed(Reversed(s)) == s
  {
    ReversedIndex(s);
    ReversedIndex(Reversed(s));
  }

  /** `h'` differs from `h` at most in the payloads of the data nodes `ns`. */
  ghost predicate SameShape<T>(h: Heap<T>, h': Heap<T>, ns: seq<Ref>)
  {
    && h'.free == h.free && h'.nodes.Keys == h.nodes.Keys
    && (forall r :: r in h.nodes ==> h'.nodes[r].prev == h.nodes[r].prev && h'.nodes[r].next == h.nodes[r].next)
    && (forall r :: r in h.nodes && r !in ns ==> h'.nodes[r] == h.nodes[r])
    && AllData(h', ns)
  }

  /** Rewriting element payloads keeps the list valid. */
  lemma ShapeValid<T>(h: Heap<T>, h': Heap<T>, l: List, ns: seq<Ref>)
    requires Valid(h, l, ns) && SameShape(h, h', ns)
    ensures Valid(h', l, ns)
  {
    SentinelsApart(h, l, ns);
  }

  /** A write through the handle of a data node of `l` changes exactly that element. */
  lemma WriteThroughHandle<T>(h: Heap<T>, l: List, ns: seq<Ref>, k: nat, x: T)
    requires Valid(h, l, ns) && k < |ns|
    ensures Valid(SetData(h, ns[k], x), l, ns)
    ensures Values(SetData(h, ns[k], x), ns) == Values(h, ns)[k := x]
  {
    var h' := SetData(h, ns[k], x);
    assert SameShape(h, h', ns);
    ShapeValid(h, h', l, ns);
  }

  /** A write through the handle of a node outside `l` leaves `l` alone. */
  lemma WriteElsewhere<T>(h: Heap<T>, l: List, ns: seq<Ref>, r: Ref, x: T)
    requires Valid(h, l, ns) && r in h.nodes && r !in Footprint(l, ns)
    ensures Valid(SetData(h, r, x), l, ns)
    ensures Values(SetData(h, r, x), ns) == Values(h, ns)
  {
    ValidFrame(h, SetData(h, r, x), l, ns, {r});
  }

  /** `Search(target)`: the first data node holding `t`, or null. */
  method Search<T(==)>(h: Heap<T>, l: List, t: T, ghost ns: seq<Ref>) returns (r: Option<Ref>)
    requires Valid(h, l, ns)
    ensures r.None? <==> t !in Values(h, ns)
    ensures r.Some? ==> r.value == ns[IndexOf(Values(h, ns), t)] && IsData(h, r.value)
  {
    ghost var c := Chain(l, ns);
    ghost var vs := Values(h, ns);
    Ends(h, l, ns);
    var current := h.nodes[l.head].next.value;
    ghost var k := 0;
    while current != l.tail
      invariant 0 <= k <= |ns|
      invariant current == c[k + 1]
      invariant k == |ns| ==> current == l.tail
      invariant t !in vs[..k]
      decreases |ns| - k
    {
      assert current == ns[k];
      if h.nodes[current].data.value == t {
        IndexOfFirst(vs, t, k);
        return Some(current);
      }
      TakeOneMore(vs, k);
      assert h.nodes[c[k + 1]].next == Some(c[k + 2]);
      current := h.nodes[current].next.value;
      k := k + 1;
    }
    ChainInjective(h, l, ns, k + 1, |ns| + 1);
    assert vs[..k] == vs;
    return None;
  }

  /** `ws` is `vs` with its outer `k` elements on each side exchanged with
      their mirrors and the middle untouched. */
  ghost predicate HalfReversedSeq<X>(vs: seq<X>, ws: seq<X>, k: nat)
  {
    |ws| == |vs| &&
    forall m :: 0 <= m < |vs| ==> ws[m] == vs[if m < k || |vs| - k <= m then |vs| - 1 - m else m]
  }

  /** After `k` steps of `Reverse`, the payloads are half reversed. */
  ghost predicate HalfReversed<T>(h: Heap<T>, h': Heap<T>, ns: seq<Ref>, k: nat)
    requires AllData(h, ns) && AllData(h', ns)
  {
    HalfReversedSeq(Values(h, ns), Values(h', ns), k)
  }

  /** Exchanging the next mirrored pair extends the reversed rim by one. */
  lemma HalfReversedStep<X>(vs: seq<X>, ws: seq<X>, k: nat, mirror: nat)
    requires HalfReversedSeq(vs, ws, k) && 2 * k + 2 <= |vs| && mirror == |vs| - 1 - k
    ensures HalfReversedSeq(vs, ws[k := ws[mirror]][mirror := ws[k]], k + 1)
  {
    assert ws[k] == vs[k] && ws[mirror] == vs[mirror];
  }

  /** Swapping two payloads of a list exchanges those two elements and nothing else. */
  lemma SwapPayloads<T>(h: Heap<T>, ns: seq<Ref>, a: nat, b: nat)
    requires AllData(h, ns) && Distinct(ns) && a < b < |ns|
    ensures SameShape(h, SwapData(h, ns[a], ns[b]), ns)
    ensures Values(SwapData(h, ns[a], ns[b]), ns) == Values(h, ns)[a := Values(h, ns)[b]][b := Values(h, ns)[a]]
  {
    var h' := SwapData(h, ns[a], ns[b]);
    forall m | 0 <= m < |ns| && m != a && m != b ensures h'.nodes[ns[m]] == h.nodes[ns[m]]
    {
      assert ns[m] != ns[a] && ns[m] != ns[b];
    }
  }

  /** Payload-only changes compose. */
  lemma SameShapeTrans<T>(h: Heap<T>, h': Heap<T>, h'': Heap<T>, ns: seq<Ref>)
    requires SameShape(h, h', ns) && SameShape(h', h'', ns)
    ensures SameShape(h, h'', ns)
  {
  }

  /** One iteration of the `Reverse` loop: swapping positions `k` and `n - 1 - k`. */
  lemma ReverseStep<T>(h: Heap<T>, h': Heap<T>, ns: seq<Ref>, k: nat, mirror: nat, i: Ref, j: Ref)
    requires AllData(h, ns) && Distinct(ns) && SameShape(h, h', ns) && HalfReversed(h, h', ns, k)
    requires 2 * k + 2 <= |ns| && mirror == |ns| - 1 - k && i == ns[k] && j == ns[mirror]
    ensures i in h'.nodes && j in h'.nodes
    ensures SameShape(h, SwapData(h', i, j), ns)
    ensures HalfReversed(h, SwapData(h', i, j), ns, k + 1)
  {
    var ws := Values(h', ns);
    SwapPayloads(h', ns, k, mirror);
    SameShapeTrans(h, h', SwapData(h', ns[k], ns[mirror]), ns);
    HalfReversedStep(Values(h, ns), ws, k, mirror);
  }

  /** When the cursors have met or crossed, the payloads are reversed. */
  lemma ReverseDone<T>(h: Heap<T>, h': Heap<T>, ns: seq<Ref>, k: nat)
    requires AllData(h, ns) && AllData(h', ns) && HalfReversed(h, h', ns, k)
    requires |ns| <= 2 * k + 1
    ensures Values(h', ns) == Reversed(Values(h, ns))
  {
    ReversedIndex(Values(h, ns));
  }

  /** The links the cursors of `Reverse` follow from positions `k + 1` and `n - k`. */
  lemma CursorLinks<T>(h: Heap<T>, l: List, ns: seq<Ref>, k: nat)
    requires Valid(h, l, ns) && 2 * k + 2 <= |ns|
    ensures var c, n := Chain(l, ns), |ns|;
      && c[k + 1] == ns[k] && c[n - k] == ns[n - 1 - k]
      && h.nodes[c[k + 1]].next == Some(c[k + 2])
      && h.nodes[c[k + 2]].prev == Some(c[k + 1])
      && h.nodes[c[n - k]].prev == Some(c[n - k - 1])
  {
    var c, n := Chain(l, ns), |ns|;
    assert h.nodes[c[k + 1]].next == Some(c[k + 2]) && h.nodes[c[k + 2]].prev == Some(c[k + 1]);
    assert h.nodes[c[n - k - 1]].next == Some(c[n - k]) && h.nodes[c[n - k]].prev == Some(c[n - k - 1]);
  }

  /** The `Reverse` loop stops only once the cursors have met or crossed: each
      of its four exit conditions forces `n <= 2k + 1`. */
  lemma CursorsMet<T>(h: Heap<T>, l: List, ns: seq<Ref>, k: nat)
    requires Valid(h, l, ns) && 2 * k <= |ns|
    requires var c, n := Chain(l, ns), |ns|;
      c[k + 1] == l.tail || c[n - k] == l.head || c[k + 1] == c[n - k] || (k < n && c[k] == c[n - k])
    ensures |ns| <= 2 * k + 1
  {
    var n := |ns|;
    ChainInjective(h, l, ns, k + 1, n + 1);
    ChainInjective(h, l, ns, n - k, 0);
    ChainInjective(h, l, ns, k + 1, n - k);
    if k < n {
      ChainInjective(h, l, ns, k, n - k);
    }
  }

  /** `Reverse()`: two cursors walk inward swapping payloads; the links are untouched. */
  method Reverse<T>(h: Heap<T>, l: List, ghost ns: seq<Ref>) returns (h': Heap<T>)
    requires Valid(h, l, ns)
    ensures Valid(h', l, ns)
    ensures Values(h', ns) == Reversed(Values(h, ns))
    ensures SameShape(h, h', ns)
  {
    ghost var c, n := Chain(l, ns), |ns|;
    Ends(h, l, ns);
    h' := h;
    var i := h.nodes[l.head].next.value;
    var j := h.nodes[l.tail].prev.value;
    ghost var k := 0;
    while i != l.tail && j != l.head && i != j && h'.nodes[i].prev.value != j
      invariant 0 <= 2 * k <= n
      invariant i == c[k + 1] && j == c[n - k]
      invariant k == n ==> i == l.tail
      invariant k < n ==> i in h'.nodes && h'.nodes[i].prev == Some(c[k])
      invariant SameShape(h, h', ns) && HalfReversed(h, h', ns, k)
      decreases n - 2 * k
    {
      CursorLinks(h, l, ns, k);
      ReverseStep(h, h', ns, k, n - 1 - k, i, j);
      h' := SwapData(h', i, j);
      i := h'.nodes[i].next.value;
      j := h'.nodes[j].prev.value;
      k := k + 1;
    }
    CursorsMet(h, l, ns, k);
    ShapeValid(h, h', l, ns);
    ReverseDone(h, h', ns, k);
  }

  /** `operator==`: same length and pairwise-equal payloads in traversal order. */
  method Equal<T(==)>(h: Heap<T>, a: List, ghost as_: seq<Ref>, b: List, ghost bs: seq<Ref>) returns (eq: bool)
    requires Valid(h, a, as_) && Valid(h, b, bs)
    ensures eq <==> Values(h, as_) == Values(h, bs)
  {
    if a == b {
      AbstractionUnique(h, a, as_, bs);
      return true;
    }
    if a.len != b.len {
      return false;
    }
    ghost var ca, cb := Chain(a, as_), Chain(b, bs);
    ghost var va, vb := Values(h, as_), Values(h, bs);
    Ends(h, a, as_);
    Ends(h, b, bs);
    var node1 := h.nodes[a.head].next.value;
    var node2 := h.nodes[b.head].next.value;
    ghost var k := 0;
    while node1 != a.tail && node2 != b.tail
      invariant 0 <= k <= |as_|
      invariant node1 == ca[k + 1] && node2 == cb[k + 1]
      invariant k == |as_| ==> node1 == a.tail
      invariant va[..k] == vb[..k]
      decreases |as_| - k
    {
      assert node1 == as_[k] && node2 == bs[k];
      if h.nodes[node1].data.value != h.nodes[node2].data.value {
        assert va[k] != vb[k];
        return false;
      }
      TakeOneMore(va, k);
      TakeOneMore(vb, k);
      assert h.nodes[ca[k + 1]].next == Some(ca[k + 2]);
      assert h.nodes[cb[k + 1]].next == Some(cb[k + 2]);
      node1 := h.nodes[node1].next.value;
      node2 := h.nodes[node2].next.value;
      k := k + 1;
    }
    if node1 == a.tail {
      ChainInjective(h, a, as_, k + 1, |as_| + 1);
    } else {
      ChainInjective(h, b, bs, k + 1, |bs| + 1);
    }
    assert va[..k] == va && vb[..k] == vb;
    return true;
  }

  /** Every address of `ns` lies outside `h`: the nodes were allocated after `h`. */
  ghost predicate AllFresh<T>(h: Heap<T>, ns: seq<Ref>)
  {
    forall i :: 0 <= i < |ns| ==> ns[i] !in h.nodes
  }

  /** `PushBack(items)`: append each item in order, as repeated `PushBack(data)`. */
  method PushBackItems<T>(h: Heap<T>, l: List, xs: seq<T>, ghost ns: seq<Ref>)
    returns (s: State<T>, ghost ns': seq<Ref>)
    requires Valid(h, l, ns)
    ensures Valid(s.heap, s.list, ns')
    ensures Values(s.heap, ns') == Values(h, ns) + xs
    ensures s.list == l.(len := l.len + |xs|)
    ensures |ns'| == |ns| + |xs| && ns'[..|ns|] == ns && AllFresh(h, ns'[|ns|..])
    ensures h.free <= s.heap.free && Preserves(h, s.heap, Footprint(l, ns))
  {
    s, ns' := State(h, l), ns;
    for i := 0 to |xs|
      invariant Valid(s.heap, s.list, ns')
      invariant Values(s.heap, ns') == Values(h, ns) + xs[..i]
      invariant s.list == l.(len := l.len + i)
      invariant |ns'| == |ns| + i && ns'[..|ns|] == ns && AllFresh(h, ns'[|ns|..])
      invariant h.free <= s.heap.free && Preserves(h, s.heap, Footprint(l, ns))
    {
      ghost var addr := s.heap.free;
      ghost var before := s.heap;
      assert Chain(s.list, ns')[|ns'|] in Footprint(s.list, ns');
      s := PushBack(s.heap, s.list, xs[i], ns');
      FootprintGrows(l, ns, ns', addr, h);
      ns' := ns' + [addr];
      TakeOneMore(xs, i);
    }
    assert xs[..|xs|] == xs;
  }

  /** The chain of `ns'` only adds addr addresses to the chain of `ns`. */
  lemma FootprintGrows<T>(l: List, ns: seq<Ref>, ns': seq<Ref>, addr: Ref, h: Heap<T>)
    requires |ns| <= |ns'| && ns'[..|ns|] == ns && AllFresh(h, ns'[|ns|..])
    requires WellFormed(h) && h.free <= addr
    ensures (ns' + [addr])[..|ns|] == ns && AllFresh(h, (ns' + [addr])[|ns|..])
    ensures forall r :: r in Footprint(l, ns') && r !in Footprint(l, ns) ==> r !in h.nodes
  {
    var t := (ns' + [addr])[|ns|..];
    assert t == ns'[|ns|..] + [addr];
    assert ns' == ns + ns'[|ns|..];
    forall r | r in Footprint(l, ns') && r !in Footprint(l, ns) ensures r !in h.nodes
    {
      assert r in ns'[|ns|..];
    }
  }

  /** `List(items)`: an empty list followed by `PushBack` of each item. */
  method FromItems<T>(h: Heap<T>, xs: seq<T>) returns (s: State<T>, ghost ns: seq<Ref>)
    requires WellFormed(h)
    ensures Valid(s.heap, s.list, ns)
    ensures Values(s.heap, ns) == xs && s.list.len == |xs|
    ensures s.list.head !in h.nodes && s.list.tail !in h.nodes && AllFresh(h, ns)
    ensures Preserves(h, s.heap, {})
  {
    var e := NewList(h);
    s, ns := PushBackItems(e.heap, e.list, xs, []);
    assert ns[0..] == ns;
  }

  /** `h'` grew from `h` by allocation only: every node of `h` is still there, unchanged. */
  ghost predicate Extends<T>(h: Heap<T>, h': Heap<T>)
  {
    WellFormed(h') && h.free <= h'.free && Preserves(h, h', {})
  }

  /** Appending to a list built from nodes allocated after `h0` keeps `h0`'s nodes intact. */
  lemma PushBackFresh<T>(h0: Heap<T>, h: Heap<T>, l: List, ds: seq<Ref>, x: T)
    requires WellFormed(h0) && Valid(h, l, ds) && Extends(h0, h)
    requires l.head !in h0.nodes && l.tail !in h0.nodes && AllFresh(h0, ds)
    ensures var s := PushBack(h, l, x, ds);
      && Valid(s.heap, s.list, ds + [h.free])
      && Values(s.heap, ds + [h.free]) == Values(h, ds) + [x]
      && s.list == l.(len := l.len + 1)
      && Extends(h0, s.heap) && AllFresh(h0, ds + [h.free])
  {
    var last := Chain(l, ds)[|ds|];
    assert last !in h0.nodes by {
      if |ds| > 0 { assert last == ds[|ds| - 1]; }
    }
  }

  /** `List(const List&)`: a new list holding the source's payloads in order,
      built from fresh nodes only. */
  method Copy<T>(h: Heap<T>, src: List, ghost ns: seq<Ref>) returns (s: State<T>, ghost ds: seq<Ref>)
    requires Valid(h, src, ns)
    ensures Valid(s.heap, s.list, ds)
    ensures Values(s.heap, ds) == Values(h, ns)
    ensures s.list.head !in h.nodes && s.list.tail !in h.nodes && AllFresh(h, ds)
    ensures Preserves(h, s.heap, {})
    ensures Valid(s.heap, src, ns) && Values(s.heap, ns) == Values(h, ns)
  {
    ghost var c, vs := Chain(src, ns), Values(h, ns);
    Ends(h, src, ns);
    s := NewList(h);
    ds := [];
    var current := s.heap.nodes[src.head].next.value;
    ghost var k := 0;
    while current != src.tail
      invariant 0 <= k <= |ns|
      invariant current == c[k + 1]
      invariant k == |ns| ==> current == src.tail
      invariant Valid(s.heap, s.list, ds) && Values(s.heap, ds) == vs[..k]
      invariant s.list.head !in h.nodes && s.list.tail !in h.nodes && AllFresh(h, ds)
      invariant Extends(h, s.heap)
      decreases |ns| - k
    {
      assert current == ns[k] && h.nodes[c[k + 1]].next == Some(c[k + 2]);
      ghost var addr := s.heap.free;
      var x := s.heap.nodes[current].data.value;
      PushBackFresh(h, s.heap, s.list, ds, x);
      s := PushBack(s.heap, s.list, x, ds);
      ds := ds + [addr];
      TakeOneMore(vs, k);
      current := s.heap.nodes[current].next.value;
      k := k + 1;
    }
    ChainInjective(h, src, ns, k + 1, |ns| + 1);
    assert vs[..k] == vs;
    ValidFrame(h, s.heap, src, ns, {});
  }
}
