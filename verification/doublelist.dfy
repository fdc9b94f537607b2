/** `List<T>`: a doubly linked list bounded by two permanent sentinel nodes.

    A list value holds the addresses of its sentinels and the element count;
    its nodes live in a `Heap`.  The ghost sequence `ns` names the data nodes
    between the sentinels in forward order, and `Valid(h, l, ns)` is the
    representation invariant tying the links to it. */
module DoubleList {
  import opened Wrappers
  import opened Arena

  /** The `List<T>` struct: the `head` and `tail` sentinels and `len`. */
  datatype List = List(head: Ref, tail: Ref, len: nat)

  /** A heap together with one list in it: what a mutator leaves behind. */
  datatype State<T> = State(heap: Heap<T>, list: List)

  /** The only error the list raises: `Front`/`Back` of an empty list. */
  datatype ListError = EmptyList

  /** The whole chain: head sentinel, data nodes, tail sentinel. */
  function Chain(l: List, ns: seq<Ref>): (c: seq<Ref>)
  {
    [l.head] + ns + [l.tail]
  }

  /** Every address of the chain. */
  ghost function Footprint(l: List, ns: seq<Ref>): (fp: set<Ref>)
  {
    set r | r in Chain(l, ns)
  }

  /** For each adjacent pair (A, B) of `c`: `A->next == B` and `B->prev == A`. */
  ghost predicate Linked<T>(h: Heap<T>, c: seq<Ref>)
  {
    forall i, j :: 0 <= i && j == i + 1 && j < |c| ==>
      && c[i] in h.nodes && c[j] in h.nodes
      && h.nodes[c[i]].next == Some(c[j])
      && h.nodes[c[j]].prev == Some(c[i])
  }

  /** `r` is an allocated node holding an element. */
  ghost predicate IsData<T>(h: Heap<T>, r: Ref)
  {
    r in h.nodes && h.nodes[r].data.Item?
  }

  ghost predicate AllData<T>(h: Heap<T>, ns: seq<Ref>)
  {
    forall i :: 0 <= i < |ns| ==> IsData(h, ns[i])
  }

  ghost predicate Distinct<X>(s: seq<X>)
  {
    forall i, j :: 0 <= i < j < |s| ==> s[i] != s[j]
  }

  /** The representation invariant: two distinct sentinels, `head->prev` and
      `tail->next` empty, `next`/`prev` agreeing along head, `ns`, tail, the
      data nodes distinct, and `len` counting them. */
  ghost predicate Valid<T>(h: Heap<T>, l: List, ns: seq<Ref>)
  {
    && WellFormed(h)
    && l.head in h.nodes && l.tail in h.nodes && l.head != l.tail
    && h.nodes[l.head].data.Sentinel? && h.nodes[l.tail].data.Sentinel?
    && h.nodes[l.head].prev.None? && h.nodes[l.tail].next.None?
    && AllData(h, ns)
    && Distinct(ns)
    && l.len == |ns|
    && Linked(h, Chain(l, ns))
  }

  /** The element sequence the data nodes `ns` hold, in order. */
  ghost function Values<T>(h: Heap<T>, ns: seq<Ref>): (vs: seq<T>)
    requires AllData(h, ns)
    ensures |vs| == |ns|
  {
    seq(|ns|, i requires 0 <= i < |ns| => h.nodes[ns[i]].data.value)
  }

  /** `s` with position `k` deleted, the rest in their order. */
  function RemoveAt<X>(s: seq<X>, k: nat): (r: seq<X>)
    requires k < |s|
  {
    s[..k] + s[k + 1..]
  }

  /** Deleting the first or the last position of a sequence. */
  lemma RemoveEnds<X>(s: seq<X>)
    requires |s| > 0
    ensures RemoveAt(s, 0) == s[1..]
    ensures RemoveAt(s, |s| - 1) == s[..|s| - 1]
    ensures [s[0]] + s[1..] == s && s[..|s| - 1] + [s[|s| - 1]] == s
  {
  }

  /** A prefix one longer is the prefix plus the next element. */
  lemma TakeOneMore<X>(s: seq<X>, k: nat)
    requires k < |s|
    ensures s[..k + 1] == s[..k] + [s[k]]
  {
  }

  /** The first position of `x` in `s`. */
  ghost function IndexOf<X>(s: seq<X>, x: X): (k: nat)
    requires x in s
    ensures k < |s| && s[k] == x && x !in s[..k]
  {
    if s[0] == x then 0 else 1 + IndexOf(s[1..], x)
  }

  /** An occurrence with no earlier occurrence is the first one. */
  lemma {:induction false} IndexOfFirst<X>(s: seq<X>, x: X, k: nat)
    requires k < |s| && s[k] == x && x !in s[..k]
    ensures IndexOf(s, x) == k
  {
    if k > 0 {
      assert s[0] in s[..k];
      assert s[1..][..k - 1] == s[..k][1..];
      IndexOfFirst(s[1..], x, k - 1);
    }
  }

  /** In a sequence without repetitions, `IndexOf` inverts indexing. */
  lemma IndexOfDistinct<X>(s: seq<X>, k: nat)
    requires Distinct(s) && k < |s|
    ensures IndexOf(s, s[k]) == k
  {
    forall i | 0 <= i < k ensures s[..k][i] != s[k] { }
    IndexOfFirst(s, s[k], k);
  }

  // ---------------------------------------------------------------------
  // Facts about the invariant

  /** No address occurs twice in the chain. */
  lemma ChainInjective<T>(h: Heap<T>, l: List, ns: seq<Ref>, a: int, b: int)
    requires Valid(h, l, ns)
    requires 0 <= a < |ns| + 2 && 0 <= b < |ns| + 2
    ensures Chain(l, ns)[a] == Chain(l, ns)[b] <==> a == b
  {
    if a < b {
      ChainOrdered(h, l, ns, a, b);
    } else if b < a {
      ChainOrdered(h, l, ns, b, a);
    }
  }

  lemma ChainOrdered<T>(h: Heap<T>, l: List, ns: seq<Ref>, a: int, b: int)
    requires Valid(h, l, ns)
    requires 0 <= a < b < |ns| + 2
    ensures Chain(l, ns)[a] != Chain(l, ns)[b]
  {
    var c := Chain(l, ns);
    if b < |ns| + 1 {
      assert c[b] == ns[b - 1] && IsData(h, ns[b - 1]);
      if 0 < a {
        assert c[a] == ns[a - 1];
      }
    } else if 0 < a {
      assert c[a] == ns[a - 1] && IsData(h, ns[a - 1]);
    }
  }

  /** The links determine the node sequence: a list has one abstraction. */
  lemma {:induction false} AbstractionUnique<T>(h: Heap<T>, l: List, ns: seq<Ref>, ms: seq<Ref>)
    requires Valid(h, l, ns) && Valid(h, l, ms)
    ensures ns == ms
  {
    var c, d := Chain(l, ns), Chain(l, ms);
    assert |c| == |d|;
    var i := 0;
    while i < |c|
      invariant i <= |c|
      invariant c[..i] == d[..i]
    {
      if i > 0 {
        assert c[i - 1] == d[i - 1];
        assert h.nodes[c[i - 1]].next == Some(c[i]);
        assert h.nodes[d[i - 1]].next == Some(d[i]);
      }
      assert c[..i + 1] == c[..i] + [c[i]];
      assert d[..i + 1] == d[..i] + [d[i]];
      i := i + 1;
    }
    assert c == c[..|c|];
    assert ns == c[1..|c| - 1] && ms == d[1..|d| - 1];
  }

  /** A list whose nodes a heap change leaves alone stays valid with the same elements. */
  lemma ValidFrame<T>(h: Heap<T>, h': Heap<T>, l: List, ns: seq<Ref>, touched: set<Ref>)
    requires Valid(h, l, ns)
    requires WellFormed(h') && Preserves(h, h', touched)
    requires Footprint(l, ns) !! touched
    ensures Valid(h', l, ns)
    ensures Values(h', ns) == Values(h, ns)
  {
    var c := Chain(l, ns);
    forall r | r in c
      ensures r in h'.nodes && h'.nodes[r] == h.nodes[r]
    {
      assert r in Footprint(l, ns);
    }
    forall i | 0 <= i < |ns|
      ensures h'.nodes[ns[i]] == h.nodes[ns[i]]
    {
      assert ns[i] == c[i + 1];
    }
  }

  /** The sentinels are not data nodes. */
  lemma SentinelsApart<T>(h: Heap<T>, l: List, ns: seq<Ref>)
    requires Valid(h, l, ns)
    ensures l.head !in ns && l.tail !in ns
  {
    forall i | 0 <= i < |ns| ensures ns[i] != l.head && ns[i] != l.tail
    {
      assert IsData(h, ns[i]);
    }
  }

  /** `head->next` is the first node after `head`, `tail->prev` the last before `tail`. */
  lemma Ends<T>(h: Heap<T>, l: List, ns: seq<Ref>)
    requires Valid(h, l, ns)
    ensures Chain(l, ns)[1] in h.nodes && Chain(l, ns)[|ns|] in h.nodes
    ensures h.nodes[l.head].next == Some(Chain(l, ns)[1])
    ensures h.nodes[l.tail].prev == Some(Chain(l, ns)[|ns|])
    ensures Chain(l, ns)[1] != l.head && Chain(l, ns)[|ns|] != l.tail
  {
    var c := Chain(l, ns);
    assert h.nodes[c[0]].next == Some(c[1]);
    assert h.nodes[c[|ns| + 1]].prev == Some(c[|ns|]);
    ChainInjective(h, l, ns, 0, 1);
    ChainInjective(h, l, ns, |ns|, |ns| + 1);
  }

  /** The heap `PushFrontNode` leaves is valid for `[n] + ns`. */
  lemma SplicedFront<T>(h: Heap<T>, l: List, n: Ref, ns: seq<Ref>, h': Heap<T>)
    requires Valid(h, l, ns)
    requires IsData(h, n) && n !in ns
    requires h'.free == h.free && h'.nodes.Keys == h.nodes.Keys
    requires h'.nodes[l.head] == h.nodes[l.head].(next := Some(n))
    requires h'.nodes[n] == h.nodes[n].(prev := Some(l.head), next := Some(Chain(l, ns)[1]))
    requires h'.nodes[Chain(l, ns)[1]] == h.nodes[Chain(l, ns)[1]].(prev := Some(n))
    requires forall r :: r in h.nodes && r !in {l.head, n, Chain(l, ns)[1]} ==> h'.nodes[r] == h.nodes[r]
    ensures Valid(h', l.(len := l.len + 1), [n] + ns)
    ensures Values(h', [n] + ns) == [h.nodes[n].data.value] + Values(h, ns)
  {
    var c, c' := Chain(l, ns), Chain(l.(len := l.len + 1), [n] + ns);
    var first := c[1];
    assert c'[0] == l.head && c'[1] == n;
    forall i | 0 <= i < |c| ensures c'[i + 1] == (if i == 0 then n else c[i]) { }
    forall k | 0 <= k < |ns| ensures h'.nodes[ns[k]].data == h.nodes[ns[k]].data
    {
      assert ns[k] == c[k + 1];
      ChainInjective(h, l, ns, 0, k + 1);
    }
    forall i, j | 0 <= i && j == i + 1 && j < |c'|
      ensures c'[i] in h'.nodes && c'[j] in h'.nodes
      ensures h'.nodes[c'[i]].next == Some(c'[j]) && h'.nodes[c'[j]].prev == Some(c'[i])
    {
      if i >= 2 {
        assert c'[i] == c[i - 1] && c'[j] == c[j - 1];
        assert h.nodes[c[i - 1]].next == Some(c[j - 1]) && h.nodes[c[j - 1]].prev == Some(c[i - 1]);
        ChainInjective(h, l, ns, 0, i - 1);
        ChainInjective(h, l, ns, 0, j - 1);
        ChainInjective(h, l, ns, 1, j - 1);
      } else if i == 1 {
        assert c'[j] == first;
      }
    }
  }

  /** The heap `PushBackNode` leaves is valid for `ns + [n]`. */
  lemma SplicedBack<T>(h: Heap<T>, l: List, n: Ref, ns: seq<Ref>, h': Heap<T>)
    requires Valid(h, l, ns)
    requires IsData(h, n) && n !in ns
    requires h'.free == h.free && h'.nodes.Keys == h.nodes.Keys
    requires h'.nodes[l.tail] == h.nodes[l.tail].(prev := Some(n))
    requires h'.nodes[n] == h.nodes[n].(prev := Some(Chain(l, ns)[|ns|]), next := Some(l.tail))
    requires h'.nodes[Chain(l, ns)[|ns|]] == h.nodes[Chain(l, ns)[|ns|]].(next := Some(n))
    requires forall r :: r in h.nodes && r !in {l.tail, n, Chain(l, ns)[|ns|]} ==> h'.nodes[r] == h.nodes[r]
    ensures Valid(h', l.(len := l.len + 1), ns + [n])
    ensures Values(h', ns + [n]) == Values(h, ns) + [h.nodes[n].data.value]
  {
    var c, c' := Chain(l, ns), Chain(l.(len := l.len + 1), ns + [n]);
    var m := |ns|;
    var last := c[m];
    assert c'[m + 1] == n && c'[m + 2] == l.tail;
    forall i | 0 <= i <= m ensures c'[i] == c[i] { }
    forall k | 0 <= k < m ensures h'.nodes[ns[k]].data == h.nodes[ns[k]].data
    {
      assert ns[k] == c[k + 1];
      ChainInjective(h, l, ns, m + 1, k + 1);
    }
    forall i, j | 0 <= i && j == i + 1 && j < |c'|
      ensures c'[i] in h'.nodes && c'[j] in h'.nodes
      ensures h'.nodes[c'[i]].next == Some(c'[j]) && h'.nodes[c'[j]].prev == Some(c'[i])
    {
      if j <= m {
        assert h.nodes[c[i]].next == Some(c[j]) && h.nodes[c[j]].prev == Some(c[i]);
        ChainInjective(h, l, ns, m + 1, i);
        ChainInjective(h, l, ns, m + 1, j);
        ChainInjective(h, l, ns, m, i);
      } else if j == m + 1 {
        assert c'[i] == last;
      }
    }
  }

  /** A linked data node's links point at its neighbours in the chain. */
  lemma Neighbours<T>(h: Heap<T>, l: List, ns: seq<Ref>, n: Ref)
    requires Valid(h, l, ns) && n in ns
    ensures var c, k := Chain(l, ns), IndexOf(ns, n);
      && c[k + 1] == n
      && c[k] in h.nodes && c[k + 2] in h.nodes
      && h.nodes[n].prev == Some(c[k]) && h.nodes[n].next == Some(c[k + 2])
      && c[k] != n && c[k + 2] != n && c[k] != c[k + 2]
  {
    var c, k := Chain(l, ns), IndexOf(ns, n);
    assert c[k + 1] == n;
    assert h.nodes[c[k]].next == Some(c[k + 1]) && h.nodes[c[k + 1]].prev == Some(c[k]);
    assert h.nodes[c[k + 1]].next == Some(c[k + 2]) && h.nodes[c[k + 2]].prev == Some(c[k + 1]);
    ChainInjective(h, l, ns, k, k + 1);
    ChainInjective(h, l, ns, k + 2, k + 1);
    ChainInjective(h, l, ns, k, k + 2);
  }

  /** The heap change `Remove` makes: `p->next = s`, `s->prev = p`, `n`'s links cleared. */
  ghost predicate SplicedOut<T>(h: Heap<T>, h': Heap<T>, p: Ref, n: Ref, s: Ref)
    requires p in h.nodes && n in h.nodes && s in h.nodes
  {
    && h'.free == h.free && h'.nodes.Keys == h.nodes.Keys
    && h'.nodes[p] == h.nodes[p].(next := Some(s))
    && h'.nodes[s] == h.nodes[s].(prev := Some(p))
    && h'.nodes[n] == h.nodes[n].(prev := None, next := None)
    && forall r :: r in h.nodes && r !in {p, n, s} ==> h'.nodes[r] == h.nodes[r]
  }

  /** A chain position other than the three `Remove` writes to keeps its node. */
  lemma Untouched<T>(h: Heap<T>, l: List, ns: seq<Ref>, k: nat, h': Heap<T>, a: nat)
    requires Valid(h, l, ns) && k < |ns|
    requires var c := Chain(l, ns); SplicedOut(h, h', c[k], c[k + 1], c[k + 2])
    requires a < |ns| + 2 && a != k && a != k + 1 && a != k + 2
    ensures Chain(l, ns)[a] in h'.nodes && h'.nodes[Chain(l, ns)[a]] == h.nodes[Chain(l, ns)[a]]
  {
    ChainInjective(h, l, ns, a, k);
    ChainInjective(h, l, ns, a, k + 1);
    ChainInjective(h, l, ns, a, k + 2);
  }

  /** The heap `Remove` leaves is linked along the chain without position `k`. */
  lemma UnsplicedLinked<T>(h: Heap<T>, l: List, ns: seq<Ref>, k: nat, h': Heap<T>)
    requires Valid(h, l, ns) && k < |ns|
    requires var c := Chain(l, ns); SplicedOut(h, h', c[k], c[k + 1], c[k + 2])
    ensures Linked(h', Chain(l, RemoveAt(ns, k)))
  {
    var c := Chain(l, ns);
    var c' := Chain(l, RemoveAt(ns, k));
    assert |c'| == |c| - 1;
    forall i | 0 <= i < |c'| ensures c'[i] == (if i <= k then c[i] else c[i + 1]) { }
    forall i, j | 0 <= i && j == i + 1 && j < |c'|
      ensures c'[i] in h'.nodes && c'[j] in h'.nodes
      ensures h'.nodes[c'[i]].next == Some(c'[j]) && h'.nodes[c'[j]].prev == Some(c'[i])
    {
      if j < k {
        assert h.nodes[c[i]].next == Some(c[j]) && h.nodes[c[j]].prev == Some(c[i]);
        Untouched(h, l, ns, k, h', i);
        Untouched(h, l, ns, k, h', j);
      } else if j == k {
        assert h.nodes[c[i]].next == Some(c[j]) && h.nodes[c[j]].prev == Some(c[i]);
        Untouched(h, l, ns, k, h', i);
      } else if i > k {
        assert h.nodes[c[i + 1]].next == Some(c[j + 1]) && h.nodes[c[j + 1]].prev == Some(c[i + 1]);
        Untouched(h, l, ns, k, h', j + 1);
        if i > k + 1 {
          Untouched(h, l, ns, k, h', i + 1);
        }
      } else {
        assert c'[i] == c[k] && c'[j] == c[k + 2];
      }
    }
  }

  /** The heap `Remove` leaves is valid for `ns` without position `k`. */
  lemma Unspliced<T>(h: Heap<T>, l: List, ns: seq<Ref>, k: nat, h': Heap<T>)
    requires Valid(h, l, ns) && k < |ns|
    requires var c := Chain(l, ns); SplicedOut(h, h', c[k], c[k + 1], c[k + 2])
    ensures Valid(h', l.(len := l.len - 1), RemoveAt(ns, k))
    ensures Values(h', RemoveAt(ns, k)) == RemoveAt(Values(h, ns), k)
    ensures ns[k] !in RemoveAt(ns, k)
  {
    var ns' := RemoveAt(ns, k);
    UnsplicedLinked(h, l, ns, k, h');
    forall a | 0 <= a < |ns'| ensures ns'[a] == ns[if a < k then a else a + 1] { }
    forall a | 0 <= a < |ns'| ensures ns'[a] != ns[k] && h'.nodes[ns'[a]].data == h.nodes[ns'[a]].data
    {
      var b := if a < k then a else a + 1;
      ChainInjective(h, l, ns, b + 1, k + 1);
      if b + 1 != k && b + 1 != k + 2 {
        Untouched(h, l, ns, k, h', b + 1);
      }
    }
    forall a, b | 0 <= a < b < |ns'| ensures ns'[a] != ns'[b]
    {
      var a', b' := if a < k then a else a + 1, if b < k then b else b + 1;
      assert ns'[a] == ns[a'] && ns'[b] == ns[b'];
    }
    assert h'.nodes[l.head].prev == h.nodes[l.head].prev by {
      ChainInjective(h, l, ns, 0, k + 1);
      ChainInjective(h, l, ns, 0, k + 2);
    }
    assert h'.nodes[l.tail].next == h.nodes[l.tail].next by {
      ChainInjective(h, l, ns, |ns| + 1, k);
      ChainInjective(h, l, ns, |ns| + 1, k + 1);
    }
  }

  // ---------------------------------------------------------------------
  // Construction and O(1) operations

  /** `List()`: two fresh sentinels linked to each other, `len == 0`. */
  function NewList<T>(h: Heap<T>): (s: State<T>)
    requires WellFormed(h)
    ensures Valid(s.heap, s.list, [])
    ensures s.list.head !in h.nodes && s.list.tail !in h.nodes
    ensures s.list.len == 0
    ensures Preserves(h, s.heap, {})
  {
    var (h1, head) := Alloc(h, Node(Sentinel, None, None));
    var (h2, tail) := Alloc(h1, Node(Sentinel, None, None));
    var h3 := SetNext(h2, head, Some(tail));
    var h4 := SetPrev(h3, tail, Some(head));
    State(h4, List(head, tail, 0))
  }

  /** `PushFront(node)`: link the unlinked data node `n` right after `head`. */
  function PushFrontNode<T>(h: Heap<T>, l: List, n: Ref, ghost ns: seq<Ref>): (s: State<T>)
    requires Valid(h, l, ns)
    requires IsData(h, n) && n !in ns
    ensures Valid(s.heap, s.list, [n] + ns)
    ensures Values(s.heap, [n] + ns) == [h.nodes[n].data.value] + Values(h, ns)
    ensures s.list == l.(len := l.len + 1)
    ensures s.heap.nodes.Keys == h.nodes.Keys && s.heap.free == h.free
    ensures Preserves(h, s.heap, {l.head, n, Chain(l, ns)[1]})
  {
    Ends(h, l, ns);
    var h1 := SetPrev(h, n, Some(l.head));
    var h2 := SetNext(h1, n, h1.nodes[l.head].next);
    var h3 := SetPrev(h2, h2.nodes[l.head].next.value, Some(n));
    var h4 := SetNext(h3, l.head, Some(n));
    SplicedFront(h, l, n, ns, h4);
    State(h4, l.(len := l.len + 1))
  }

  /** `PushBack(node)`: link the unlinked data node `n` right before `tail`. */
  function PushBackNode<T>(h: Heap<T>, l: List, n: Ref, ghost ns: seq<Ref>): (s: State<T>)
    requires Valid(h, l, ns)
    requires IsData(h, n) && n !in ns
    ensures Valid(s.heap, s.list, ns + [n])
    ensures Values(s.heap, ns + [n]) == Values(h, ns) + [h.nodes[n].data.value]
    ensures s.list == l.(len := l.len + 1)
    ensures s.heap.nodes.Keys == h.nodes.Keys && s.heap.free == h.free
    ensures Preserves(h, s.heap, {l.tail, n, Chain(l, ns)[|ns|]})
  {
    Ends(h, l, ns);
    var h1 := SetPrev(h, n, h.nodes[l.tail].prev);
    var h2 := SetNext(h1, n, Some(l.tail));
    var h3 := SetNext(h2, h2.nodes[l.tail].prev.value, Some(n));
    var h4 := SetPrev(h3, l.tail, Some(n));
    SplicedBack(h, l, n, ns, h4);
    State(h4, l.(len := l.len + 1))
  }

  /** `PushFront(data)`: a new node holding `x`, allocated at `h.free`, becomes the first. */
  function PushFront<T>(h: Heap<T>, l: List, x: T, ghost ns: seq<Ref>): (s: State<T>)
    requires Valid(h, l, ns)
    ensures s.heap.nodes.Keys == h.nodes.Keys + {h.free} && s.heap.free == h.free + 1
    ensures Valid(s.heap, s.list, [h.free] + ns)
    ensures Values(s.heap, [h.free] + ns) == [x] + Values(h, ns)
    ensures s.list == l.(len := l.len + 1)
    ensures Preserves(h, s.heap, {l.head, Chain(l, ns)[1]})
  {
    var (h1, n) := Alloc(h, Node(Item(x), None, None));
    ValidFrame(h, h1, l, ns, {});
    PushFrontNode(h1, l, n, ns)
  }

  /** `PushBack(data)`: a new node holding `x`, allocated at `h.free`, becomes the last. */
  function PushBack<T>(h: Heap<T>, l: List, x: T, ghost ns: seq<Ref>): (s: State<T>)
    requires Valid(h, l, ns)
    ensures s.heap.nodes.Keys == h.nodes.Keys + {h.free} && s.heap.free == h.free + 1
    ensures Valid(s.heap, s.list, ns + [h.free])
    ensures Values(s.heap, ns + [h.free]) == Values(h, ns) + [x]
    ensures s.list == l.(len := l.len + 1)
    ensures Preserves(h, s.heap, {l.tail, Chain(l, ns)[|ns|]})
  {
    var (h1, n) := Alloc(h, Node(Item(x), None, None));
    ValidFrame(h, h1, l, ns, {});
    PushBackNode(h1, l, n, ns)
  }

  /** `Remove(node)`: a null handle changes nothing; otherwise the linked data
      node `n` is spliced out, its links cleared and `len` decremented. */
  function Remove<T>(h: Heap<T>, l: List, node: Option<Ref>, ghost ns: seq<Ref>): (s: State<T>)
    requires Valid(h, l, ns)
    requires node.Some? ==> node.value in ns
    ensures node.None? ==> s == State(h, l)
    ensures node.Some? ==>
      var n, k := node.value, IndexOf(ns, node.value);
      && Valid(s.heap, s.list, RemoveAt(ns, k))
      && Values(s.heap, RemoveAt(ns, k)) == RemoveAt(Values(h, ns), k)
      && n !in RemoveAt(ns, k)
      && s.list == l.(len := l.len - 1)
      && s.heap.nodes.Keys == h.nodes.Keys && s.heap.free == h.free
      && s.heap.nodes[n] == Node(h.nodes[n].data, None, None)
      && Preserves(h, s.heap, {Chain(l, ns)[k], n, Chain(l, ns)[k + 2]})
  {
    if node.None? then State(h, l)
    else
      var n := node.value;
      ghost var k := IndexOf(ns, n);
      Neighbours(h, l, ns, n);
      var h1 := SetNext(h, h.nodes[n].prev.value, h.nodes[n].next);
      var h2 := SetPrev(h1, h1.nodes[n].next.value, h1.nodes[n].prev);
      var h3 := SetPrev(h2, n, None);
      var h4 := SetNext(h3, n, None);
      Unspliced(h, l, ns, k, h4);
      State(h4, l.(len := l.len - 1))
  }

  /** `MoveToFront(node)`: a null handle changes nothing; otherwise `n` is
      unlinked and relinked first, `len` unchanged. */
  function MoveToFront<T>(h: Heap<T>, l: List, node: Option<Ref>, ghost ns: seq<Ref>): (s: State<T>)
    requires Valid(h, l, ns)
    requires node.Some? ==> node.value in ns
    ensures node.None? ==> s == State(h, l)
    ensures node.Some? ==>
      var n, k := node.value, IndexOf(ns, node.value);
      && Valid(s.heap, s.list, [n] + RemoveAt(ns, k))
      && Values(s.heap, [n] + RemoveAt(ns, k)) == [Values(h, ns)[k]] + RemoveAt(Values(h, ns), k)
      && s.list == l
      && s.heap.nodes.Keys == h.nodes.Keys && s.heap.free == h.free
      && Preserves(h, s.heap, Footprint(l, ns))
  {
    if node.None? then State(h, l)
    else
      var r := Remove(h, l, node, ns);
      ghost var rest := RemoveAt(ns, IndexOf(ns, node.value));
      MovedWithin(l, ns, rest, IndexOf(ns, node.value));
      PushFrontNode(r.heap, r.list, node.value, rest)
  }

  /** `MoveToBack(node)`: a null handle changes nothing; otherwise `n` is
      unlinked and relinked last, `len` unchanged. */
  function MoveToBack<T>(h: Heap<T>, l: List, node: Option<Ref>, ghost ns: seq<Ref>): (s: State<T>)
    requires Valid(h, l, ns)
    requires node.Some? ==> node.value in ns
    ensures node.None? ==> s == State(h, l)
    ensures node.Some? ==>
      var n, k := node.value, IndexOf(ns, node.value);
      && Valid(s.heap, s.list, RemoveAt(ns, k) + [n])
      && Values(s.heap, RemoveAt(ns, k) + [n]) == RemoveAt(Values(h, ns), k) + [Values(h, ns)[k]]
      && s.list == l
      && s.heap.nodes.Keys == h.nodes.Keys && s.heap.free == h.free
      && Preserves(h, s.heap, Footprint(l, ns))
  {
    if node.None? then State(h, l)
    else
      var r := Remove(h, l, node, ns);
      ghost var rest := RemoveAt(ns, IndexOf(ns, node.value));
      MovedWithin(l, ns, rest, IndexOf(ns, node.value));
      PushBackNode(r.heap, r.list, node.value, rest)
  }

  /** The chain after removing position `k` uses only addresses of the old chain. */
  lemma MovedWithin(l: List, ns: seq<Ref>, rest: seq<Ref>, k: nat)
    requires k < |ns| && rest == RemoveAt(ns, k)
    ensures Footprint(l, rest) <= Footprint(l, ns)
  {
    forall r | r in Chain(l, rest) ensures r in Chain(l, ns)
    {
      if r in rest {
        var a :| 0 <= a < |rest| && rest[a] == r;
        assert r == ns[if a < k then a else a + 1];
      }
    }
  }

  /** `Front()`: the first data node, or the empty-list error. */
  function Front<T>(h: Heap<T>, l: List, ghost ns: seq<Ref>): (r: Result<Ref, ListError>)
    requires Valid(h, l, ns)
    ensures r.Failure? <==> |ns| == 0
    ensures r.Success? ==> r.value == ns[0] && IsData(h, r.value)
  {
    Ends(h, l, ns);
    if h.nodes[l.head].next == Some(l.tail) then Failure(EmptyList)
    else Success(h.nodes[l.head].next.value)
  }

  /** `Back()`: the last data node, or the empty-list error. */
  function Back<T>(h: Heap<T>, l: List, ghost ns: seq<Ref>): (r: Result<Ref, ListError>)
    requires Valid(h, l, ns)
    ensures r.Failure? <==> |ns| == 0
    ensures r.Success? ==> r.value == ns[|ns| - 1] && IsData(h, r.value)
  {
    Ends(h, l, ns);
    if h.nodes[l.head].next == Some(l.tail) then Failure(EmptyList)
    else Success(h.nodes[l.tail].prev.value)
  }

  /** `IsEmpty()`: `head->next == tail`, which holds exactly when there is no data node. */
  function IsEmpty<T>(h: Heap<T>, l: List, ghost ns: seq<Ref>): (b: bool)
    requires Valid(h, l, ns)
    ensures b <==> |ns| == 0
    ensures b <==> Size(h, l, ns) == 0
  {
    Ends(h, l, ns);
    h.nodes[l.head].next == Some(l.tail)
  }

  /** `Size()`: the maintained counter, which equals the number of data nodes. */
  function Size<T>(h: Heap<T>, l: List, ghost ns: seq<Ref>): (n: nat)
    requires Valid(h, l, ns)
    ensures n == |ns| == |Values(h, ns)|
  {
    l.len
  }

  // ---------------------------------------------------------------------
  // Properties relating several calls

  /** `MoveToFront(Front())` changes neither the node order nor the elements. */
  lemma MoveFrontToFront<T>(h: Heap<T>, l: List, ns: seq<Ref>)
    requires Valid(h, l, ns) && |ns| > 0
    ensures var s := MoveToFront(h, l, Some(Front(h, l, ns).value), ns);
      Valid(s.heap, s.list, ns) && Values(s.heap, ns) == Values(h, ns) && s.list == l
  {
    IndexOfFirst(ns, ns[0], 0);
    assert [ns[0]] + RemoveAt(ns, 0) == ns;
    assert [Values(h, ns)[0]] + RemoveAt(Values(h, ns), 0) == Values(h, ns);
  }

  /** `MoveToBack(Back())` changes neither the node order nor the elements. */
  lemma MoveBackToBack<T>(h: Heap<T>, l: List, ns: seq<Ref>)
    requires Valid(h, l, ns) && |ns| > 0
    ensures var s := MoveToBack(h, l, Some(Back(h, l, ns).value), ns);
      Valid(s.heap, s.list, ns) && Values(s.heap, ns) == Values(h, ns) && s.list == l
  {
    var m := |ns| - 1;
    IndexOfDistinct(ns, m);
    assert RemoveAt(ns, m) + [ns[m]] == ns;
    assert RemoveAt(Values(h, ns), m) + [Values(h, ns)[m]] == Values(h, ns);
  }

  /** `MoveToBack(Front())` rotates the list left by one. */
  lemma MoveFrontToBack<T>(h: Heap<T>, l: List, ns: seq<Ref>)
    requires Valid(h, l, ns) && |ns| > 0
    ensures var s := MoveToBack(h, l, Some(Front(h, l, ns).value), ns);
      && Valid(s.heap, s.list, ns[1..] + [ns[0]])
      && Values(s.heap, ns[1..] + [ns[0]]) == Values(h, ns)[1..] + [Values(h, ns)[0]]
      && s.list == l
  {
    IndexOfFirst(ns, ns[0], 0);
    RemoveEnds(ns);
    RemoveEnds(Values(h, ns));
  }

  /** Moving the node at position `k` to the front, stated with the position rather than the search. */
  lemma MoveToFrontAt<T>(h: Heap<T>, l: List, ns: seq<Ref>, k: nat)
    requires Valid(h, l, ns) && k < |ns|
    ensures var s := MoveToFront(h, l, Some(ns[k]), ns);
      && Valid(s.heap, s.list, [ns[k]] + RemoveAt(ns, k))
      && Values(s.heap, [ns[k]] + RemoveAt(ns, k)) == [Values(h, ns)[k]] + RemoveAt(Values(h, ns), k)
      && s.list == l
  {
    IndexOfDistinct(ns, k);
  }

  /** `MoveToFront(Back())` rotates the list right by one. */
  lemma MoveBackToFront<T>(h: Heap<T>, l: List, ns: seq<Ref>)
    requires Valid(h, l, ns) && |ns| > 0
    ensures var m := |ns| - 1;
      var s := MoveToFront(h, l, Some(ns[m]), ns);
      && Valid(s.heap, s.list, [ns[m]] + ns[..m])
      && Values(s.heap, [ns[m]] + ns[..m]) == [Values(h, ns)[m]] + Values(h, ns)[..m]
      && s.list == l
  {
    var m, vs := |ns| - 1, Values(h, ns);
    MoveToFrontAt(h, l, ns, m);
    RemoveEnds(ns);
    RemoveEnds(vs);
    assert [ns[m]] + RemoveAt(ns, m) == [ns[m]] + ns[..m];
    assert [vs[m]] + RemoveAt(vs, m) == [vs[m]] + vs[..m];
  }

  /** Rotating right by one undoes rotating left by one. */
  lemma RotateUndo<X>(s: seq<X>, m: nat)
    requires m + 1 == |s|
    ensures var r := s[1..] + [s[0]]; [r[m]] + r[..m] == s
  {
    var r := s[1..] + [s[0]];
    assert r[..m] == s[1..];
  }

  /** `MoveToBack(Front())` followed by `MoveToFront(Back())` restores the list. */
  lemma MoveRoundTrip<T>(h: Heap<T>, l: List, ns: seq<Ref>)
    requires Valid(h, l, ns) && |ns| > 0
    ensures var ns1 := ns[1..] + [ns[0]];
      var s1 := MoveToBack(h, l, Some(Front(h, l, ns).value), ns);
      && Valid(s1.heap, s1.list, ns1)
      && var s2 := MoveToFront(s1.heap, s1.list, Some(Back(s1.heap, s1.list, ns1).value), ns1);
      && Valid(s2.heap, s2.list, ns)
      && Values(s2.heap, ns) == Values(h, ns)
      && s2.list == l
  {
    var vs, m := Values(h, ns), |ns| - 1;
    var ns1 := ns[1..] + [ns[0]];
    assert Front(h, l, ns).value == ns[0];
    MoveFrontToBack(h, l, ns);
    var s1 := MoveToBack(h, l, Some(ns[0]), ns);
    assert |ns1| - 1 == m;
    assert Back(s1.heap, s1.list, ns1).value == ns1[m];
    MoveBackToFront(s1.heap, s1.list, ns1);
    var s2 := MoveToFront(s1.heap, s1.list, Some(ns1[m]), ns1);
    RotateUndo(ns, m);
    RotateUndo(vs, m);
  }
}
