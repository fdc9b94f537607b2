/** The free store the list's nodes live in.  Nodes are addressed by `Ref`;
    a field write through a pointer is a map update, and allocation hands out
    the next unused address. */
module Arena {
  import opened Wrappers

  /** The address of a node. */
  type Ref = nat

  /** What a node stores.  The sentinels hold no element (the C++ code stores
      a default-constructed `T()` there, which nobody reads). */
  datatype Payload<T> = Sentinel | Item(value: T)

  /** `Node<T>`: the payload plus the backward and forward links.  An empty
      link is `None`. */
  datatype Node<T> = Node(data: Payload<T>, prev: Option<Ref>, next: Option<Ref>)

  /** All nodes ever allocated, and the next free address. */
  datatype Heap<T> = Heap(nodes: map<Ref, Node<T>>, free: Ref)

  /** Every allocated address lies below `free`, so `free` is unused. */
  ghost predicate WellFormed<T>(h: Heap<T>)
  {
    forall r :: r in h.nodes ==> r < h.free
  }

  /** `h'` still holds every node of `h`, and each one outside `touched` is
      exactly as it was. */
  ghost predicate Preserves<T>(h: Heap<T>, h': Heap<T>, touched: set<Ref>)
  {
    && h.nodes.Keys <= h'.nodes.Keys
    && forall r :: r in h.nodes && r !in touched ==> h'.nodes[r] == h.nodes[r]
  }

  /** `std::make_shared<Item>(...)`: store `n` at the next free address. */
  function Alloc<T>(h: Heap<T>, n: Node<T>): (r: (Heap<T>, Ref))
    requires WellFormed(h)
    ensures r.1 == h.free && r.1 !in h.nodes
    ensures WellFormed(r.0) && r.0.nodes == h.nodes[r.1 := n]
  {
    (Heap(h.nodes[h.free := n], h.free + 1), h.free)
  }

  /** The write `r->next = link`. */
  function SetNext<T>(h: Heap<T>, r: Ref, link: Option<Ref>): (h': Heap<T>)
    requires r in h.nodes
  {
    h.(nodes := h.nodes[r := h.nodes[r].(next := link)])
  }

  /** The write `r->prev = link`. */
  function SetPrev<T>(h: Heap<T>, r: Ref, link: Option<Ref>): (h': Heap<T>)
    requires r in h.nodes
  {
    h.(nodes := h.nodes[r := h.nodes[r].(prev := link)])
  }

  /** The write `r->data = x` through a node handle. */
  function SetData<T>(h: Heap<T>, r: Ref, x: T): (h': Heap<T>)
    requires r in h.nodes
  {
    h.(nodes := h.nodes[r := h.nodes[r].(data := Item(x))])
  }

  /** `std::swap(a->data, b->data)`. */
  function SwapData<T>(h: Heap<T>, a: Ref, b: Ref): (h': Heap<T>)
    requires a in h.nodes && b in h.nodes
  {
    var da, db := h.nodes[a].data, h.nodes[b].data;
    h.(nodes := h.nodes[a := h.nodes[a].(data := db)][b := h.nodes[b].(data := da)])
  }
}
