/**
 * The long-term-memory graph: a content-addressed store of nodes, at most one
 * node per content value, with typed outgoing edges, a time-decayed activation
 * per node, dependent-content closure on node creation, and the field
 * rewriting that surrounds persisting the nodes.
 */
module LtmGraph {
  import opened Wrappers

  // ---------------------------------------------------------------------------
  // Nodes, edges and content fields.
  // ---------------------------------------------------------------------------

  /** The kind of an edge; `Related` is the default kind of an added edge. */
  datatype EdgeType = Related | Named(name: string)

  /** An outgoing edge to `toNode`, of kind `edgeType`. */
  datatype Edge<C> = Edge(toNode: Node<C>, edgeType: EdgeType)

  /** The value of one attribute of a content: a plain value, or (while mangled) a node. */
  datatype Slot<C> = Value(v: C) | NodeRef(node: Node<C>)

  /** Errors the graph raises. */
  datatype FargError = EdgeTypeConflict

  /**
   * One item read back from a dump: a node, the end of the stream (EOFError), or
   * an item the reader rejects with a ValueError. Both stop the loading loop.
   */
  datatype Read<N> = Record(node: N) | EndOfStream | Unreadable

  /** What is written out for one node: the node together with its mangled attributes. */
  datatype Dumped<C> = Dumped(node: Node<C>, fields: map<string, Slot<C>>)

  /** The threshold of IsContentSufficientlyActive when the caller gives none. */
  const DefaultThreshold: real := 0.8

  /** A node of the graph. `fields` is the attribute dictionary of its content. */
  class Node<C> {
    const content: C
    var fields: map<string, Slot<C>>
    var outgoingEdges: seq<Edge<C>>
    /** Activation as of time `lastUpdate`; the current value follows from a decay law. */
    var base: real
    var lastUpdate: int

    constructor (content: C, fields: map<string, Slot<C>>)
      ensures this.content == content && this.fields == fields
      ensures outgoingEdges == [] && base == 0.0 && lastUpdate == 0
    {
      this.content := content;
      this.fields := fields;
      outgoingEdges := [];
      base := 0.0;
      lastUpdate := 0;
    }

    /** The state of a node just created with `fields`: no edges and no activation yet. */
    ghost predicate Untouched(fields: map<string, Slot<C>>)
      reads this
    {
      this.fields == fields && outgoingEdges == [] && base == 0.0 && lastUpdate == 0
    }

    /** The activation at time `now` under the decay law `decay` (base, elapsed time). */
    function Activation(decay: (real, int) -> real, now: int): real
      reads this
    {
      decay(base, now - lastUpdate)
    }

    /** Restarts decay at `now` from the current activation raised by `amount`. */
    method IncreaseActivation(decay: (real, int) -> real, amount: real, now: int)
      modifies this`base, this`lastUpdate
      ensures base == old(Activation(decay, now)) + amount && lastUpdate == now
    {
      base := decay(base, now - lastUpdate) + amount;
      lastUpdate := now;
    }

    /**
     * The edge-insertion loop: the first edge to `to` decides (same kind: nothing
     * to do; another kind: an error); with no edge to `to`, one is appended.
     */
    method Link(to: Node<C>, t: EdgeType) returns (outcome: Outcome<FargError>)
      modifies this`outgoingEdges
      ensures AddedEdge(old(outgoingEdges), to, t).None? ==>
        outcome == Fail(EdgeTypeConflict) && outgoingEdges == old(outgoingEdges)
      ensures AddedEdge(old(outgoingEdges), to, t).Some? ==>
        outcome == Pass && outgoingEdges == AddedEdge(old(outgoingEdges), to, t).value
    {
      for i := 0 to |outgoingEdges|
        invariant forall j | 0 <= j < i :: outgoingEdges[j].toNode != to
      {
        if outgoingEdges[i].toNode == to {
          if outgoingEdges[i].edgeType != t {
            return Fail(EdgeTypeConflict);
          }
          return Pass;
        }
      }
      outgoingEdges := outgoingEdges + [Edge(to, t)];
      return Pass;
    }
  }

  // ---------------------------------------------------------------------------
  // Edge insertion, as a function of the edge list.
  // ---------------------------------------------------------------------------

  /** The index of the first edge to `to`, when there is one. */
  predicate FirstEdgeTo<C>(edges: seq<Edge<C>>, to: Node<C>, k: int)
  {
    0 <= k < |edges| && edges[k].toNode == to && forall j | 0 <= j < k :: edges[j].toNode != to
  }

  /** Whether some edge goes to `to`. */
  predicate HasEdgeTo<C>(edges: seq<Edge<C>>, to: Node<C>)
  {
    exists k | 0 <= k < |edges| :: edges[k].toNode == to
  }

  /** The index of the first edge to `to`, or -1 when there is none. */
  function FirstIndexTo<C>(edges: seq<Edge<C>>, to: Node<C>): (k: int)
    ensures k == -1 || FirstEdgeTo(edges, to, k)
    ensures k == -1 <==> !HasEdgeTo(edges, to)
  {
    if edges == [] then -1
    else if edges[0].toNode == to then 0
    else
      var k := FirstIndexTo(edges[1..], to);
      assert forall j | 0 < j < |edges| :: edges[j] == edges[1..][j - 1];
      if k == -1 then -1 else k + 1
  }

  /**
   * The edge list after adding an edge to `to` of kind `t`, or None when the
   * first existing edge to `to` has another kind (the error case).
   */
  function AddedEdge<C>(edges: seq<Edge<C>>, to: Node<C>, t: EdgeType): (r: Option<seq<Edge<C>>>)
    ensures r.None? <==> exists k | FirstEdgeTo(edges, to, k) :: edges[k].edgeType != t
    ensures r.Some? && HasEdgeTo(edges, to) ==> r.value == edges
    ensures !HasEdgeTo(edges, to) ==> r == Some(edges + [Edge(to, t)])
  {
    var k := FirstIndexTo(edges, to);
    if k == -1 then Some(edges + [Edge(to, t)])
    else if edges[k].edgeType == t then Some(edges)
    else None
  }

  /** No two edges of the list go to the same node. */
  predicate OneEdgePerTarget<C>(edges: seq<Edge<C>>)
  {
    forall i, j | 0 <= i < j < |edges| :: edges[i].toNode != edges[j].toNode
  }

  /** Adding an edge keeps at most one edge per target. */
  lemma AddedEdgeKeepsOnePerTarget<C>(edges: seq<Edge<C>>, to: Node<C>, t: EdgeType)
    requires OneEdgePerTarget(edges)
    ensures AddedEdge(edges, to, t).Some? ==> OneEdgePerTarget(AddedEdge(edges, to, t).value)
  {
  }

  /** With one edge per target, adding fails exactly when an edge to `to` of another kind exists. */
  lemma AddedEdgeConflict<C>(edges: seq<Edge<C>>, to: Node<C>, t: EdgeType)
    requires OneEdgePerTarget(edges)
    ensures AddedEdge(edges, to, t).None? <==>
      exists k | 0 <= k < |edges| :: edges[k].toNode == to && edges[k].edgeType != t
  {
    if k :| 0 <= k < |edges| && edges[k].toNode == to && edges[k].edgeType != t {
      assert FirstEdgeTo(edges, to, k);
    }
  }

  /** Adding the same edge again changes nothing: the list keeps exactly one such edge. */
  lemma AddedEdgeIdempotent<C>(edges: seq<Edge<C>>, to: Node<C>, t: EdgeType)
    requires AddedEdge(edges, to, t).Some?
    ensures AddedEdge(AddedEdge(edges, to, t).value, to, t) == AddedEdge(edges, to, t)
  {
    var es := AddedEdge(edges, to, t).value;
    if HasEdgeTo(edges, to) {
      assert es == edges;
    } else {
      assert es == edges + [Edge(to, t)];
      assert FirstEdgeTo(es, to, |edges|);
      assert HasEdgeTo(es, to);
      forall k | FirstEdgeTo(es, to, k) ensures es[k].edgeType == t {
        assert k == |edges|;
      }
    }
  }

  // ---------------------------------------------------------------------------
  // Mangling: content attributes that are stored contents become their nodes
  // while a node is written out, and nodes become contents again afterwards.
  // ---------------------------------------------------------------------------

  /** The attribute value with a stored content replaced by its node. */
  function MangledSlot<C>(s: Slot<C>, index: map<C, Node<C>>): Slot<C>
  {
    if s.Value? && s.v in index then NodeRef(index[s.v]) else s
  }

  /** The attribute value with a node replaced by that node's content. */
  function UnmangledSlot<C>(s: Slot<C>): Slot<C>
  {
    if s.NodeRef? then Value(s.node.content) else s
  }

  /** The attributes after mangling with the content index `index`. */
  function Mangled<C>(f: map<string, Slot<C>>, index: map<C, Node<C>>): map<string, Slot<C>>
  {
    map k | k in f :: MangledSlot(f[k], index)
  }

  /** The attributes after unmangling. */
  function Unmangled<C>(f: map<string, Slot<C>>): map<string, Slot<C>>
  {
    map k | k in f :: UnmangledSlot(f[k])
  }

  /** Every index entry is the node of its own content. */
  predicate IndexConsistent<C>(index: map<C, Node<C>>)
  {
    forall c | c in index :: index[c].content == c
  }

  /** No attribute holds a node: the state of a content's attributes outside a write. */
  predicate Plain<C>(f: map<string, Slot<C>>)
  {
    forall k | k in f :: f[k].Value?
  }

  /** Mangling then unmangling has the effect of unmangling alone. */
  lemma UnmangleAfterMangle<C>(f: map<string, Slot<C>>, index: map<C, Node<C>>)
    requires IndexConsistent(index)
    ensures Unmangled(Mangled(f, index)) == Unmangled(f)
  {
    forall k | k in f ensures UnmangledSlot(MangledSlot(f[k], index)) == UnmangledSlot(f[k]) {
      if f[k].Value? && f[k].v in index {
        assert index[f[k].v].content == f[k].v;
      }
    }
  }

  /** Unmangling leaves the attributes as they are exactly when none of them holds a node. */
  lemma UnmangledIsIdentity<C>(f: map<string, Slot<C>>)
    ensures Unmangled(f) == f <==> forall k | k in f :: f[k].Value?
  {
    if Unmangled(f) == f {
      forall k | k in f ensures f[k].Value? {
        assert Unmangled(f)[k] == UnmangledSlot(f[k]);
      }
    }
  }

  /** So unmangling after mangling restores attributes that held no node. */
  lemma MangleRoundTrip<C>(f: map<string, Slot<C>>, index: map<C, Node<C>>)
    requires IndexConsistent(index)
    requires forall k | k in f :: f[k].Value?
    ensures Unmangled(Mangled(f, index)) == f
  {
    UnmangleAfterMangle(f, index);
    UnmangledIsIdentity(f);
  }

  // ---------------------------------------------------------------------------
  // Loading and registering nodes, as functions of the input.
  // ---------------------------------------------------------------------------

  /** The nodes read from a stream before its first end or unreadable item. */
  function Loaded<N>(s: seq<Read<N>>): (r: seq<N>)
    ensures |r| <= |s|
    ensures forall i | 0 <= i < |r| :: s[i] == Record(r[i])
    ensures |r| < |s| ==> !s[|r|].Record?
  {
    if s == [] || !s[0].Record? then [] else [s[0].node] + Loaded(s[1..])
  }

  /** The contents of a list of nodes. */
  function Contents<C>(xs: seq<Node<C>>): set<C>
  {
    set k | 0 <= k < |xs| :: xs[k].content
  }

  /**
   * The nodes of xs that registering them one after another appends, when the
   * contents in `seen` are already registered: each node whose content is
   * neither seen nor that of an earlier node of xs.
   */
  function NewlyRegistered<C>(xs: seq<Node<C>>, seen: set<C>): (r: seq<Node<C>>)
    ensures forall i | 0 <= i < |r| :: r[i].content !in seen
    ensures forall i, j | 0 <= i < j < |r| :: r[i].content != r[j].content
    ensures seen + Contents(r) == seen + Contents(xs)
  {
    if xs == [] then []
    else
      var init := xs[..|xs| - 1];
      var x := xs[|xs| - 1];
      var r := NewlyRegistered(init, seen);
      assert xs == init + [x];
      assert forall i | 0 <= i < |r| :: r[i].content in Contents(r);
      ContentsAppend(init, x);
      ContentsAppend(r, x);
      if x.content in seen + Contents(init) then r else r + [x]
  }

  /**
   * The index and node list after adding each node of xs in turn (a node is
   * kept only when its content is not yet indexed).
   */
  function RegisterAll<C>(m: map<C, Node<C>>, ns: seq<Node<C>>, xs: seq<Node<C>>): (map<C, Node<C>>, seq<Node<C>>)
  {
    if xs == [] then (m, ns)
    else
      var r := RegisterAll(m, ns, xs[..|xs| - 1]);
      var x := xs[|xs| - 1];
      if x.content in r.0 then r else (r.0[x.content := x], r.1 + [x])
  }

  /** Adding the nodes xs appends exactly the newly registered ones and indexes all their contents. */
  lemma {:induction false} RegisteredAll<C>(m: map<C, Node<C>>, ns: seq<Node<C>>, xs: seq<Node<C>>)
    ensures RegisterAll(m, ns, xs).1 == ns + NewlyRegistered(xs, m.Keys)
    ensures RegisterAll(m, ns, xs).0.Keys == m.Keys + Contents(xs)
  {
    if xs != [] {
      var init := xs[..|xs| - 1];
      var x := xs[|xs| - 1];
      assert xs == init + [x];
      RegisteredAll(m, ns, init);
      RegisteredStep(init, x, m.Keys);
      ContentsAppend(init, x);
      var r := RegisterAll(m, ns, init);
      if x.content in r.0 {
        assert RegisterAll(m, ns, xs) == r;
      } else {
        assert RegisterAll(m, ns, xs) == (r.0[x.content := x], r.1 + [x]);
      }
    }
  }

  /** Registering one more node: it is kept exactly when its content is new. */
  lemma RegisteredStep<C>(xs: seq<Node<C>>, x: Node<C>, seen: set<C>)
    ensures NewlyRegistered(xs + [x], seen) ==
      if x.content in seen + Contents(xs) then NewlyRegistered(xs, seen) else NewlyRegistered(xs, seen) + [x]
  {
    assert (xs + [x])[..|xs|] == xs;
  }

  /** Appending a node adds its content. */
  lemma ContentsAppend<C>(xs: seq<Node<C>>, x: Node<C>)
    ensures Contents(xs + [x]) == Contents(xs) + {x.content}
  {
    assert forall k | 0 <= k < |xs| :: (xs + [x])[k] == xs[k];
    assert (xs + [x])[|xs|] == x;
  }

  /**
   * The first node of xs with a given unseen content is registered, and it is
   * the only registered node with that content: the first wins.
   */
  lemma {:induction false} FirstWins<C>(xs: seq<Node<C>>, seen: set<C>, k: int)
    requires 0 <= k < |xs| && xs[k].content !in seen
    requires forall j | 0 <= j < k :: xs[j].content != xs[k].content
    ensures xs[k] in NewlyRegistered(xs, seen)
    ensures forall i | 0 <= i < |NewlyRegistered(xs, seen)| && NewlyRegistered(xs, seen)[i].content == xs[k].content ::
      NewlyRegistered(xs, seen)[i] == xs[k]
  {
    var init := xs[..|xs| - 1];
    if k < |xs| - 1 {
      FirstWins(init, seen, k);
    } else {
      assert xs[k].content !in Contents(init);
    }
  }

  // ---------------------------------------------------------------------------
  // The graph.
  // ---------------------------------------------------------------------------

  /**
   * The index m and the node list ns describe each other: every entry is the
   * node of its own content and sits in ns (at pos), and every node of ns is
   * the entry for its content, so ns holds one node per content.
   */
  ghost predicate Indexes<C>(m: map<C, Node<C>>, ns: seq<Node<C>>, pos: map<C, int>)
  {
    && (forall c | c in m :: m[c].content == c && c in pos && 0 <= pos[c] < |ns| && ns[pos[c]] == m[c])
    && (forall i | 0 <= i < |ns| :: ns[i].content in m && m[ns[i].content] == ns[i] && pos[ns[i].content] == i)
  }

  /** Growing the node list at its end keeps the entry for k. */
  lemma EntryKept<C>(m0: map<C, Node<C>>, ns0: seq<Node<C>>, p0: map<C, int>,
                     m1: map<C, Node<C>>, ns1: seq<Node<C>>, p1: map<C, int>, k: C)
    requires Indexes(m0, ns0, p0) && Indexes(m1, ns1, p1) && ns0 <= ns1 && k in m0
    ensures k in m1 && m1[k] == m0[k]
  {
    assert ns1[p0[k]] == ns0[p0[k]];
  }

  /** Growing the node list at its end keeps every entry of the index. */
  lemma EntriesKept<C>(m0: map<C, Node<C>>, ns0: seq<Node<C>>, p0: map<C, int>,
                       m1: map<C, Node<C>>, ns1: seq<Node<C>>, p1: map<C, int>)
    requires Indexes(m0, ns0, p0) && Indexes(m1, ns1, p1) && ns0 <= ns1
    ensures Keeps(m0, m1)
  {
    forall k | k in m0 ensures k in m1 && m1[k] == m0[k] {
      EntryKept(m0, ns0, p0, m1, ns1, p1, k);
    }
  }

  /** m1 holds every entry of m0 unchanged. */
  ghost predicate Keeps<K, V>(m0: map<K, V>, m1: map<K, V>)
  {
    forall k | k in m0 :: k in m1 && m1[k] == m0[k]
  }

  /** When the node list grows at its end, the nodes of newly stored contents are the appended ones. */
  lemma NewEntriesAtEnd<C>(m0: map<C, Node<C>>, ns0: seq<Node<C>>, p0: map<C, int>,
                           m1: map<C, Node<C>>, ns1: seq<Node<C>>, p1: map<C, int>)
    requires Indexes(m0, ns0, p0) && Indexes(m1, ns1, p1) && ns0 <= ns1
    ensures forall k | k in m1 && k !in m0 :: |ns0| <= p1[k] < |ns1| && ns1[p1[k]] == m1[k]
  {
    forall j | 0 <= j < |ns0| ensures ns1[j].content in m0 {
      assert ns1[j] == ns0[j];
    }
  }

  /**
   * The graph over contents of type C. `dependent(c)` is the content that must
   * be stored whenever c is, `attributes(c)` the attribute dictionary of a
   * content, and `decay` the activation decay law (base, elapsed steps).
   * `universe` is a finite set of all contents that can arise, closed under
   * `dependent`; it bounds the recursion of GetNodeForContent.
   */
  class Graph<C(==)> {
    var nodes: seq<Node<C>>
    var contentToNode: map<C, Node<C>>
    /** Where each stored content's node sits in `nodes`. */
    ghost var position: map<C, int>
    const filename: Option<string>
    const dependent: C -> seq<C>
    const attributes: C -> map<string, C>
    const decay: (real, int) -> real
    ghost const universe: set<C>
    /** Elapsed time steps; the graph never advances it. */
    const timesteps: int := 0

    /** The index and the node list describe each other, one node per content. */
    ghost predicate Valid()
      reads this
    {
      Indexes(contentToNode, nodes, position)
    }

    /**
     * The universe holds the dependent content of its members, and activation
     * does not decay in zero elapsed steps.
     */
    ghost predicate Laws()
    {
      && (forall c, k {:trigger dependent(c)[k]} | c in universe && 0 <= k < |dependent(c)| :: dependent(c)[k] in universe)
      && (forall x: real :: decay(x, 0) == x)
    }

    /** Every stored content has its dependent content stored too. */
    ghost predicate Closed()
      reads this
    {
      forall c, k {:trigger dependent(c)[k]} | c in contentToNode && 0 <= k < |dependent(c)| :: dependent(c)[k] in contentToNode
    }

    /** A file is named (an empty name counts as none). */
    predicate HasFile()
    {
      filename.Some? && filename.value != ""
    }

    /**
     * A graph, loaded from `file` (the items a reader of the named file
     * produces) when a file is named.
     */
    constructor (filename: Option<string>, file: seq<Read<Node<C>>>, dependent: C -> seq<C>,
                 attributes: C -> map<string, C>, decay: (real, int) -> real, ghost universe: set<C>)
      requires forall c, k {:trigger dependent(c)[k]} | c in universe && 0 <= k < |dependent(c)| :: dependent(c)[k] in universe
      requires forall x: real :: decay(x, 0) == x
      ensures Valid() && Laws()
      ensures this.filename == filename && this.dependent == dependent && this.attributes == attributes
      ensures this.decay == decay && this.universe == universe && timesteps == 0
      ensures nodes == (if HasFile() then NewlyRegistered(Loaded(file), {}) else [])
    {
      nodes := [];
      contentToNode := map[];
      position := map[];
      this.filename := filename;
      this.dependent := dependent;
      this.attributes := attributes;
      this.decay := decay;
      this.universe := universe;
      new;
      assert Valid() && Laws();
      if filename.Some? && filename.value != "" {
        assert contentToNode.Keys == {};
        LoadNodes(file);
        assert nodes == [] + NewlyRegistered(Loaded(file), {});
      }
    }

    /** Adds each node read, until the end of the stream or an item rejected with a ValueError. */
    method LoadNodes(stream: seq<Read<Node<C>>>)
      requires Valid()
      modifies this`nodes, this`contentToNode, this`position
      ensures Valid()
      ensures (contentToNode, nodes) == RegisterAll(old(contentToNode), old(nodes), Loaded(stream))
      ensures nodes == old(nodes) + NewlyRegistered(Loaded(stream), old(contentToNode).Keys)
      ensures contentToNode.Keys == old(contentToNode).Keys + Contents(Loaded(stream))
    {
      var i := 0;
      ghost var loaded: seq<Node<C>> := [];
      while i < |stream| && stream[i].Record?
        invariant 0 <= i <= |stream| && |loaded| == i
        invariant forall k | 0 <= k < i :: stream[k] == Record(loaded[k])
        invariant Valid()
        invariant (contentToNode, nodes) == RegisterAll(old(contentToNode), old(nodes), loaded)
      {
        var node := stream[i].node;
        AddNode(node);
        assert (loaded + [node])[..i] == loaded;
        loaded := loaded + [node];
        i := i + 1;
      }
      assert loaded == Loaded(stream) by { LoadedIsPrefix(stream, loaded); }
      RegisteredAll(old(contentToNode), old(nodes), loaded);
    }

    /** The nodes of the records before the first non-record item are Loaded. */
    static lemma LoadedIsPrefix<N>(s: seq<Read<N>>, loaded: seq<N>)
      requires |loaded| <= |s|
      requires forall k | 0 <= k < |loaded| :: s[k] == Record(loaded[k])
      requires |loaded| < |s| ==> !s[|loaded|].Record?
      ensures loaded == Loaded(s)
    {
    }

    /** True if there are no nodes (equivalently, no content is stored). */
    function IsEmpty(): (r: bool)
      requires Valid()
      reads this
      ensures r <==> contentToNode.Keys == {}
    {
      if nodes != [] then assert nodes[0].content in contentToNode; false
      else true
    }

    /** Registers a node unless its content is already stored; the first node per content wins. */
    method AddNode(node: Node<C>)
      requires Valid()
      modifies this`nodes, this`contentToNode, this`position
      ensures Valid()
      ensures node.content in old(contentToNode) ==> nodes == old(nodes) && contentToNode == old(contentToNode)
      ensures node.content !in old(contentToNode) ==>
        nodes == old(nodes) + [node] && contentToNode == old(contentToNode)[node.content := node]
    {
      if node.content !in contentToNode {
        contentToNode := contentToNode[node.content := node];
        position := position[node.content := |nodes|];
        nodes := nodes + [node];
      }
    }

    /** The attributes a new content starts with. */
    function InitialFields(c: C): map<string, Slot<C>>
    {
      map k | k in attributes(c) :: Value(attributes(c)[k])
    }

    /**
     * The node for c, created (before its dependent content, so that cycles end)
     * when c is not yet stored.
     */
    method GetNodeForContent(c: C) returns (n: Node<C>)
      requires Valid() && Laws() && c in universe
      modifies this`nodes, this`contentToNode, this`position
      ensures Valid()
      ensures c in contentToNode && contentToNode[c] == n
      ensures Keeps(old(contentToNode), contentToNode)
      ensures old(nodes) <= nodes
      ensures c in old(contentToNode) ==> nodes == old(nodes) && contentToNode == old(contentToNode)
      ensures forall k | k in contentToNode && k !in old(contentToNode) ::
        fresh(contentToNode[k]) && contentToNode[k].Untouched(InitialFields(k))
      ensures ClosedBeyond(old(contentToNode).Keys)
      ensures old(Closed()) ==> Closed()
    {
      n := NodeFor(c, |nodes|);
      EntriesKept(old(contentToNode), old(nodes), old(position), contentToNode, nodes, position);
      NewEntriesAtEnd(old(contentToNode), old(nodes), old(position), contentToNode, nodes, position);
    }

    /**
     * The recursion of GetNodeForContent: the cache check. The nodes appended
     * along the way are fresh and, like those from `from` on, untouched.
     */
    method NodeFor(c: C, ghost from: nat) returns (n: Node<C>)
      requires Valid() && Laws() && c in universe
      requires from <= |nodes| && forall i | from <= i < |nodes| :: nodes[i].Untouched(InitialFields(nodes[i].content))
      modifies this`nodes, this`contentToNode, this`position
      decreases |universe - contentToNode.Keys|, 1
      ensures Valid()
      ensures c in contentToNode && contentToNode[c] == n
      ensures old(contentToNode).Keys <= contentToNode.Keys
      ensures old(nodes) <= nodes
      ensures c in old(contentToNode) ==> nodes == old(nodes) && contentToNode == old(contentToNode)
      ensures c !in old(contentToNode) ==> fresh(n)
      ensures forall i | |old(nodes)| <= i < |nodes| :: fresh(nodes[i])
      ensures forall i | from <= i < |nodes| :: nodes[i].Untouched(InitialFields(nodes[i].content))
      ensures ClosedBeyond(old(contentToNode).Keys)
    {
      if c in contentToNode {
        return contentToNode[c];
      }
      n := CreateNode(c, from);
    }

    /** Every content stored beyond `keys` has its dependent content stored. */
    ghost predicate ClosedBeyond(keys: set<C>)
      reads this
    {
      forall k, j {:trigger dependent(k)[j]} | k in contentToNode && k !in keys && 0 <= j < |dependent(k)| ::
        dependent(k)[j] in contentToNode
    }

    /** The new node for c, registered, and then nodes for its dependent content. */
    method CreateNode(c: C, ghost from: nat) returns (n: Node<C>)
      requires Valid() && Laws() && c in universe && c !in contentToNode
      requires from <= |nodes| && forall i | from <= i < |nodes| :: nodes[i].Untouched(InitialFields(nodes[i].content))
      modifies this`nodes, this`contentToNode, this`position
      decreases |universe - contentToNode.Keys|, 0
      ensures Valid()
      ensures c in contentToNode && contentToNode[c] == n
      ensures old(contentToNode).Keys <= contentToNode.Keys
      ensures old(nodes) <= nodes
      ensures fresh(n)
      ensures forall i | |old(nodes)| <= i < |nodes| :: fresh(nodes[i])
      ensures forall i | from <= i < |nodes| :: nodes[i].Untouched(InitialFields(nodes[i].content))
      ensures ClosedBeyond(old(contentToNode).Keys)
    {
      n := Register(c, from);
      ghost var (m1, ns1, p1) := (contentToNode, nodes, position);
      assert old(nodes) <= ns1 && ns1[|old(nodes)|] == n;
      assert m1.Keys == old(contentToNode).Keys + {c};
      FewerMissing(universe, old(contentToNode).Keys, m1.Keys, c);
      StoreAll(dependent(c), from);
      EntryKept(m1, ns1, p1, contentToNode, nodes, position, c);
      forall i | |old(nodes)| <= i < |nodes| ensures fresh(nodes[i]) {
        if i < |ns1| {
          assert nodes[i] == ns1[i];
        }
      }
      ClosedAfterStore(old(contentToNode).Keys, m1.Keys, c);
    }

    /** Closure beyond `keys + {c}`, with c's dependent content stored, is closure beyond `keys`. */
    lemma ClosedAfterStore(keys: set<C>, keys1: set<C>, c: C)
      requires keys1 <= keys + {c} && ClosedBeyond(keys1)
      requires forall j | 0 <= j < |dependent(c)| :: dependent(c)[j] in contentToNode
      ensures ClosedBeyond(keys)
    {
      forall k, j | k in contentToNode && k !in keys && 0 <= j < |dependent(k)|
        ensures dependent(k)[j] in contentToNode
      {
        if k != c {
          assert k !in keys1;
        }
      }
    }

    /** A new node for c with its initial attributes, appended to the node list and indexed. */
    method Register(c: C, ghost from: nat) returns (n: Node<C>)
      requires Valid() && c !in contentToNode
      requires from <= |nodes| && forall i | from <= i < |nodes| :: nodes[i].Untouched(InitialFields(nodes[i].content))
      modifies this`nodes, this`contentToNode, this`position
      ensures Valid() && fresh(n) && n.content == c
      ensures nodes == old(nodes) + [n] && contentToNode == old(contentToNode)[c := n]
      ensures forall i | from <= i < |nodes| :: nodes[i].Untouched(InitialFields(nodes[i].content))
    {
      n := new Node(c, InitialFields(c));
      AddNode(n);
      forall i | from <= i < |nodes| ensures nodes[i].Untouched(InitialFields(nodes[i].content)) {
        if i < |old(nodes)| {
          assert nodes[i] == old(nodes)[i];
        }
      }
    }

    /** Nodes for every content of `deps`, in order (the loop over the dependent content). */
    method StoreAll(deps: seq<C>, ghost from: nat)
      requires Valid() && Laws() && forall j | 0 <= j < |deps| :: deps[j] in universe
      requires from <= |nodes| && forall i | from <= i < |nodes| :: nodes[i].Untouched(InitialFields(nodes[i].content))
      modifies this`nodes, this`contentToNode, this`position
      decreases |universe - contentToNode.Keys|, 2
      ensures Valid()
      ensures old(contentToNode).Keys <= contentToNode.Keys
      ensures old(nodes) <= nodes
      ensures forall j | 0 <= j < |deps| :: deps[j] in contentToNode
      ensures forall i | |old(nodes)| <= i < |nodes| :: fresh(nodes[i])
      ensures forall i | from <= i < |nodes| :: nodes[i].Untouched(InitialFields(nodes[i].content))
      ensures ClosedBeyond(old(contentToNode).Keys)
    {
      for i := 0 to |deps|
        invariant Valid()
        invariant old(contentToNode).Keys <= contentToNode.Keys
        invariant old(nodes) <= nodes
        invariant ClosedBeyond(old(contentToNode).Keys)
        invariant forall j | 0 <= j < i :: deps[j] in contentToNode
        invariant forall j | |old(nodes)| <= j < |nodes| :: fresh(nodes[j])
        invariant forall i | from <= i < |nodes| :: nodes[i].Untouched(InitialFields(nodes[i].content))
        invariant |universe - contentToNode.Keys| <= |universe - old(contentToNode).Keys|
      {
        ghost var keys := contentToNode.Keys;
        ghost var ns := nodes;
        var _ := NodeFor(deps[i], from);
        forall j | |old(nodes)| <= j < |ns| ensures fresh(nodes[j]) {
          assert nodes[j] == ns[j];
        }
        FewerOrSame(universe, keys, contentToNode.Keys);
        Covered(deps, i, keys, contentToNode.Keys);
      }
    }

    /** The contents deps[..i] stay stored as more are stored, and deps[i] joins them. */
    static lemma Covered(deps: seq<C>, i: int, before: set<C>, after: set<C>)
      requires 0 <= i < |deps| && before <= after && deps[i] in after
      requires forall j | 0 <= j < i :: deps[j] in before
      ensures forall j | 0 <= j < i + 1 :: deps[j] in after
    {
      forall j | 0 <= j < i + 1 ensures deps[j] in after {
      }
    }

    /** Storing more contents leaves no more contents of the universe to store. */
    static lemma FewerOrSame(u: set<C>, before: set<C>, after: set<C>)
      requires before <= after
      ensures |u - after| <= |u - before|
    {
      SubsetCard(u - after, u - before);
    }

    /** Storing a content of the universe leaves fewer contents of the universe to store. */
    static lemma FewerMissing(u: set<C>, before: set<C>, after: set<C>, c: C)
      requires before + {c} <= after && c in u && c !in before
      ensures |u - after| < |u - before|
    {
      var missing := u - before;
      assert u - after <= missing - {c};
      SubsetCard(u - after, missing - {c});
    }

    /** A subset is no larger. */
    static lemma {:induction false} SubsetCard(a: set<C>, b: set<C>)
      requires a <= b
      ensures |a| <= |b|
      decreases |b|
    {
      if a != {} {
        var x :| x in a;
        SubsetCard(a - {x}, b - {x});
      }
    }

    /** The activation c has, or would have as a new node. */
    ghost function ActivationOf(c: C): real
      reads this, contentToNode.Values
    {
      if c in contentToNode then contentToNode[c].Activation(decay, timesteps) else 0.0
    }

    /** Raises the activation of c's node (created if needed) by `amount`. */
    method IncreaseActivationForContent(c: C, amount: real)
      requires Valid() && Laws() && c in universe
      modifies this`nodes, this`contentToNode, this`position
      modifies contentToNode.Values`base, contentToNode.Values`lastUpdate
      ensures Valid() && c in contentToNode
      ensures ActivationOf(c) == old(ActivationOf(c)) + amount
      ensures Keeps(old(contentToNode), contentToNode) && old(nodes) <= nodes
      ensures ClosedBeyond(old(contentToNode).Keys) && (old(Closed()) ==> Closed())
      ensures forall k | k in contentToNode && k !in old(contentToNode) :: fresh(contentToNode[k])
      ensures forall k | k in contentToNode && k !in old(contentToNode) && k != c ::
        contentToNode[k].Untouched(InitialFields(k))
      ensures c !in old(contentToNode) ==>
        contentToNode[c].fields == InitialFields(c) && contentToNode[c].outgoingEdges == []
      ensures c in old(contentToNode) ==> nodes == old(nodes) && contentToNode == old(contentToNode)
      ensures forall d | d in old(contentToNode) && d != c ::
        contentToNode[d].base == old(contentToNode[d].base) && contentToNode[d].lastUpdate == old(contentToNode[d].lastUpdate)
    {
      var n := GetNodeForContent(c);
      n.IncreaseActivation(decay, amount, timesteps);
    }

    /** The activation of c's node (created if needed). */
    method GetActivationForContent(c: C) returns (a: real)
      requires Valid() && Laws() && c in universe
      modifies this`nodes, this`contentToNode, this`position
      ensures Valid() && c in contentToNode
      ensures a == old(ActivationOf(c)) && a == ActivationOf(c)
      ensures Keeps(old(contentToNode), contentToNode) && old(nodes) <= nodes
      ensures ClosedBeyond(old(contentToNode).Keys) && (old(Closed()) ==> Closed())
      ensures forall k | k in contentToNode && k !in old(contentToNode) ::
        fresh(contentToNode[k]) && contentToNode[k].Untouched(InitialFields(k))
      ensures c in old(contentToNode) ==> nodes == old(nodes) && contentToNode == old(contentToNode)
    {
      var n := GetNodeForContent(c);
      a := n.Activation(decay, timesteps);
    }

    /** Whether c's activation (its node created if needed) reaches `threshold`. */
    method IsContentSufficientlyActive(c: C, threshold: real := DefaultThreshold) returns (active: bool)
      requires Valid() && Laws() && c in universe
      modifies this`nodes, this`contentToNode, this`position
      ensures Valid() && c in contentToNode
      ensures active == SufficientlyActive(old(ActivationOf(c)), threshold)
      ensures Keeps(old(contentToNode), contentToNode) && old(nodes) <= nodes
      ensures ClosedBeyond(old(contentToNode).Keys) && (old(Closed()) ==> Closed())
      ensures forall k | k in contentToNode && k !in old(contentToNode) ::
        fresh(contentToNode[k]) && contentToNode[k].Untouched(InitialFields(k))
      ensures c in old(contentToNode) ==> nodes == old(nodes) && contentToNode == old(contentToNode)
    {
      var n := GetNodeForContent(c);
      active := n.Activation(decay, timesteps) >= threshold;
    }

    /**
     * Adds an edge of kind t from the node for `from` to the node for `to`
     * (creating both if needed); an existing edge of the same kind is kept,
     * one of another kind is an error and the edges stay as they were.
     */
    method AddEdgeBetweenContent(from: C, to: C, t: EdgeType := Related) returns (outcome: Outcome<FargError>)
      requires Valid() && Laws() && from in universe && to in universe
      modifies this`nodes, this`contentToNode, this`position, contentToNode.Values`outgoingEdges
      ensures Valid() && from in contentToNode && to in contentToNode
      ensures Keeps(old(contentToNode), contentToNode) && old(nodes) <= nodes
      ensures ClosedBeyond(old(contentToNode).Keys) && (old(Closed()) ==> Closed())
      ensures forall k | k in contentToNode && k !in old(contentToNode) :: fresh(contentToNode[k])
      ensures forall k | k in contentToNode && k !in old(contentToNode) && k != from ::
        contentToNode[k].Untouched(InitialFields(k))
      ensures from !in old(contentToNode) ==>
        contentToNode[from].fields == InitialFields(from) &&
        contentToNode[from].base == 0.0 && contentToNode[from].lastUpdate == 0
      ensures from in old(contentToNode) && to in old(contentToNode) ==>
        nodes == old(nodes) && contentToNode == old(contentToNode)
      ensures forall d | d in old(contentToNode) && d != from ::
        contentToNode[d].outgoingEdges == old(contentToNode[d].outgoingEdges)
      ensures var before := if from in old(contentToNode) then old(contentToNode[from].outgoingEdges) else [];
        match AddedEdge(before, contentToNode[to], t)
        case None => outcome == Fail(EdgeTypeConflict) && contentToNode[from].outgoingEdges == before
        case Some(edges) => outcome == Pass && contentToNode[from].outgoingEdges == edges
    {
      var node, toNode := NodesFor(from, to);
      outcome := node.Link(toNode, t);
    }

    /** The nodes for `from` and then `to`, stored if need be, as AddEdgeBetweenContent fetches them. */
    method NodesFor(from: C, to: C) returns (node: Node<C>, toNode: Node<C>)
      requires Valid() && Laws() && from in universe && to in universe
      modifies this`nodes, this`contentToNode, this`position
      ensures Valid() && from in contentToNode && to in contentToNode
      ensures node == contentToNode[from] && toNode == contentToNode[to]
      ensures from !in old(contentToNode) ==> node.outgoingEdges == []
      ensures Keeps(old(contentToNode), contentToNode) && old(nodes) <= nodes
      ensures ClosedBeyond(old(contentToNode).Keys) && (old(Closed()) ==> Closed())
      ensures forall k | k in contentToNode && k !in old(contentToNode) ::
        fresh(contentToNode[k]) && contentToNode[k].Untouched(InitialFields(k))
      ensures from in old(contentToNode) && to in old(contentToNode) ==>
        nodes == old(nodes) && contentToNode == old(contentToNode)
    {
      node := GetNodeForContent(from);
      ghost var m1 := contentToNode;
      toNode := GetNodeForContent(to);
      forall k | k in contentToNode && k !in old(contentToNode)
        ensures fresh(contentToNode[k]) && contentToNode[k].Untouched(InitialFields(k))
      {
        if k in m1 {
          assert contentToNode[k] == m1[k];
        }
      }
    }

    // -------------------------------------------------------------------------
    // Writing the graph out.
    // -------------------------------------------------------------------------

    /** Rewrites the attributes of n, replacing stored contents by their nodes. */
    method Mangle(n: Node<C>)
      modifies n`fields
      ensures n.fields == Mangled(old(n.fields), contentToNode)
    {
      var remaining := n.fields.Keys;
      while remaining != {}
        invariant remaining <= n.fields.Keys == old(n.fields).Keys
        invariant forall k | k in n.fields ::
          n.fields[k] == if k in remaining then old(n.fields)[k] else MangledSlot(old(n.fields)[k], contentToNode)
        decreases remaining
      {
        var k :| k in remaining;
        var value := n.fields[k];
        if value.Value? && value.v in contentToNode {
          n.fields := n.fields[k := NodeRef(contentToNode[value.v])];
        }
        remaining := remaining - {k};
      }
    }

    /** Rewrites the attributes of n, replacing nodes by their contents. */
    method Unmangle(n: Node<C>)
      modifies n`fields
      ensures n.fields == Unmangled(old(n.fields))
    {
      var remaining := n.fields.Keys;
      while remaining != {}
        invariant remaining <= n.fields.Keys == old(n.fields).Keys
        invariant forall k | k in n.fields ::
          n.fields[k] == if k in remaining then old(n.fields)[k] else UnmangledSlot(old(n.fields)[k])
        decreases remaining
      {
        var k :| k in remaining;
        var value := n.fields[k];
        if value.NodeRef? {
          n.fields := n.fields[k := Value(value.node.content)];
        }
        remaining := remaining - {k};
      }
    }

    /**
     * The records written for the graph, in node order, each node with its
     * mangled attributes; nothing is written and nothing changes without a file.
     * Each node's attributes are unmangled again after it is written, which
     * restores every node whose attributes held no node (MangleRoundTrip).
     */
    method Dump() returns (records: seq<Dumped<C>>)
      requires Valid()
      modifies (set i | 0 <= i < |nodes| :: nodes[i])`fields
      ensures !HasFile() ==> records == [] && forall i | 0 <= i < |nodes| :: nodes[i].fields == old(nodes[i].fields)
      ensures HasFile() ==> |records| == |nodes|
      ensures HasFile() ==> forall i | 0 <= i < |nodes| ::
        records[i] == Dumped(nodes[i], Mangled(old(nodes[i].fields), contentToNode))
      ensures HasFile() ==> forall i | 0 <= i < |nodes| ::
        nodes[i].fields == Unmangled(Mangled(old(nodes[i].fields), contentToNode))
      ensures forall i | 0 <= i < |nodes| && Plain(old(nodes[i].fields)) :: nodes[i].fields == old(nodes[i].fields)
    {
      if !(filename.Some? && filename.value != "") {
        return [];
      }
      records := [];
      for i := 0 to |nodes|
        invariant |records| == i
        invariant forall j | 0 <= j < i ::
          records[j] == Dumped(nodes[j], Mangled(old(nodes[j].fields), contentToNode))
        invariant forall j | 0 <= j < i :: nodes[j].fields == Unmangled(Mangled(old(nodes[j].fields), contentToNode))
        invariant forall j | i <= j < |nodes| :: nodes[j].fields == old(nodes[j].fields)
      {
        var node := nodes[i];
        assert forall j | 0 <= j < |nodes| && j != i :: nodes[j] != node;
        Mangle(node);
        records := records + [Dumped(node, node.fields)];
        Unmangle(node);
      }
      forall i | 0 <= i < |nodes| && Plain(old(nodes[i].fields))
        ensures nodes[i].fields == old(nodes[i].fields)
      {
        MangleRoundTrip(old(nodes[i].fields), contentToNode);
      }
    }

  }

  /** The threshold test: an activation suffices when it reaches the threshold. */
  predicate SufficientlyActive(activation: real, threshold: real)
  {
    activation >= threshold
  }

  /** The default threshold is met at exactly 0.8 and missed just below it. */
  lemma DefaultThresholdBoundary(a: real)
    ensures SufficientlyActive(a, DefaultThreshold) <==> a >= 0.8
    ensures SufficientlyActive(0.8, DefaultThreshold) && !SufficientlyActive(0.7999, DefaultThreshold)
  {
  }
}
