# Long-term-memory graph and workspace objects, in Dafny

This project models two parts of a symbolic cognitive architecture and proves properties of each model.

**The long-term-memory (LTM) graph** (module `LtmGraph`, file `ltm_graph.dfy`) is a content-addressed store of nodes.
- It holds at most one node per content value. The `nodes` list and the content index are kept in step.
- Nodes carry typed outgoing edges and a time-decayed activation.
- Creating a node for a content also creates nodes for that content's dependent content. A node is registered before that recursion, so cycles end.
- Dumping a node first rewrites its content's attributes ("mangling": a stored content becomes its node), then writes it out, then rewrites the attributes back ("unmangling").
- Loading adds the nodes read from a stream until the stream ends (`EOFError`) or the reader rejects an item with a `ValueError`.

The graph is a `class Graph<C>` with these parts:
- the content type `C` is abstract, with equality;
- `dependent: C -> seq<C>` gives the dependent content of a content;
- `attributes` gives the attribute dictionary a content starts with;
- `decay` is the activation decay law, kept abstract.

`GetNodeForContent` is proved in several methods:
- `GetNodeForContent` is the entry point.
- `NodeFor` is the cache check.
- `CreateNode` makes the new node; `Register` registers it before anything else.
- `StoreAll` is the loop over the dependent content; it calls `NodeFor` for each item.

A ghost position passed down the recursion marks where the untouched nodes begin in `nodes`: every node from that position on still has no edges, no activation and its initial attributes.

**Workspace objects** (module `PsObjects`, file `ps_objects.dfy`) form a tree of integers. Elements hold one magnitude each; groups hold ordered items. The module covers:
- the structure and flattened magnitudes of a tree;
- the contiguous layout of a tree from a starting position;
- anchoring a tree at a position, all-or-nothing (`SetSpanStart`);
- inferring a group's position from the spans its objects already have (`InferSpans`);
- building hypothetical extended groups;
- memoised relations between objects.

Elements and groups are one class, `PSObject`, told apart by a constant `kind`. The tree below an object never changes after construction. Only `span` and `relations` are updated in place.

`wrappers.dfy` defines `Option` (Python's `None` or a value) and `Outcome` (an operation that completes, or fails with an error).

Two behaviours of the code are worth stating directly:
- The activation operations take no time argument. They read the graph's own `_timesteps` counter, which starts at 0 (`farg/core/ltm/graph.py:37`) and is never advanced, so the model's `timesteps` is the constant 0 and activation is always read at time 0.
- Writing the graph rewrites each content's attribute dictionary in place, before and after each node is written, and the model does the same (`Mangle`, `Unmangle`, `Dump`).

## Model

| member | source | states |
|---|---|---|
| LtmGraph.Graph.constructor | farg/core/ltm/graph.py:24-42 | The new graph is valid with timestep 0. With a non-empty file name, its nodes are those the load registers from the file's records; otherwise it has no nodes. |
| LtmGraph.Graph.LoadNodes | farg/core/ltm/graph.py:44-62 | The loop adds, in order, every node read before the first end-of-stream or unreadable item, using AddNode's rule. The index and node list equal RegisterAll of the old state, so every node added before the stop is kept and the index stays valid. |
| LtmGraph.Loaded | farg/core/ltm/graph.py:54-62 | The nodes loaded are exactly the records before the first item that is not a record; all items before that point are records. |
| LtmGraph.RegisteredAll | farg/core/ltm/graph.py:54-62 | Adding nodes one after another appends exactly the newly registered ones, and the index gains exactly their contents. |
| LtmGraph.NewlyRegistered | farg/core/ltm/graph.py:92-96 | The nodes registered from a list, given the contents already stored: none has a seen content, no two share a content, and together with the seen contents they cover every content of the list. |
| LtmGraph.FirstWins | farg/core/ltm/graph.py:92-96 | The first node with a given content is registered, and it is the only registered node with that content. |
| LtmGraph.Graph.IsEmpty | farg/core/ltm/graph.py:64-66 | True exactly when no content is stored; by the index invariant this is exactly when `nodes` is empty. |
| LtmGraph.Graph.Dump | farg/core/ltm/graph.py:68-77 | Only node attributes may change: edges, activation, the index and the node list stay as they were. Without a file name nothing is written and no attribute changes. Otherwise there is one record per node, in node order, holding the node and its mangled attributes. Each node's attributes end up unmangled again, so a node none of whose attributes held a node gets back exactly its original attributes. |
| LtmGraph.Graph.Mangle | farg/core/ltm/graph.py:79-83 | After the loop over the attributes, each attribute whose value is a stored content holds that content's node, and every other attribute is unchanged. |
| LtmGraph.Graph.Unmangle | farg/core/ltm/graph.py:85-89 | After the loop over the attributes, each attribute holding a node holds that node's content, and every other attribute is unchanged. |
| LtmGraph.UnmangleAfterMangle | farg/core/ltm/graph.py:79-89 | With an index whose entries are the nodes of their own contents, unmangling after mangling gives the same result as unmangling alone. |
| LtmGraph.UnmangledIsIdentity | farg/core/ltm/graph.py:85-89 | Unmangling leaves the attributes unchanged exactly when none of them holds a node. |
| LtmGraph.MangleRoundTrip | farg/core/ltm/graph.py:79-89 | If no attribute held a node, unmangling after mangling restores every attribute. |
| LtmGraph.Graph.AddNode | farg/core/ltm/graph.py:92-96 | If the node's content is already stored, nothing changes. Otherwise the node is appended and indexed under its content. The index invariant is kept either way. |
| LtmGraph.Graph.GetNodeForContent | farg/core/ltm/graph.py:98-109 | Returns the node indexed under c. If c was stored, nothing changes, so a second call returns the identical node and adds nothing. Every node created by the call, for c or for its dependent content, is fresh and untouched: no edges, no activation, and its content's initial attributes. Every earlier entry is kept, `nodes` only grows at its end, every newly stored content has its dependent content stored as well (the index is closed beyond the earlier keys), and an index that was closed under dependent content stays closed. |
| LtmGraph.Graph.NodeFor | farg/core/ltm/graph.py:98-102 | The cache check. If c is stored, its indexed node is returned and nothing changes. Otherwise a fresh node is created for c. Either way the index only grows, the node list only grows at its end, every appended node is fresh, the nodes from the given position on stay untouched, and newly stored content has its dependent content stored. |
| LtmGraph.Graph.CreateNode | farg/core/ltm/graph.py:103-109 | The new node is fresh and registered under c before the dependent content is stored, and it stays registered under c afterwards. Every node appended during the call is fresh, the nodes from the given position on stay untouched, and the newly stored part of the index is closed under dependent content. |
| LtmGraph.Graph.Register | farg/core/ltm/graph.py:103-105 | A fresh node for c with c's initial attributes is appended to the node list and indexed under c, and nothing else in the index changes. The nodes from the given position on, the new one included, are untouched. |
| LtmGraph.Graph.StoreAll | farg/core/ltm/graph.py:107-108 | After the loop every dependent content has a node. The index only grows and the node list only grows at its end. Every appended node is fresh, and the nodes from the given position on stay untouched. Everything stored along the way has its own dependent content stored. |
| LtmGraph.EntriesKept | farg/core/ltm/graph.py:103-105 | Between two valid states whose node lists extend one another, every earlier index entry, content and node, is still present. |
| LtmGraph.Node.IncreaseActivation | farg/core/ltm/graph.py:114-115 | The new base is the current activation plus the amount, and the last update becomes the given time, so decay restarts from the raised value. |
| LtmGraph.Graph.IncreaseActivationForContent | farg/core/ltm/graph.py:111-115 | After the call, c has a node whose activation at the graph's timestep is its previous activation (0 for a new node) plus the amount. No earlier node other than c's changes its activation, and no earlier node changes its edges. Every earlier index entry is kept, the node list only grows at its end, and each newly stored content has a fresh node and its dependent content stored. A new node for any content other than c is untouched: no edges, no activation, and its content's initial attributes. A new node for c has its initial attributes and no edges. If c was stored, the index and node list are unchanged. |
| LtmGraph.Graph.GetActivationForContent | farg/core/ltm/graph.py:117-120 | Returns c's activation at the graph's timestep, creating the node if needed. The value is the same before and after creation. No existing node changes. Every earlier index entry is kept, the node list only grows at its end, and each newly stored content has its dependent content stored. Each new node is fresh and untouched: no edges, no activation, and its content's initial attributes. If c was stored, the index and node list are unchanged. |
| LtmGraph.Graph.IsContentSufficientlyActive | farg/core/ltm/graph.py:134-136 | True exactly when c's activation at the graph's timestep is at least the threshold. The default threshold is 0.8. No existing node changes. Every earlier index entry is kept, the node list only grows at its end, and each newly stored content has its dependent content stored. Each new node is fresh and untouched: no edges, no activation, and its content's initial attributes. If c was stored, the index and node list are unchanged. |
| LtmGraph.DefaultThresholdBoundary | farg/core/ltm/graph.py:134-136 | With the default threshold, an activation suffices exactly when it is at least 0.8. It holds at exactly 0.8 and fails at 0.7999. |
| LtmGraph.Graph.AddEdgeBetweenContent | farg/core/ltm/graph.py:122-132 | Both endpoints get nodes. If the first edge from `from` to the target has another type, the call fails with FargError and the edge list is unchanged; if it has the same type, nothing changes. Otherwise exactly one edge of the requested type is appended. No earlier node other than `from`'s changes its edges, and no earlier node changes its activation. Every earlier index entry is kept, the node list only grows at its end, and each newly stored content has a fresh node and its dependent content stored. A new node for any content other than `from` is untouched: no edges, no activation, and its content's initial attributes. A new node for `from` has its initial attributes and no activation. If both contents were stored, the index and node list are unchanged. |
| LtmGraph.Graph.NodesFor | farg/core/ltm/graph.py:123-124 | Fetches the nodes for `from` and then `to`. Every earlier index entry is kept, the node list only grows at its end, and each newly stored content has its dependent content stored. Each new node is fresh and untouched: no edges, no activation, and its content's initial attributes. If both contents were stored, the index and node list are unchanged. |
| LtmGraph.Node.Link | farg/core/ltm/graph.py:126-132 | The loop over the outgoing edges ends exactly as AddedEdge prescribes: fail with the list unchanged, pass unchanged, or pass with one edge appended. |
| LtmGraph.AddedEdge | farg/core/ltm/graph.py:126-132 | It is an error exactly when the first edge to the target has another type. If an edge to the target exists and there is no error, the list is unchanged. If no edge to the target exists, the new list is the old one plus that single edge. |
| LtmGraph.FirstIndexTo | farg/core/ltm/graph.py:126-127 | The loop's stopping point: the index of the first edge to the target, or -1 exactly when no edge goes there. |
| LtmGraph.AddedEdgeConflict | farg/core/ltm/graph.py:128-129 | With at most one edge per target, adding fails exactly when some edge to the target has another type. |
| LtmGraph.AddedEdgeIdempotent | farg/core/ltm/graph.py:130-131 | Adding the same edge a second time changes nothing, so a repeated addition leaves exactly one such edge. |
| LtmGraph.AddedEdgeKeepsOnePerTarget | farg/core/ltm/graph.py:126-132 | Adding an edge keeps the edge list at one edge per target. |
| PsObjects.PSObject.Element | farg/apps/pyseqsee/objects.py:92-94 | A new element is a valid one-object tree with the magnitude, no span and no relations. |
| PsObjects.PSObject.Group | farg/apps/pyseqsee/objects.py:129-131 | A new group of valid items with disjoint trees is valid. Its tree is itself plus its items' trees, and it has no span and no relations. |
| PsObjects.PSObject.StructureParts | farg/apps/pyseqsee/objects.py:134-135 | A group's structure is a tuple with one part per item, in order, each part being that item's structure. |
| PsObjects.PSObject.FlattenedMatchesStructure | farg/apps/pyseqsee/objects.py:143-145 | The flattened magnitudes are defined exactly when no group in the tree is empty, since folding an empty group raises. They are then the tree's magnitudes left to right: an element gives its magnitude, a group the concatenation of its items' magnitudes. |
| PsObjects.PSObject.ProjectedSpans | farg/apps/pyseqsee/objects.py:108-109 | The layout's last entry is the object itself, starting at `start`; for an element it is the only entry, `(start, start)`. |
| PsObjects.PSObject.CalculateSpanGivenStart | farg/apps/pyseqsee/objects.py:157-164 | The loop lays out each item from the previous right end plus one, and appends the group's own entry `(start, right_end)` last. The result is ProjectedSpans(start). |
| PsObjects.PSObject.ProjectionWidth | farg/apps/pyseqsee/objects.py:157-164 | The right end of a layout is start plus the number of flattened magnitudes minus one, so its width is never negative. |
| PsObjects.PSObject.ProjectionCovers | farg/apps/pyseqsee/objects.py:157-164 | Wherever a valid tree is laid out, the layout places exactly the tree's objects, each once. |
| PsObjects.PSObject.ProjectionShift | farg/apps/pyseqsee/objects.py:157-164 | Laying out d positions further right moves every projected span by d. |
| PsObjects.PSObject.SetSpanStart | farg/apps/pyseqsee/objects.py:102-176 | Covers the element version (102-106) and the group version (166-176). All-or-nothing: it succeeds exactly when every existing span in the tree equals its projected span from `start`, and then every object gets exactly its projected span, with relations unchanged. On failure nothing in the tree changes. For an element this means: an unset span becomes `(start, start)`, and a set one must already equal it. |
| PsObjects.CheckSpans | farg/apps/pyseqsee/objects.py:170-172 | The checking loop accepts exactly when every object with a span has its projected span. |
| PsObjects.WriteSpans | farg/apps/pyseqsee/objects.py:175-176 | The writing loop gives every object of the layout exactly its projected span and leaves relations alone. |
| PsObjects.CollectDeltas | farg/apps/pyseqsee/objects.py:181-185 | The loop collects, in layout order, the start and end differences of every object that has a span. |
| PsObjects.AllSame | farg/apps/pyseqsee/objects.py:188 | True exactly when no difference after the first differs from the first. |
| PsObjects.DeltasSingleOut | farg/apps/pyseqsee/objects.py:181-189 | For a layout and its shift by d, the differences are non-empty and all equal to d exactly when the shifted layout agrees with every existing span and some object of the layout has a span. |
| PsObjects.PSObject.InferSpans | farg/apps/pyseqsee/objects.py:178-191 | Returns false, with nothing changed, when no object has a span or the differences are not all equal. Otherwise it returns true and the whole tree is anchored at the common difference. |
| PsObjects.PSObject.CommonDeltaAgrees | farg/apps/pyseqsee/objects.py:188-190 | When every difference equals d, every existing span agrees with the layout from d, so the check inside the anchoring call cannot fail. |
| PsObjects.PSObject.InferredStartIsUnique | farg/apps/pyseqsee/objects.py:178-191 | The differences single out d exactly when the layout from d agrees with every existing span and some object of the tree has a span. The inferred start is therefore the only consistent one. |
| PsObjects.PSObject.HypotheticallyAddComponentBefore | farg/apps/pyseqsee/objects.py:147-150 | Returns a fresh valid group whose items are the component followed by this group's items. If it is anchored, its whole tree is realised at its start. It is anchored only if some object of the component or of this group's items already had a span, and every span that existed is kept. If it is not anchored, no object changed and the differences did not agree. No object of the old trees has its relations changed, and this group is not modified. |
| PsObjects.PSObject.HypotheticallyAddComponentAfter | farg/apps/pyseqsee/objects.py:152-155 | Returns a fresh valid group whose items are this group's items followed by the component. If it is anchored, its whole tree is realised at its start. It is anchored only if some object of this group's items or of the component already had a span, and every span that existed is kept. If it is not anchored, no object changed and the differences did not agree. No object of the old trees has its relations changed, and this group is not modified. |
| PsObjects.PSObject.Anchor | farg/apps/pyseqsee/objects.py:147-155 | InferSpans on a new group with no span of its own, as both hypothetical additions call it. If the group ends up with a span, its whole tree is realised from that span's start, some object already had a span, and no object's relations change. If it does not, no object changed and the differences were empty or did not all agree. Every span that existed is kept in either case. |
| PsObjects.NewInferredGroup | farg/apps/pyseqsee/objects.py:147-155 | The shared body of both hypothetical additions. It returns a fresh valid group of exactly the given items, whose tree is itself plus theirs and which has no relations. If it is anchored, its whole tree is realised at its start, and some object already had a span. If it is not anchored, nothing changed and the differences did not agree. Existing spans are kept, and no object's relations change. |
| PsObjects.PSObject.GetRelationTo | farg/apps/pyseqsee/objects.py:70-75 | A second request for the same partner returns the same relation and changes nothing. The first request creates a fresh relation from this object to the partner and adds exactly that entry. |

## Left out

- Pickle encoding and file I/O. The file is a sequence of read items (`Read`: a record, end of stream, or an item rejected with a `ValueError`), and `Dump` returns the records it would write.
- LtmGraph.Graph.LoadNodes: only `EOFError` and `ValueError` stop the loading loop (`farg/core/ltm/graph.py:58-62`). Any other read failure, such as an `UnpicklingError` on a corrupt or truncated stream or an error raised while a node restores its state, propagates out of the constructor, and no graph is built. The model has no such item, so it does not capture that failed construction.
- How loaded nodes are rebuilt from their pickled state (node `__setstate__`) is not part of this model. Records are already nodes.
- The activation decay law is kept abstract. It lives in `farg/core/ltm/node.py`, which is not part of this model; that file also holds the node's activation methods. `decay` is an uninterpreted function, required only to satisfy `decay(x, 0) == x`. `LtmGraph.Node.IncreaseActivation` uses this boost rule: the base becomes the current activation plus the amount, and decay restarts at the given time. Activations are reals, not floating point.
- `_timesteps` is the constant 0, because the graph never advances it.
- `GetLTMStorableContent` is taken as the identity: contents are already storable. `IsContentSufficientlyActive` skips this call in the source, which makes no difference under that reading.
- A content's attribute dictionary (`content.__dict__`) becomes the node's `fields` map. Each value is a plain value or, while mangled, a node. Attributes that are not contents and hashing of unhashable values are not modelled.
- LtmGraph.Graph.GetNodeForContent: requires the content to lie in a finite `universe` that is closed under dependent content. The source needs no such bound; it is the termination measure (contents of the universe not yet stored). The same requirement carries over to the activation and edge methods.
- LtmGraph.Graph.CreateNode: registers the new node through AddNode, where the source writes the list and the index directly. The two are the same here, because the content is not yet stored.
- LtmGraph.Graph.AddEdgeBetweenContent: raising FargError is an `Outcome` value, not an exception.
- Logging: the `logging.info` message written after loading from a file (`farg/core/ltm/graph.py:42`) is not modelled, since it has no effect on the graph.
- The seqsee codelet families and the GUI and scratch code, which are scheduling and user-interface glue.
- `PlatonicObject`, `CreateFromStructure`, `CopyByStructure`, `CalculateFringe`, `CalculateActions` and `BriefLabel`.
- `History.AddArtefact`, `DescribeAs`/`CategoryInteger`, and the random and mean `vector` fields.
- `PSRelation` internals: a relation is a fresh object that records its two ends.
- PsObjects.PSObject.Group: requires the items' trees to be valid and pairwise disjoint, meaning no shared subtrees and no object placed twice. The source does not check this; the requirement carries over to HypotheticallyAddComponentBefore/After (component disjoint from the group).
- PsObjects.PSObject.SetSpanStart: returns false where the source fails an assertion. On that path nothing changes, which matches the source, because the check runs before any write.
- PsObjects.PSObject.InferSpans: modelled for groups only, as in the source. `Structure` and `FlattenedMagnitudes` are functions without contracts; their properties are the lemmas `StructureParts` and `FlattenedMatchesStructure`.
- Python's dynamic dispatch between `PSElement` and `PSGroup` is a match on `kind`.
