# Memory graph store — a Dafny model

This project models the long-term memory store of the `bront` agent (`memory.py`): an
in-process graph of memory entries ("nodes": an id, free text and a list of tags) and
typed, directed "connections" between node ids. The store offers five operations,
all modelled here:

- insertion of nodes (unchecked) and of connections (only between existing ids);
- listing every tag in use;
- recall by tags: the nodes whose tags meet the query, followed by their one-hop
  neighbours, each once, carrying the evidence (connection type, matched id) that
  links it to the matches;
- conversion of the whole store to a dictionary and back;
- loading, where a missing file gives an empty store.

Files:

- `wrappers.dfy` — `Option`, `Result` (usable with `:-`) and `Outcome`.
- `records.dfy` — `Node`, `Connection`, a JSON-like `Json` value standing for Python's
  dictionaries and lists, and the per-record `to_dict`/`from_dict`.
- `codec.dfy` — the store-level dictionary (`"nodes"`, `"connections"`), with the
  defaults for missing keys and the round trip.
- `recall.dfy` — a reference definition of recall over the two lists (`RecallSpec`) and
  the lemmas that state what recall promises: the direct prefix, the related entries,
  their uniqueness, order, evidence and completeness.
- `memory.dfy` — the class `Memory` whose methods update `nodes` and `connections` in
  place, `GetTags` and `Recall` as loops proved against the definitions above, and the
  dictionary and file loaders. `Memory.Len()` is `__len__` (memory.py:106-108); its own
  contract gives its value (the number of nodes), and `AddNode`'s contract states that it
  grows by exactly one.

The model follows the code: `add_node` does not reject a duplicate id (so several nodes
may share an id, and recall's lookup keeps the last of them); the evidence of a related
node is a list in connection order; loading does not re-check that connections name
existing nodes (`Codec.LoadedStoreMayDangle` exhibits such a document).

## Model

| member | source | states |
|---|---|---|
| `Records.TagsFromJson` | memory.py:14 | reading a tag list succeeds exactly when every item is a string, and then gives those strings in order |
| `Records.NodeFromDict` | memory.py:11-14 | reading succeeds exactly when the value is a dictionary (extra keys allowed) holding a string "id", a string "content" and a "tags" list of strings, and then gives those fields; a non-dictionary fails, a missing "id" fails with that key, a missing "content" or "tags" fails |
| `Records.NodeToDict` | memory.py:7-9 | a node is written as a dictionary with exactly the keys "id", "content", "tags", and reading it back gives the same node |
| `Records.ConnectionFromDict` | memory.py:27-30 | reading succeeds exactly when the value is a dictionary (extra keys allowed) holding string "from_id", "to_id" and "type", and then gives those fields; a non-dictionary or a missing key fails |
| `Records.ConnectionToDict` | memory.py:23-25 | a connection is written with exactly the keys "from_id", "to_id", "type", and reading it back gives the same connection |
| `Codec.ListOrEmpty` | memory.py:126 | the items `for item in data.get(key, [])` visits: none for a missing key, a list's items, none for an empty dictionary or empty string; any other value fails |
| `Codec.NodesFromJson` | memory.py:125-127 | a node list is read item by item, in order, into a list of the same length; it fails exactly when some item is not a node dictionary |
| `Codec.ConnectionsFromJson` | memory.py:128-131 | a connection list is read item by item, in order; it fails exactly when some item is not a connection dictionary |
| `Codec.StoreFromDict` | memory.py:121-132 | a non-dictionary fails; loading succeeds exactly when both keys' items read successfully; a missing key gives an empty list (both missing gives the empty store, one missing with the other a valid list gives that list and an empty one); a present key's list is read item by item |
| `Codec.StoreRoundTrip` | memory.py:114-132 | reading back the dictionary of a store reproduces its node list and connection list field for field, in order |
| `Codec.LoadedStoreMayDangle` | memory.py:121-132 | some dictionary loads without error into a store whose connection names a missing node |
| `MemoryStore.Memory.constructor` | memory.py:34-36 | a new store has no nodes and no connections and is referentially intact |
| `MemoryStore.Memory.Len` | memory.py:106-108 | the store's length is the number of nodes (the length of `nodes`); `AddNode` states it grows by exactly one |
| `MemoryStore.Memory.AddNode` | memory.py:38-40 | the node is appended at the end even if its id is already present, connections are unchanged, `Len()` grows by exactly one, referential integrity is kept |
| `MemoryStore.Memory.AddConnection` | memory.py:42-50 | succeeds exactly when both endpoint ids name existing nodes, then appends exactly that connection; otherwise fails and changes nothing; nodes are never changed; referential integrity is kept |
| `MemoryStore.Memory.GetTags` | memory.py:52-57 | the result holds exactly the tags of some node, each once (so none for a store without nodes) |
| `MemoryStore.ListOfSet` | memory.py:57 | `list(s)`: every element of the set once, in some order |
| `MemoryStore.Memory.Recall` | memory.py:59-104 | the loops over nodes, connections and related ids compute exactly `RecallSpec` of the current lists |
| `Codec.StoreToDict` | memory.py:114-119 | the store is written as a dictionary with exactly the keys "nodes" and "connections", each a list holding one record dictionary per node or connection, in order |
| `MemoryStore.Memory.ToDict` | memory.py:114-119 | the store's dictionary has exactly the keys "nodes" and "connections", each a list of the records' own dictionaries in order, and it reads back as the same two lists |
| `MemoryStore.Memory.FromDict` | memory.py:121-132 | a fresh store holding the lists read from the dictionary, or that read's error |
| `MemoryStore.Memory.LoadFromFile` | memory.py:141-152 | a file that does not exist loads as a fresh empty store; otherwise as `FromDict` of its document |
| `Recall.Link` | memory.py:86-97 | a connection contributes exactly when one endpoint is matched; it then names the unmatched endpoint and gives evidence (its type, the matched endpoint) |
| `Recall.DirectMatchesSelectMatchingNodes` | memory.py:70-75 | the direct matches are the nodes at the matching indices, in increasing order, and every node whose tags meet the query is among them |
| `Recall.MatchedIdsExactly` | memory.py:70-75 | an id is matched exactly when some node carrying it has tags meeting the query |
| `Recall.LookupKeepsLast` | memory.py:78 | the id lookup holds exactly the ids present and maps each to the last node carrying it |
| `Recall.LookupConsistent` | memory.py:78 | the lookup maps each id to a node carrying that id |
| `Recall.RelatedIdsExactly` | memory.py:86-97 | an id is related exactly when some connection joins it to a matched node while it is itself unmatched |
| `Recall.RelatedIdsUnmatched` | memory.py:88-94 | no related id is a matched id |
| `Recall.RelatedIdsDistinct` | memory.py:89-90 | each related id is recorded once |
| `Recall.RelatedIdsOrdered` | memory.py:84-97 | related ids are ordered by the first connection that reaches each |
| `Recall.EvidenceForAppend` | memory.py:86-97 | evidence is gathered in connection order: that of a concatenation of connection lists is the concatenation |
| `Recall.EvidenceOfOneConnection` | memory.py:86-97 | one connection is evidence for an id exactly when one endpoint is matched and the other is that id, with its type and the matched endpoint; connections with both or neither endpoint matched give nothing |
| `Recall.EvidenceExactlyForRelated` | memory.py:86-97 | an id has evidence exactly when it is related |
| `Recall.RelatedEntriesOfKeptIds` | memory.py:99-102 | related entries are one per related id that has a node, in order, each that id's looked-up node with its evidence |
| `Recall.KeptIdsMembership` | memory.py:100-101 | a related id is kept exactly when it has a node |
| `Recall.KeptIdsDistinct` | memory.py:100-101 | dropping ids without a node keeps the ids distinct |
| `Recall.KeptIdsOrdered` | memory.py:100-101 | dropping ids without a node keeps the first-reached order |
| `Recall.RecallDirectPrefix` | memory.py:80-81 | the result starts with one direct entry per matching node, in node order, flagged direct and with no evidence |
| `Recall.RecallRelatedPart` | memory.py:99-102 | after the direct prefix the result holds exactly one related entry per kept related id, in order |
| `Recall.RecallRelatedEntries` | memory.py:84-102 | every entry after the prefix is not direct, names no matched id, is the last node with its id and carries that id's non-empty evidence |
| `Recall.RecallRelatedDistinct` | memory.py:84-102 | no id has two related entries |
| `Recall.RecallRelatedOrdered` | memory.py:84-102 | related entries appear in the order of the first connection that reaches each |
| `Recall.RecallRelatedComplete` | memory.py:84-102 | an id has a related entry exactly when a connection joins it to a matched node and some node carries it; reached ids with no node are dropped |
| `Recall.RecallEmptyQuery` | memory.py:70-94 | an empty query recalls nothing |
| `Recall.RecallTwoNodeScenario` | memory.py:59-104 | for nodes A tagged exactly x and B tagged exactly y, with x different from y and distinct ids, and a connection A to B, recalling x gives exactly A as a direct match, then B as related with that connection's type and A's id as its only evidence |

## Left out

- `bront.py` (the agent loop, console input, environment dump and shell execution) is not part of this model: it is I/O and calls into an external agent library.
- `save_to_file` and the JSON text reading in `load_from_file` (memory.py:134-152) are not modelled: text encoding and file handles are delegated to Python's `json` module. File existence is the boolean `fileExists`, and an existing file's parsed document is the parameter `document`.
- `__iter__` (memory.py:110-112) is not modelled: it only yields `nodes` in order, and `nodes` is a public field of the model.
- `Records.NodeFromDict`, `Records.ConnectionFromDict` and `Records.TagsFromJson` reject a value of the wrong JSON kind (a number where a string id is expected, a non-list "tags"); Python would carry such values into the object untyped. A node's fields are strings in this model.
- `Codec.StoreFromDict` reports a top-level non-dictionary, and a "nodes"/"connections" value that is neither a list nor an empty dictionary or empty string, as errors; in Python these surface as `AttributeError`/`TypeError`, whose exact kind is not modelled. An empty dictionary or empty string under either key reads as no items, as Python's loop does.
- `MemoryStore.ListOfSet` leaves the order of the tag list unspecified, since Python's set iteration order depends on string hashing.
- `AddConnection`'s `ValueError` is the outcome `Fail(MissingEndpoint)`; its message text is not modelled.
- Python's `related_nodes` dictionary relies on insertion order; it is modelled as a map plus the sequence of its keys in insertion order.
