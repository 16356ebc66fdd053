/**
 * A reference definition of `Memory.recall` over the store's two lists, and
 * the guarantees it gives: the direct matches first, in node order, then the
 * one-hop neighbours, each once, in the order the first connection reaching
 * them appears, each carrying the evidence of every connection that reaches it.
 *
 * The definitions walk their list from the front, one element at a time, as
 * the loops of the source do: each is stated on a prefix plus its last element.
 */
module Recall {
  import opened Wrappers
  import opened Records

  /** Why a related node was returned: the connection's type and the matched node at its other end. */
  datatype Evidence = Evidence(kind: string, matchedId: string)

  /** One result of a recall: the node, whether its own tags matched, and the evidence for a related node. */
  datatype RecallEntry = RecallEntry(node: Node, isDirectMatch: bool, evidence: seq<Evidence>)

  /** A node's tags meet the query (the query is read as a set). */
  predicate Matches(node: Node, query: seq<string>)
  {
    exists t :: t in query && t in node.tags
  }

  /** The matching nodes, in node order. */
  function DirectMatches(nodes: seq<Node>, query: seq<string>): seq<Node>
  {
    if nodes == [] then []
    else
      var prev := DirectMatches(nodes[..|nodes| - 1], query);
      if Matches(nodes[|nodes| - 1], query) then prev + [nodes[|nodes| - 1]] else prev
  }

  /** The identifiers of the matching nodes. */
  function MatchedIds(nodes: seq<Node>, query: seq<string>): set<string>
  {
    if nodes == [] then {}
    else
      var prev := MatchedIds(nodes[..|nodes| - 1], query);
      if Matches(nodes[|nodes| - 1], query) then prev + {nodes[|nodes| - 1].id} else prev
  }

  /** Identifier to node; when several nodes share an identifier the last one wins. */
  function Lookup(nodes: seq<Node>): map<string, Node>
  {
    if nodes == [] then map[]
    else Lookup(nodes[..|nodes| - 1])[nodes[|nodes| - 1].id := nodes[|nodes| - 1]]
  }

  /**
   * What one connection contributes to a recall: when exactly one endpoint is
   * matched, the other endpoint's identifier and the evidence naming the
   * matched one; otherwise nothing.
   */
  function Link(c: Connection, matched: set<string>): (r: Option<(string, Evidence)>)
    ensures r.Some? <==> ((c.fromId in matched) != (c.toId in matched))
    ensures r.Some? ==> r.value.0 !in matched && r.value.1.matchedId in matched && r.value.1.kind == c.kind
    ensures r.Some? ==>
      || (r.value.0 == c.toId && r.value.1.matchedId == c.fromId)
      || (r.value.0 == c.fromId && r.value.1.matchedId == c.toId)
  {
    if c.fromId in matched && c.toId !in matched then Some((c.toId, Evidence(c.kind, c.fromId)))
    else if c.toId in matched && c.fromId !in matched then Some((c.fromId, Evidence(c.kind, c.toId)))
    else None
  }

  /** The connection `c` reaches the unmatched node `id` from a matched one. */
  predicate Introduces(c: Connection, matched: set<string>, id: string)
  {
    Link(c, matched).Some? && Link(c, matched).value.0 == id
  }

  /** The related identifiers, each once, in the order of the first connection that reaches each. */
  function RelatedIds(connections: seq<Connection>, matched: set<string>): seq<string>
  {
    if connections == [] then []
    else
      var prev := RelatedIds(connections[..|connections| - 1], matched);
      match Link(connections[|connections| - 1], matched)
      case Some((id, _)) => if id in prev then prev else prev + [id]
      case None => prev
  }

  /** The evidence for `id`: one entry per connection reaching it, in connection order. */
  function EvidenceFor(connections: seq<Connection>, matched: set<string>, id: string): seq<Evidence>
  {
    if connections == [] then []
    else
      var prev := EvidenceFor(connections[..|connections| - 1], matched, id);
      match Link(connections[|connections| - 1], matched)
      case Some((other, e)) => if other == id then prev + [e] else prev
      case None => prev
  }

  function DirectEntries(matchedNodes: seq<Node>): seq<RecallEntry>
  {
    seq(|matchedNodes|, i requires 0 <= i < |matchedNodes| => RecallEntry(matchedNodes[i], true, []))
  }

  /** One related entry per identifier of `ids` that has a node in `lookup`, in the order of `ids`. */
  function RelatedEntries(ids: seq<string>, lookup: map<string, Node>,
                          connections: seq<Connection>, matched: set<string>): seq<RecallEntry>
  {
    if ids == [] then []
    else
      var prev := RelatedEntries(ids[..|ids| - 1], lookup, connections, matched);
      var id := ids[|ids| - 1];
      if id in lookup then prev + [RecallEntry(lookup[id], false, EvidenceFor(connections, matched, id))]
      else prev
  }

  /** What `Memory.recall` returns for a store holding `nodes` and `connections`. */
  function RecallSpec(nodes: seq<Node>, connections: seq<Connection>, query: seq<string>): seq<RecallEntry>
  {
    var matched := MatchedIds(nodes, query);
    DirectEntries(DirectMatches(nodes, query))
      + RelatedEntries(RelatedIds(connections, matched), Lookup(nodes), connections, matched)
  }

  // =====================================================================
  // Direct matches
  // =====================================================================

  /** The indices of the matching nodes, in increasing order. */
  ghost function MatchingIndices(nodes: seq<Node>, query: seq<string>): seq<nat>
  {
    if nodes == [] then []
    else
      var prev := MatchingIndices(nodes[..|nodes| - 1], query);
      if Matches(nodes[|nodes| - 1], query) then prev + [|nodes| - 1] else prev
  }

  /**
   * The direct matches are exactly the nodes whose tags meet the query, in
   * node order: the j-th direct match is the node at the j-th matching index,
   * the indices increase, and every matching index is among them.
   */
  lemma {:induction false} DirectMatchesSelectMatchingNodes(nodes: seq<Node>, query: seq<string>)
    ensures |MatchingIndices(nodes, query)| == |DirectMatches(nodes, query)|
    ensures forall j :: 0 <= j < |MatchingIndices(nodes, query)| ==>
      MatchingIndices(nodes, query)[j] < |nodes| && DirectMatches(nodes, query)[j] == nodes[MatchingIndices(nodes, query)[j]]
    ensures forall j, k :: 0 <= j < k < |MatchingIndices(nodes, query)| ==>
      MatchingIndices(nodes, query)[j] < MatchingIndices(nodes, query)[k]
    ensures forall i :: 0 <= i < |nodes| ==> (Matches(nodes[i], query) <==> i in MatchingIndices(nodes, query))
  {
    if nodes != [] {
      var p := nodes[..|nodes| - 1];
      DirectMatchesSelectMatchingNodes(p, query);
      assert forall i :: 0 <= i < |p| ==> nodes[i] == p[i];
    }
  }

  /** An identifier is matched exactly when some node carrying it has tags that meet the query. */
  lemma {:induction false} MatchedIdsExactly(nodes: seq<Node>, query: seq<string>, id: string)
    ensures id in MatchedIds(nodes, query) <==>
      exists i :: 0 <= i < |nodes| && nodes[i].id == id && Matches(nodes[i], query)
  {
    if nodes != [] {
      var p := nodes[..|nodes| - 1];
      MatchedIdsExactly(p, query, id);
      assert forall i :: 0 <= i < |p| ==> nodes[i] == p[i];
    }
  }

  /** The lookup holds every identifier present and maps it to the last node carrying it. */
  lemma {:induction false} LookupKeepsLast(nodes: seq<Node>, id: string)
    ensures id in Lookup(nodes) <==> HasId(nodes, id)
    ensures id in Lookup(nodes) ==>
      && Lookup(nodes)[id].id == id
      && exists i :: 0 <= i < |nodes| && nodes[i] == Lookup(nodes)[id]
                     && forall j :: i < j < |nodes| ==> nodes[j].id != id
  {
    if nodes != [] {
      var p := nodes[..|nodes| - 1];
      LookupKeepsLast(p, id);
      assert forall i :: 0 <= i < |p| ==> nodes[i] == p[i];
      if nodes[|nodes| - 1].id != id && id in Lookup(p) {
        var i :| 0 <= i < |p| && p[i] == Lookup(p)[id] && forall j :: i < j < |p| ==> p[j].id != id;
        assert nodes[i] == Lookup(nodes)[id];
      }
    }
  }

  /** The lookup maps every identifier to a node carrying that identifier. */
  lemma {:induction false} LookupConsistent(nodes: seq<Node>)
    ensures forall id :: id in Lookup(nodes) ==> Lookup(nodes)[id].id == id
  {
    if nodes != [] {
      LookupConsistent(nodes[..|nodes| - 1]);
    }
  }

  // =====================================================================
  // Related identifiers
  // =====================================================================

  /** `x` is reached by a connection no later than the first connection that reaches `y`. */
  ghost predicate IntroducedBefore(connections: seq<Connection>, matched: set<string>, x: string, y: string)
  {
    exists i :: 0 <= i < |connections| && Introduces(connections[i], matched, x)
      && forall k :: 0 <= k <= i ==> !Introduces(connections[k], matched, y)
  }

  /** An identifier is related exactly when some connection reaches it from a matched node. */
  lemma {:induction false} RelatedIdsExactly(connections: seq<Connection>, matched: set<string>, id: string)
    ensures id in RelatedIds(connections, matched) <==>
      exists i :: 0 <= i < |connections| && Introduces(connections[i], matched, id)
  {
    if connections != [] {
      var p := connections[..|connections| - 1];
      RelatedIdsExactly(p, matched, id);
      assert forall i :: 0 <= i < |p| ==> connections[i] == p[i];
    }
  }

  /** No related identifier is a matched one. */
  lemma RelatedIdsUnmatched(connections: seq<Connection>, matched: set<string>, id: string)
    requires id in RelatedIds(connections, matched)
    ensures id !in matched
  {
    RelatedIdsExactly(connections, matched, id);
  }

  /** Each related identifier occurs once. */
  lemma {:induction false} RelatedIdsDistinct(connections: seq<Connection>, matched: set<string>)
    ensures forall a, b :: 0 <= a < b < |RelatedIds(connections, matched)| ==>
      RelatedIds(connections, matched)[a] != RelatedIds(connections, matched)[b]
  {
    if connections != [] {
      RelatedIdsDistinct(connections[..|connections| - 1], matched);
    }
  }

  lemma IntroducedBeforeExtends(p: seq<Connection>, c: Connection, matched: set<string>, x: string, y: string)
    requires IntroducedBefore(p, matched, x, y)
    ensures IntroducedBefore(p + [c], matched, x, y)
  {
    var i :| 0 <= i < |p| && Introduces(p[i], matched, x)
             && forall k :: 0 <= k <= i ==> !Introduces(p[k], matched, y);
    assert forall k :: 0 <= k <= i ==> (p + [c])[k] == p[k];
  }

  /** The related identifiers are ordered by the first connection that reaches each. */
  lemma {:induction false} RelatedIdsOrdered(connections: seq<Connection>, matched: set<string>)
    ensures forall a, b :: 0 <= a < b < |RelatedIds(connections, matched)| ==>
      IntroducedBefore(connections, matched, RelatedIds(connections, matched)[a], RelatedIds(connections, matched)[b])
  {
    if connections != [] {
      var p := connections[..|connections| - 1];
      var c := connections[|connections| - 1];
      assert connections == p + [c];
      var prev := RelatedIds(p, matched);
      var r := RelatedIds(connections, matched);
      RelatedIdsOrdered(p, matched);
      forall a, b | 0 <= a < b < |r|
        ensures IntroducedBefore(connections, matched, r[a], r[b])
      {
        if b < |prev| {
          IntroducedBeforeExtends(p, c, matched, prev[a], prev[b]);
        } else {
          // r[b] is new: reached by c and by no earlier connection.
          var z := r[b];
          RelatedIdsExactly(p, matched, prev[a]);
          RelatedIdsExactly(p, matched, z);
          var i :| 0 <= i < |p| && Introduces(p[i], matched, prev[a]);
          assert forall k :: 0 <= k <= i ==> connections[k] == p[k];
        }
      }
    }
  }

  // =====================================================================
  // Evidence
  // =====================================================================

  /** Evidence follows connection order: that of a concatenation is the concatenation of the evidence. */
  lemma {:induction false} EvidenceForAppend(a: seq<Connection>, b: seq<Connection>, matched: set<string>, id: string)
    ensures EvidenceFor(a + b, matched, id) == EvidenceFor(a, matched, id) + EvidenceFor(b, matched, id)
  {
    if b != [] {
      var b' := b[..|b| - 1];
      assert (a + b)[..|a + b| - 1] == a + b';
      EvidenceForAppend(a, b', matched, id);
    } else {
      assert a + b == a;
    }
  }

  /**
   * A single connection is evidence for `id` exactly when one endpoint is
   * matched and the other is `id`; it then names its type and the matched endpoint.
   */
  lemma EvidenceOfOneConnection(c: Connection, matched: set<string>, id: string)
    ensures EvidenceFor([c], matched, id) ==
      if c.fromId in matched && c.toId !in matched && c.toId == id then [Evidence(c.kind, c.fromId)]
      else if c.toId in matched && c.fromId !in matched && c.fromId == id then [Evidence(c.kind, c.toId)]
      else []
  {
    assert [c][..0] == [];
  }

  /** An identifier has evidence exactly when it is related. */
  lemma {:induction false} EvidenceExactlyForRelated(connections: seq<Connection>, matched: set<string>, id: string)
    ensures EvidenceFor(connections, matched, id) != [] <==> id in RelatedIds(connections, matched)
  {
    if connections != [] {
      EvidenceExactlyForRelated(connections[..|connections| - 1], matched, id);
    }
  }

  // =====================================================================
  // Related entries
  // =====================================================================

  /** The identifiers of `ids` that have a node in `lookup`, in the order of `ids`. */
  function KeptIds(ids: seq<string>, lookup: map<string, Node>): seq<string>
  {
    if ids == [] then []
    else
      var prev := KeptIds(ids[..|ids| - 1], lookup);
      if ids[|ids| - 1] in lookup then prev + [ids[|ids| - 1]] else prev
  }

  /**
   * The related entries are one per kept identifier, in order: each is the
   * identifier's node and carries the identifier's evidence.
   */
  lemma {:induction false} RelatedEntriesOfKeptIds(ids: seq<string>, lookup: map<string, Node>,
                                                   connections: seq<Connection>, matched: set<string>)
    requires forall x :: x in lookup ==> lookup[x].id == x
    ensures |RelatedEntries(ids, lookup, connections, matched)| == |KeptIds(ids, lookup)|
    ensures forall j :: 0 <= j < |KeptIds(ids, lookup)| ==>
      && KeptIds(ids, lookup)[j] in lookup
      && RelatedEntries(ids, lookup, connections, matched)[j]
           == RecallEntry(lookup[KeptIds(ids, lookup)[j]], false, EvidenceFor(connections, matched, KeptIds(ids, lookup)[j]))
      && RelatedEntries(ids, lookup, connections, matched)[j].node.id == KeptIds(ids, lookup)[j]
  {
    if ids != [] {
      RelatedEntriesOfKeptIds(ids[..|ids| - 1], lookup, connections, matched);
    }
  }

  /** An identifier is kept exactly when it is among `ids` and has a node. */
  lemma {:induction false} KeptIdsMembership(ids: seq<string>, lookup: map<string, Node>, id: string)
    ensures id in KeptIds(ids, lookup) <==> id in ids && id in lookup
  {
    if ids != [] {
      var p := ids[..|ids| - 1];
      assert ids == p + [ids[|ids| - 1]];
      KeptIdsMembership(p, lookup, id);
    }
  }

  /** Keeping some identifiers of a list without repetitions gives a list without repetitions. */
  lemma {:induction false} KeptIdsDistinct(ids: seq<string>, lookup: map<string, Node>)
    requires forall a, b :: 0 <= a < b < |ids| ==> ids[a] != ids[b]
    ensures forall j1, j2 :: 0 <= j1 < j2 < |KeptIds(ids, lookup)| ==> KeptIds(ids, lookup)[j1] != KeptIds(ids, lookup)[j2]
  {
    if ids != [] {
      var p := ids[..|ids| - 1];
      var x := ids[|ids| - 1];
      assert ids == p + [x];
      KeptIdsDistinct(p, lookup);
      KeptIdsMembership(p, lookup, x);
    }
  }

  /** Keeping some identifiers of a list ordered by first introduction keeps them ordered. */
  lemma {:induction false} KeptIdsOrdered(ids: seq<string>, lookup: map<string, Node>,
                                          connections: seq<Connection>, matched: set<string>)
    requires forall a, b :: 0 <= a < b < |ids| ==> IntroducedBefore(connections, matched, ids[a], ids[b])
    ensures forall j1, j2 :: 0 <= j1 < j2 < |KeptIds(ids, lookup)| ==>
      IntroducedBefore(connections, matched, KeptIds(ids, lookup)[j1], KeptIds(ids, lookup)[j2])
  {
    if ids != [] {
      var p := ids[..|ids| - 1];
      var x := ids[|ids| - 1];
      assert ids == p + [x];
      KeptIdsOrdered(p, lookup, connections, matched);
      var prev := KeptIds(p, lookup);
      var k := KeptIds(ids, lookup);
      forall j1, j2 | 0 <= j1 < j2 < |k|
        ensures IntroducedBefore(connections, matched, k[j1], k[j2])
      {
        if j2 >= |prev| {
          var y := prev[j1];
          KeptIdsMembership(p, lookup, y);
          var a :| 0 <= a < |p| && p[a] == y;
          assert ids[a] == y && ids[|ids| - 1] == k[j2];
        }
      }
    }
  }

  // =====================================================================
  // What recall promises
  // =====================================================================

  /** The result starts with one direct entry per matching node, in node order, with no evidence. */
  lemma RecallDirectPrefix(nodes: seq<Node>, connections: seq<Connection>, query: seq<string>)
    ensures |DirectMatches(nodes, query)| <= |RecallSpec(nodes, connections, query)|
    ensures forall j :: 0 <= j < |DirectMatches(nodes, query)| ==>
      RecallSpec(nodes, connections, query)[j] == RecallEntry(DirectMatches(nodes, query)[j], true, [])
  {
  }

  /** Whether a node's identifier is matched, in terms of the nodes: some node carrying it meets the query. */
  ghost predicate IsMatchedId(nodes: seq<Node>, query: seq<string>, id: string)
  {
    exists i :: 0 <= i < |nodes| && nodes[i].id == id && Matches(nodes[i], query)
  }

  /** The identifiers that get a related entry: the related ones that have a node. */
  function RelatedKept(nodes: seq<Node>, connections: seq<Connection>, query: seq<string>): seq<string>
  {
    KeptIds(RelatedIds(connections, MatchedIds(nodes, query)), Lookup(nodes))
  }

  /** After the direct prefix, the result holds one related entry per kept identifier, in order. */
  lemma RecallRelatedPart(nodes: seq<Node>, connections: seq<Connection>, query: seq<string>)
    ensures |RecallSpec(nodes, connections, query)|
            == |DirectMatches(nodes, query)| + |RelatedKept(nodes, connections, query)|
    ensures forall j :: 0 <= j < |RelatedKept(nodes, connections, query)| ==>
      var id := RelatedKept(nodes, connections, query)[j];
      && id in Lookup(nodes)
      && RecallSpec(nodes, connections, query)[|DirectMatches(nodes, query)| + j]
           == RecallEntry(Lookup(nodes)[id], false, EvidenceFor(connections, MatchedIds(nodes, query), id))
      && Lookup(nodes)[id].id == id
  {
    var matched := MatchedIds(nodes, query);
    LookupConsistent(nodes);
    RelatedEntriesOfKeptIds(RelatedIds(connections, matched), Lookup(nodes), connections, matched);
  }

  /**
   * After the direct prefix come the related entries: none is direct, none
   * names a matched identifier, each is the last node carrying its identifier,
   * and each carries that identifier's evidence, which is never empty.
   */
  lemma RecallRelatedEntries(nodes: seq<Node>, connections: seq<Connection>, query: seq<string>)
    ensures forall j :: |DirectMatches(nodes, query)| <= j < |RecallSpec(nodes, connections, query)| ==>
      var e := RecallSpec(nodes, connections, query)[j];
      && !e.isDirectMatch
      && !IsMatchedId(nodes, query, e.node.id)
      && e.node.id in Lookup(nodes) && e.node == Lookup(nodes)[e.node.id]
      && e.evidence == EvidenceFor(connections, MatchedIds(nodes, query), e.node.id)
      && e.evidence != []
  {
    var matched := MatchedIds(nodes, query);
    var ids := RelatedIds(connections, matched);
    var kept := RelatedKept(nodes, connections, query);
    var n := |DirectMatches(nodes, query)|;
    RecallRelatedPart(nodes, connections, query);
    forall j | n <= j < |RecallSpec(nodes, connections, query)|
      ensures var e := RecallSpec(nodes, connections, query)[j];
        && !e.isDirectMatch
        && !IsMatchedId(nodes, query, e.node.id)
        && e.node.id in Lookup(nodes) && e.node == Lookup(nodes)[e.node.id]
        && e.evidence == EvidenceFor(connections, matched, e.node.id)
        && e.evidence != []
    {
      var id := kept[j - n];
      assert RecallSpec(nodes, connections, query)[j]
        == RecallEntry(Lookup(nodes)[id], false, EvidenceFor(connections, matched, id));
      KeptIdsMembership(ids, Lookup(nodes), id);
      RelatedIdsUnmatched(connections, matched, id);
      MatchedIdsExactly(nodes, query, id);
      EvidenceExactlyForRelated(connections, matched, id);
    }
  }

  /** No identifier has two related entries. */
  lemma RecallRelatedDistinct(nodes: seq<Node>, connections: seq<Connection>, query: seq<string>)
    ensures forall j1, j2 :: |DirectMatches(nodes, query)| <= j1 < j2 < |RecallSpec(nodes, connections, query)| ==>
      RecallSpec(nodes, connections, query)[j1].node.id != RecallSpec(nodes, connections, query)[j2].node.id
  {
    var matched := MatchedIds(nodes, query);
    var kept := RelatedKept(nodes, connections, query);
    var n := |DirectMatches(nodes, query)|;
    RecallRelatedPart(nodes, connections, query);
    RelatedIdsDistinct(connections, matched);
    KeptIdsDistinct(RelatedIds(connections, matched), Lookup(nodes));
    forall j1, j2 | n <= j1 < j2 < |RecallSpec(nodes, connections, query)|
      ensures RecallSpec(nodes, connections, query)[j1].node.id != RecallSpec(nodes, connections, query)[j2].node.id
    {
      assert RecallSpec(nodes, connections, query)[j1].node.id == kept[j1 - n];
      assert RecallSpec(nodes, connections, query)[j2].node.id == kept[j2 - n];
    }
  }

  /** Related entries appear in the order of the first connection that reaches each. */
  lemma RecallRelatedOrdered(nodes: seq<Node>, connections: seq<Connection>, query: seq<string>)
    ensures forall j1, j2 :: |DirectMatches(nodes, query)| <= j1 < j2 < |RecallSpec(nodes, connections, query)| ==>
      IntroducedBefore(connections, MatchedIds(nodes, query),
                       RecallSpec(nodes, connections, query)[j1].node.id, RecallSpec(nodes, connections, query)[j2].node.id)
  {
    var matched := MatchedIds(nodes, query);
    var kept := RelatedKept(nodes, connections, query);
    var n := |DirectMatches(nodes, query)|;
    RecallRelatedPart(nodes, connections, query);
    RelatedIdsOrdered(connections, matched);
    KeptIdsOrdered(RelatedIds(connections, matched), Lookup(nodes), connections, matched);
    forall j1, j2 | n <= j1 < j2 < |RecallSpec(nodes, connections, query)|
      ensures IntroducedBefore(connections, matched, RecallSpec(nodes, connections, query)[j1].node.id,
                               RecallSpec(nodes, connections, query)[j2].node.id)
    {
      assert RecallSpec(nodes, connections, query)[j1].node.id == kept[j1 - n];
      assert RecallSpec(nodes, connections, query)[j2].node.id == kept[j2 - n];
    }
  }

  /**
   * An identifier has a related entry exactly when some connection reaches it
   * from a matched node and some node carries it: reached identifiers with no
   * node are dropped.
   */
  lemma RecallRelatedComplete(nodes: seq<Node>, connections: seq<Connection>, query: seq<string>, id: string)
    ensures (exists j :: |DirectMatches(nodes, query)| <= j < |RecallSpec(nodes, connections, query)|
                         && RecallSpec(nodes, connections, query)[j].node.id == id)
            <==> ((exists i :: 0 <= i < |connections| && Introduces(connections[i], MatchedIds(nodes, query), id))
                  && HasId(nodes, id))
  {
    var matched := MatchedIds(nodes, query);
    var kept := RelatedKept(nodes, connections, query);
    var n := |DirectMatches(nodes, query)|;
    RecallRelatedPart(nodes, connections, query);
    KeptIdsMembership(RelatedIds(connections, matched), Lookup(nodes), id);
    RelatedIdsExactly(connections, matched, id);
    LookupKeepsLast(nodes, id);
    if exists j :: n <= j < |RecallSpec(nodes, connections, query)| && RecallSpec(nodes, connections, query)[j].node.id == id {
      var j :| n <= j < |RecallSpec(nodes, connections, query)| && RecallSpec(nodes, connections, query)[j].node.id == id;
      assert kept[j - n] == id;
    }
    if id in kept {
      var j :| 0 <= j < |kept| && kept[j] == id;
      assert RecallSpec(nodes, connections, query)[n + j].node.id == id;
    }
  }

  /** An empty query recalls nothing. */
  lemma {:induction false} RecallEmptyQuery(nodes: seq<Node>, connections: seq<Connection>)
    ensures RecallSpec(nodes, connections, []) == []
  {
    NoMatchesForEmptyQuery(nodes);
    NothingRelatedToNoMatch(connections);
  }

  lemma {:induction false} NoMatchesForEmptyQuery(nodes: seq<Node>)
    ensures DirectMatches(nodes, []) == [] && MatchedIds(nodes, []) == {}
  {
    if nodes != [] {
      NoMatchesForEmptyQuery(nodes[..|nodes| - 1]);
    }
  }

  lemma {:induction false} NothingRelatedToNoMatch(connections: seq<Connection>)
    ensures RelatedIds(connections, {}) == []
  {
    if connections != [] {
      NothingRelatedToNoMatch(connections[..|connections| - 1]);
    }
  }

  /**
   * Two nodes, A tagged x and B tagged y with x != y, and a connection from A
   * to B: recalling x gives A as a direct match, then B as related, with the
   * connection as its only evidence.
   */
  lemma RecallTwoNodeScenario(a: Node, b: Node, kind: string, x: string, y: string)
    requires a.tags == [x] && b.tags == [y] && x != y && a.id != b.id
    ensures RecallSpec([a, b], [Connection(a.id, b.id, kind)], [x])
              == [RecallEntry(a, true, []), RecallEntry(b, false, [Evidence(kind, a.id)])]
  {
    var c := Connection(a.id, b.id, kind);
    ScenarioMatches(a, b, x, y);
    ScenarioRelated(c, a.id, b.id);
    assert Lookup([a]) == map[a.id := a];
    assert [a, b][..1] == [a];
    assert Lookup([a, b]) == map[a.id := a, b.id := b];
    var ids := [b.id];
    assert ids[..0] == [];
    var lookup := Lookup([a, b]);
    assert b.id in lookup && lookup[b.id] == b;
    assert RelatedEntries(ids, lookup, [c], {a.id})
      == RelatedEntries([], lookup, [c], {a.id}) + [RecallEntry(b, false, EvidenceFor([c], {a.id}, b.id))];
    assert DirectEntries([a]) == [RecallEntry(a, true, [])];
  }

  lemma ScenarioMatches(a: Node, b: Node, x: string, y: string)
    requires a.tags == [x] && b.tags == [y] && x != y
    ensures DirectMatches([a, b], [x]) == [a] && MatchedIds([a, b], [x]) == {a.id}
  {
    assert [a, b][..1] == [a];
    assert [a][..0] == [];
    assert Matches(a, [x]) by { assert x in [x] && x in a.tags; }
    assert !Matches(b, [x]);
    assert DirectMatches([a], [x]) == DirectMatches([], [x]) + [a];
    assert MatchedIds([a], [x]) == MatchedIds([], [x]) + {a.id};
    assert DirectMatches([a, b], [x]) == DirectMatches([a], [x]);
    assert MatchedIds([a, b], [x]) == MatchedIds([a], [x]);
  }

  lemma ScenarioRelated(c: Connection, from: string, to: string)
    requires c.fromId == from && c.toId == to && from != to
    ensures RelatedIds([c], {from}) == [to]
    ensures EvidenceFor([c], {from}, to) == [Evidence(c.kind, from)]
  {
    assert [c][..0] == [];
  }
}
