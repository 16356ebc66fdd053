/**
 * The in-memory graph store `Memory`: a list of nodes and a list of
 * connections that its methods update in place.
 */
module MemoryStore {
  import opened Wrappers
  import opened Records
  import opened Codec
  import opened Recall

  /** Why `AddConnection` refused a connection. */
  datatype StoreError = MissingEndpoint

  class Memory {
    var nodes: seq<Node>
    var connections: seq<Connection>

    /** Every connection's endpoints exist among the nodes. */
    ghost predicate Consistent()
      reads this
    {
      ReferentiallyIntact(nodes, connections)
    }

    /** An empty store. */
    constructor ()
      ensures nodes == [] && connections == []
      ensures Consistent()
    {
      nodes := [];
      connections := [];
    }

    /** The number of nodes. */
    function Len(): (n: nat)
      reads this
      ensures n == |nodes|
    {
      |nodes|
    }

    /** Appends a node; identifiers are not checked, so a duplicate identifier is accepted. */
    method AddNode(node: Node)
      modifies this
      ensures nodes == old(nodes) + [node]
      ensures connections == old(connections)
      ensures Len() == old(Len()) + 1
      ensures old(Consistent()) ==> Consistent()
    {
      nodes := nodes + [node];
      assert forall k :: 0 <= k < |old(nodes)| ==> nodes[k] == old(nodes)[k];
    }

    /**
     * Appends a connection when both endpoints name existing nodes; otherwise
     * fails and changes nothing.
     */
    method AddConnection(c: Connection) returns (outcome: Outcome<StoreError>)
      modifies this
      ensures outcome.Pass? <==> HasId(old(nodes), c.fromId) && HasId(old(nodes), c.toId)
      ensures outcome.Fail? ==> outcome.error == MissingEndpoint
      ensures nodes == old(nodes)
      ensures connections == if outcome.Pass? then old(connections) + [c] else old(connections)
      ensures old(Consistent()) ==> Consistent()
    {
      if HasId(nodes, c.fromId) && HasId(nodes, c.toId) {
        connections := connections + [c];
        outcome := Pass;
      } else {
        outcome := Fail(MissingEndpoint);
      }
    }

    /** Every tag used by some node, each once, in no particular order. */
    method GetTags() returns (tags: seq<string>)
      ensures forall t :: t in tags <==> exists i :: 0 <= i < |nodes| && t in nodes[i].tags
      ensures forall a, b :: 0 <= a < b < |tags| ==> tags[a] != tags[b]
    {
      var seen: set<string> := {};
      var i := 0;
      while i < |nodes|
        invariant 0 <= i <= |nodes|
        invariant forall t :: t in seen <==> exists k :: 0 <= k < i && t in nodes[k].tags
      {
        seen := seen + (set t | t in nodes[i].tags);
        i := i + 1;
      }
      tags := ListOfSet(seen);
    }

    /**
     * The nodes whose tags meet the query, then their one-hop neighbours
     * with the evidence that links each to them.
     */
    method Recall(query: seq<string>) returns (result: seq<RecallEntry>)
      ensures result == RecallSpec(nodes, connections, query)
    {
      // Direct matches, in node order.
      var matchedNodes: seq<Node> := [];
      var matchedIds: set<string> := {};
      var i := 0;
      while i < |nodes|
        invariant 0 <= i <= |nodes|
        invariant matchedNodes == DirectMatches(nodes[..i], query)
        invariant matchedIds == MatchedIds(nodes[..i], query)
      {
        assert nodes[..i + 1][..i] == nodes[..i];
        var node := nodes[i];
        if Matches(node, query) {
          matchedNodes := matchedNodes + [node];
          matchedIds := matchedIds + {node.id};
        }
        i := i + 1;
      }
      assert nodes[..|nodes|] == nodes;

      var lookup := Lookup(nodes);
      result := DirectEntries(matchedNodes);

      // Related identifiers in the order they are first reached, and their evidence.
      var relatedOrder: seq<string> := [];
      var related: map<string, seq<Evidence>> := map[];
      var k := 0;
      while k < |connections|
        invariant 0 <= k <= |connections|
        invariant relatedOrder == RelatedIds(connections[..k], matchedIds)
        invariant forall id :: id in related <==> id in relatedOrder
        invariant forall id :: id in related ==> related[id] == EvidenceFor(connections[..k], matchedIds, id)
      {
        var c := connections[k];
        assert connections[..k + 1][..k] == connections[..k];
        assert connections[..k + 1][k] == c;
        if c.fromId in matchedIds && c.toId !in matchedIds {
          if c.toId !in related {
            EvidenceExactlyForRelated(connections[..k], matchedIds, c.toId);
            related := related[c.toId := []];
            relatedOrder := relatedOrder + [c.toId];
          }
          related := related[c.toId := related[c.toId] + [Evidence(c.kind, c.fromId)]];
        } else if c.toId in matchedIds && c.fromId !in matchedIds {
          if c.fromId !in related {
            EvidenceExactlyForRelated(connections[..k], matchedIds, c.fromId);
            related := related[c.fromId := []];
            relatedOrder := relatedOrder + [c.fromId];
          }
          related := related[c.fromId := related[c.fromId] + [Evidence(c.kind, c.toId)]];
        }
        k := k + 1;
      }
      assert connections[..|connections|] == connections;

      // One related entry per reached identifier that has a node.
      var direct := result;
      var m := 0;
      while m < |relatedOrder|
        invariant 0 <= m <= |relatedOrder|
        invariant result == direct + RelatedEntries(relatedOrder[..m], lookup, connections, matchedIds)
      {
        assert relatedOrder[..m + 1][..m] == relatedOrder[..m];
        var id := relatedOrder[m];
        if id in lookup {
          result := result + [RecallEntry(lookup[id], false, related[id])];
        }
        m := m + 1;
      }
      assert relatedOrder[..|relatedOrder|] == relatedOrder;
    }

    /**
     * The store as a dictionary with exactly the keys "nodes" and "connections",
     * one record dictionary per node and per connection, in order; reading it
     * back gives the same two lists.
     */
    function ToDict(): (data: Json)
      reads this
      ensures data.JObject? && data.fields.Keys == {"nodes", "connections"}
      ensures data.fields["nodes"].JArray? && |data.fields["nodes"].items| == |nodes|
      ensures forall i :: 0 <= i < |nodes| ==> data.fields["nodes"].items[i] == NodeToDict(nodes[i])
      ensures data.fields["connections"].JArray? && |data.fields["connections"].items| == |connections|
      ensures forall i :: 0 <= i < |connections| ==>
                data.fields["connections"].items[i] == ConnectionToDict(connections[i])
      ensures StoreFromDict(data) == Ok(Snapshot(nodes, connections))
    {
      StoreRoundTrip(Snapshot(nodes, connections));
      StoreToDict(Snapshot(nodes, connections))
    }

    /** A new store holding the lists read from a dictionary, or the reason they could not be read. */
    static method FromDict(data: Json) returns (r: Result<Memory, DecodeError>)
      ensures StoreFromDict(data).Err? ==> r == Err(StoreFromDict(data).error)
      ensures StoreFromDict(data).Ok? ==>
        && r.Ok? && fresh(r.value)
        && r.value.nodes == StoreFromDict(data).value.nodes
        && r.value.connections == StoreFromDict(data).value.connections
    {
      match StoreFromDict(data)
      case Err(e) =>
        r := Err(e);
      case Ok(s) =>
        var memory := new Memory();
        memory.nodes := s.nodes;
        memory.connections := s.connections;
        r := Ok(memory);
    }

    /**
     * Loads a store: a file that does not exist gives an empty store;
     * otherwise `document` is the dictionary the file holds.
     */
    static method LoadFromFile(fileExists: bool, document: Json) returns (r: Result<Memory, DecodeError>)
      ensures !fileExists ==> r.Ok? && fresh(r.value) && r.value.nodes == [] && r.value.connections == []
      ensures fileExists && StoreFromDict(document).Err? ==> r == Err(StoreFromDict(document).error)
      ensures fileExists && StoreFromDict(document).Ok? ==>
        && r.Ok? && fresh(r.value)
        && r.value.nodes == StoreFromDict(document).value.nodes
        && r.value.connections == StoreFromDict(document).value.connections
    {
      if !fileExists {
        var memory := new Memory();
        return Ok(memory);
      }
      r := FromDict(document);
    }
  }

  /** `list(s)`: the elements of a set, each once, in an unspecified order. */
  method ListOfSet(s: set<string>) returns (r: seq<string>)
    ensures forall x :: x in r <==> x in s
    ensures forall a, b :: 0 <= a < b < |r| ==> r[a] != r[b]
  {
    r := [];
    var rest := s;
    while rest != {}
      invariant rest <= s
      invariant forall x :: x in r <==> x in s && x !in rest
      invariant forall a, b :: 0 <= a < b < |r| ==> r[a] != r[b]
      decreases rest
    {
      var x :| x in rest;
      r := r + [x];
      rest := rest - {x};
    }
  }
}
