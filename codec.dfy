/**
 * The dictionary shape of a whole store, as produced by `Memory.to_dict` and
 * read back by `Memory.from_dict`:
 *   { "nodes": [ node dict, ... ], "connections": [ connection dict, ... ] }
 * A missing "nodes" or "connections" key reads as an empty list.
 */
module Codec {
  import opened Wrappers
  import opened Records

  /** The two lists a store holds, in order. */
  datatype Snapshot = Snapshot(nodes: seq<Node>, connections: seq<Connection>)

  function NodesToJson(nodes: seq<Node>): (items: seq<Json>)
  {
    seq(|nodes|, i requires 0 <= i < |nodes| => NodeToDict(nodes[i]))
  }

  function ConnectionsToJson(connections: seq<Connection>): (items: seq<Json>)
  {
    seq(|connections|, i requires 0 <= i < |connections| => ConnectionToDict(connections[i]))
  }

  /** Reads every node of a list in order; the first item that is not a node dictionary fails the whole list. */
  function NodesFromJson(items: seq<Json>): (r: Result<seq<Node>, DecodeError>)
    ensures r.Ok? ==> |r.value| == |items| && forall i :: 0 <= i < |items| ==> NodeFromDict(items[i]) == Ok(r.value[i])
    ensures r.Err? <==> exists i :: 0 <= i < |items| && NodeFromDict(items[i]).Err?
  {
    if items == [] then Ok([])
    else
      var node :- NodeFromDict(items[0]);
      var rest :- NodesFromJson(items[1..]);
      Ok([node] + rest)
  }

  /** Reads every connection of a list in order; the first bad item fails the whole list. */
  function ConnectionsFromJson(items: seq<Json>): (r: Result<seq<Connection>, DecodeError>)
    ensures r.Ok? ==> |r.value| == |items| && forall i :: 0 <= i < |items| ==> ConnectionFromDict(items[i]) == Ok(r.value[i])
    ensures r.Err? <==> exists i :: 0 <= i < |items| && ConnectionFromDict(items[i]).Err?
  {
    if items == [] then Ok([])
    else
      var c :- ConnectionFromDict(items[0]);
      var rest :- ConnectionsFromJson(items[1..]);
      Ok([c] + rest)
  }

  /**
   * A value other than a list that a Python `for` loop still walks without
   * a single step: an empty dictionary or an empty string.
   */
  predicate IteratesAsEmpty(j: Json)
  {
    j == JObject(map[]) || j == JString("")
  }

  /**
   * The items `for item in data.get(key, [])` visits: a missing key gives
   * none, a list gives its items, an empty dictionary or string gives none;
   * any other value fails (in Python, indexing what the loop yields fails).
   */
  function ListOrEmpty(fields: map<string, Json>, key: string): (r: Result<seq<Json>, DecodeError>)
    ensures key !in fields ==> r == Ok([])
    ensures key in fields ==> (r.Ok? <==> fields[key].JArray? || IteratesAsEmpty(fields[key]))
    ensures key in fields && fields[key].JArray? ==> r == Ok(fields[key].items)
    ensures key in fields && IteratesAsEmpty(fields[key]) ==> r == Ok([])
  {
    if key !in fields then Ok([])
    else if fields[key].JArray? then Ok(fields[key].items)
    else if IteratesAsEmpty(fields[key]) then Ok([])
    else Err(WrongType(key))
  }

  /** The dictionary `Memory.to_dict` builds from the two lists. */
  function StoreToDict(s: Snapshot): (data: Json)
    ensures data.JObject? && data.fields.Keys == {"nodes", "connections"}
    ensures data.fields["nodes"].JArray? && |data.fields["nodes"].items| == |s.nodes|
    ensures forall i :: 0 <= i < |s.nodes| ==> data.fields["nodes"].items[i] == NodeToDict(s.nodes[i])
    ensures data.fields["connections"].JArray? && |data.fields["connections"].items| == |s.connections|
    ensures forall i :: 0 <= i < |s.connections| ==>
              data.fields["connections"].items[i] == ConnectionToDict(s.connections[i])
  {
    JObject(map["nodes" := JArray(NodesToJson(s.nodes)),
                "connections" := JArray(ConnectionsToJson(s.connections))])
  }

  /** The two lists `Memory.from_dict` reads from a dictionary. */
  function StoreFromDict(data: Json): (r: Result<Snapshot, DecodeError>)
    ensures !data.JObject? ==> r == Err(NotAnObject)
    ensures data.JObject? && "nodes" !in data.fields && "connections" !in data.fields ==> r == Ok(Snapshot([], []))
    ensures r.Ok? && "nodes" !in data.fields ==> r.value.nodes == []
    ensures r.Ok? && "connections" !in data.fields ==> r.value.connections == []
    ensures r.Ok? && "nodes" in data.fields ==>
      || (data.fields["nodes"].JArray? && NodesFromJson(data.fields["nodes"].items) == Ok(r.value.nodes))
      || (IteratesAsEmpty(data.fields["nodes"]) && r.value.nodes == [])
    ensures r.Ok? && "connections" in data.fields ==>
      || (data.fields["connections"].JArray? && ConnectionsFromJson(data.fields["connections"].items) == Ok(r.value.connections))
      || (IteratesAsEmpty(data.fields["connections"]) && r.value.connections == [])
    ensures r.Ok? <==>
      && data.JObject?
      && ListOrEmpty(data.fields, "nodes").Ok? && NodesFromJson(ListOrEmpty(data.fields, "nodes").value).Ok?
      && ListOrEmpty(data.fields, "connections").Ok?
      && ConnectionsFromJson(ListOrEmpty(data.fields, "connections").value).Ok?
    ensures data.JObject? && "connections" !in data.fields && "nodes" in data.fields
            && data.fields["nodes"].JArray? && NodesFromJson(data.fields["nodes"].items).Ok? ==>
      r == Ok(Snapshot(NodesFromJson(data.fields["nodes"].items).value, []))
    ensures data.JObject? && "nodes" !in data.fields && "connections" in data.fields
            && data.fields["connections"].JArray? && ConnectionsFromJson(data.fields["connections"].items).Ok? ==>
      r == Ok(Snapshot([], ConnectionsFromJson(data.fields["connections"].items).value))
  {
    if !data.JObject? then Err(NotAnObject)
    else
      var nodeItems :- ListOrEmpty(data.fields, "nodes");
      var nodes :- NodesFromJson(nodeItems);
      var connItems :- ListOrEmpty(data.fields, "connections");
      var connections :- ConnectionsFromJson(connItems);
      Ok(Snapshot(nodes, connections))
  }

  /** Reading back what was written reproduces both lists field for field, in order. */
  lemma StoreRoundTrip(s: Snapshot)
    ensures StoreFromDict(StoreToDict(s)) == Ok(s)
  {
    var nodeItems := NodesToJson(s.nodes);
    var nodesBack := NodesFromJson(nodeItems);
    assert forall i :: 0 <= i < |nodeItems| ==> NodeFromDict(nodeItems[i]) == Ok(s.nodes[i]);
    assert nodesBack.Ok?;
    assert nodesBack.value == s.nodes;
    var connItems := ConnectionsToJson(s.connections);
    var connsBack := ConnectionsFromJson(connItems);
    assert forall i :: 0 <= i < |connItems| ==> ConnectionFromDict(connItems[i]) == Ok(s.connections[i]);
    assert connsBack.Ok?;
    assert connsBack.value == s.connections;
  }

  /**
   * Loading does not re-check referential integrity: a document whose only
   * connection names nodes that are not in it loads without error.
   */
  lemma LoadedStoreMayDangle()
    ensures exists data :: StoreFromDict(data).Ok? && !ReferentiallyIntact(StoreFromDict(data).value.nodes, StoreFromDict(data).value.connections)
  {
    var c := Connection("a", "b", "related");
    var data := StoreToDict(Snapshot([], [c]));
    StoreRoundTrip(Snapshot([], [c]));
    assert !HasId([], "a");
    assert !ReferentiallyIntact([], [c]);
  }
}
