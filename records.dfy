/**
 * The two record types of the memory store, `MemoryNode` and
 * `MemoryConnection`, and their conversion to and from the dictionary shape
 * that is written to disk.  A dictionary is modelled by the small JSON-like
 * datatype `Json`.
 */
module Records {
  import opened Wrappers

  /** A JSON-like value: what Python's `json` module produces and accepts. */
  datatype Json =
    | JNull
    | JBool(b: bool)
    | JNumber(n: int)
    | JString(s: string)
    | JArray(items: seq<Json>)
    | JObject(fields: map<string, Json>)

  /** Why a dictionary could not be turned into a record or a store. */
  datatype DecodeError =
    | NotAnObject          // the value is not a dictionary
    | MissingKey(key: string)  // a required key is absent (Python's KeyError)
    | WrongType(key: string)   // the key is present but holds the wrong kind of value

  /** A memory entry: an identifier, free text and a list of tags. */
  datatype Node = Node(id: string, content: string, tags: seq<string>)

  /** A directed, typed edge between two node identifiers. */
  datatype Connection = Connection(fromId: string, toId: string, kind: string)

  /** True when some node in `nodes` carries the identifier `id`. */
  predicate HasId(nodes: seq<Node>, id: string)
  {
    exists i :: 0 <= i < |nodes| && nodes[i].id == id
  }

  /** Every connection's endpoints name nodes that exist (referential integrity). */
  predicate ReferentiallyIntact(nodes: seq<Node>, connections: seq<Connection>)
  {
    forall k :: 0 <= k < |connections| ==>
      HasId(nodes, connections[k].fromId) && HasId(nodes, connections[k].toId)
  }

  // ---------------------------------------------------------------------
  // Field access on a dictionary
  // ---------------------------------------------------------------------

  /** `data[key]` where the value must be a string. */
  function StringField(fields: map<string, Json>, key: string): (r: Result<string, DecodeError>)
    ensures r.Ok? <==> key in fields && fields[key].JString?
    ensures r.Ok? ==> fields[key] == JString(r.value)
    ensures key !in fields ==> r == Err(MissingKey(key))
  {
    if key !in fields then Err(MissingKey(key))
    else if fields[key].JString? then Ok(fields[key].s)
    else Err(WrongType(key))
  }

  /** `data[key]` where the value must be a list. */
  function ListField(fields: map<string, Json>, key: string): (r: Result<seq<Json>, DecodeError>)
    ensures r.Ok? <==> key in fields && fields[key].JArray?
    ensures r.Ok? ==> fields[key] == JArray(r.value)
    ensures key !in fields ==> r == Err(MissingKey(key))
  {
    if key !in fields then Err(MissingKey(key))
    else if fields[key].JArray? then Ok(fields[key].items)
    else Err(WrongType(key))
  }

  // ---------------------------------------------------------------------
  // Tags
  // ---------------------------------------------------------------------

  function TagsToJson(tags: seq<string>): (items: seq<Json>)
  {
    seq(|tags|, i requires 0 <= i < |tags| => JString(tags[i]))
  }

  /** Reads a list of tags; fails exactly when some item is not a string. */
  function TagsFromJson(items: seq<Json>): (r: Result<seq<string>, DecodeError>)
    ensures r.Ok? ==> |r.value| == |items| && forall i :: 0 <= i < |items| ==> items[i] == JString(r.value[i])
    ensures r.Err? <==> exists i :: 0 <= i < |items| && !items[i].JString?
  {
    if items == [] then Ok([])
    else if !items[0].JString? then Err(WrongType("tags"))
    else
      var rest :- TagsFromJson(items[1..]);
      Ok([items[0].s] + rest)
  }

  // ---------------------------------------------------------------------
  // MemoryNode.to_dict / from_dict
  // ---------------------------------------------------------------------

  /** Reads a node from a dictionary, looking up "id", "content" and "tags" in that order. */
  function NodeFromDict(data: Json): (r: Result<Node, DecodeError>)
    ensures r.Ok? ==>
      && data.JObject?
      && "id" in data.fields && data.fields["id"] == JString(r.value.id)
      && "content" in data.fields && data.fields["content"] == JString(r.value.content)
      && "tags" in data.fields && data.fields["tags"] == JArray(TagsToJson(r.value.tags))
    ensures !data.JObject? ==> r == Err(NotAnObject)
    ensures data.JObject? && "id" !in data.fields ==> r == Err(MissingKey("id"))
    ensures data.JObject? && "id" in data.fields && "content" !in data.fields ==> r.Err?
    ensures data.JObject? && "id" in data.fields && "tags" !in data.fields ==> r.Err?
    ensures r.Ok? <==>
      && data.JObject?
      && "id" in data.fields && data.fields["id"].JString?
      && "content" in data.fields && data.fields["content"].JString?
      && "tags" in data.fields && data.fields["tags"].JArray?
      && TagsFromJson(data.fields["tags"].items).Ok?
  {
    if !data.JObject? then Err(NotAnObject)
    else
      var id :- StringField(data.fields, "id");
      var content :- StringField(data.fields, "content");
      var tagItems :- ListField(data.fields, "tags");
      var tags :- TagsFromJson(tagItems);
      assert tagItems == TagsToJson(tags);
      Ok(Node(id, content, tags))
  }

  /** Writes a node as a dictionary with exactly the keys "id", "content" and "tags". */
  function NodeToDict(node: Node): (data: Json)
    ensures data.JObject? && data.fields.Keys == {"id", "content", "tags"}
    ensures NodeFromDict(data) == Ok(node)
  {
    var data := JObject(map["id" := JString(node.id), "content" := JString(node.content),
                            "tags" := JArray(TagsToJson(node.tags))]);
    var decoded := TagsFromJson(TagsToJson(node.tags));
    assert decoded.Ok?;
    assert decoded.value == node.tags;
    data
  }

  // ---------------------------------------------------------------------
  // MemoryConnection.to_dict / from_dict
  // ---------------------------------------------------------------------

  /** Reads a connection from a dictionary, looking up "from_id", "to_id" and "type" in that order. */
  function ConnectionFromDict(data: Json): (r: Result<Connection, DecodeError>)
    ensures r.Ok? ==>
      && data.JObject?
      && "from_id" in data.fields && data.fields["from_id"] == JString(r.value.fromId)
      && "to_id" in data.fields && data.fields["to_id"] == JString(r.value.toId)
      && "type" in data.fields && data.fields["type"] == JString(r.value.kind)
    ensures !data.JObject? ==> r == Err(NotAnObject)
    ensures data.JObject? && "from_id" !in data.fields ==> r == Err(MissingKey("from_id"))
    ensures data.JObject? && "from_id" in data.fields && "to_id" !in data.fields ==> r.Err?
    ensures data.JObject? && "from_id" in data.fields && "type" !in data.fields ==> r.Err?
    ensures r.Ok? <==>
      && data.JObject?
      && "from_id" in data.fields && data.fields["from_id"].JString?
      && "to_id" in data.fields && data.fields["to_id"].JString?
      && "type" in data.fields && data.fields["type"].JString?
  {
    if !data.JObject? then Err(NotAnObject)
    else
      var fromId :- StringField(data.fields, "from_id");
      var toId :- StringField(data.fields, "to_id");
      var kind :- StringField(data.fields, "type");
      Ok(Connection(fromId, toId, kind))
  }

  /** Writes a connection as a dictionary with exactly the keys "from_id", "to_id" and "type". */
  function ConnectionToDict(c: Connection): (data: Json)
    ensures data.JObject? && data.fields.Keys == {"from_id", "to_id", "type"}
    ensures ConnectionFromDict(data) == Ok(c)
  {
    JObject(map["from_id" := JString(c.fromId), "to_id" := JString(c.toId), "type" := JString(c.kind)])
  }
}
