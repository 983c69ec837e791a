/**
 * The parts of a Swagger 2.0 document that the generator reads. A JSON object
 * is a sequence of key/value pairs in its key order; an attribute the generator
 * reads with getString/getJSONArray/getJSONObject is `None` when the key is absent.
 */
module Swagger {
  import opened Wrappers

  /** One entry of an operation's `parameters` array. */
  datatype Parameter = Parameter(name: Option<string>, schemaType: Option<string>, format: Option<string>)

  /** The `schema` object of a response: only its `$ref` matters. */
  datatype Schema = Schema(ref: Option<string>)

  datatype Response = Response(schema: Option<Schema>)

  /** The object stored under an HTTP method of a path item. */
  datatype Operation = Operation(
    operationId: Option<string>,
    tags: Option<seq<string>>,
    parameters: Option<seq<Parameter>>,
    responses: Option<seq<(string, Response)>>)

  /** A path item: HTTP method to operation, in key order. */
  type PathItem = seq<(string, Operation)>

  /** The `paths` object: path template to path item, in key order. */
  type Paths = seq<(string, PathItem)>

  /** The keys of a JSON object, in order. */
  function KeysOf<V>(entries: seq<(string, V)>): (r: seq<string>)
    ensures |r| == |entries|
    ensures forall i :: 0 <= i < |r| ==> r[i] == entries[i].0
  {
    seq(|entries|, i requires 0 <= i < |entries| => entries[i].0)
  }

  /** A JSON object's keys mapped to their values (keys of a JSON object are distinct). */
  function ToMap<V>(entries: seq<(string, V)>): (m: map<string, V>)
    ensures m.Keys == set i | 0 <= i < |entries| :: entries[i].0
  {
    if |entries| == 0 then map[]
    else ToMap(entries[..|entries| - 1])[entries[|entries| - 1].0 := entries[|entries| - 1].1]
  }
}
