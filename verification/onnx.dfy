/** The three message parsers of onnx.py, each the `while pos < len(buf)` loop of the
    source written as a recursion on the position: read a tag, split it, then store the
    value of a recognised (field, wire type) pair or skip it. The dicts the source builds
    are typed records; a key the source may leave out is an `Option`. */
module Onnx {
  import opened Wrappers
  import opened Wire

  /** `NodeProto` as far as onnx.py reads it: field 1 `input`, field 2 `output`,
      field 3 `op_type`, field 4 `name`, all length-delimited. */
  datatype Node = Node(
    inputs: seq<seq<Byte>>,
    outputs: seq<seq<Byte>>,
    opType: Option<seq<Byte>>,
    name: Option<seq<Byte>>)

  /** `GraphProto` as far as onnx.py reads it: field 1 `node`, field 4 `name`. */
  datatype Graph = Graph(nodes: seq<Node>, name: Option<seq<Byte>>)

  /** `ModelProto` as far as onnx.py reads it: field 1 `ir_version` (a varint) and
      field 7 `graph`. */
  datatype Model = Model(irVersion: Option<nat>, graph: Option<Graph>)

  /** The dict a node parse starts from: `{"input": [], "output": []}`. */
  const EmptyNode := Node([], [], None, None)

  /** The dict a graph parse starts from: `{"node": []}`. */
  const EmptyGraph := Graph([], None)

  /** The dict a model parse starts from: `{}`. */
  const EmptyModel := Model(None, None)

  /** The exceptions a parse can end in: reading past the end, or one of the wire
      types 3, 4, 6, 7 that `skip_unknown` rejects. */
  predicate Raisable(e: Error)
  {
    e == IndexError || (e.UnsupportedWireType? && e.wtype in {3, 4, 6, 7})
  }

  /** The loop of `parse_nodeproto` from `pos` with the fields gathered so far. Lists
      are only ever appended to and a set key is never unset. */
  function NodeLoop(buf: seq<Byte>, pos: nat, node: Node): (r: Result<Node, Error>)
    ensures r.Failure? ==> Raisable(r.error)
    ensures r.Success? ==>
      && node.inputs <= r.value.inputs
      && node.outputs <= r.value.outputs
      && (node.opType.Some? ==> r.value.opType.Some?)
      && (node.name.Some? ==> r.value.name.Some?)
    decreases |buf| - pos
  {
    if pos >= |buf| then Success(node)
    else
      match ReadVarint(buf, pos)
      case Failure(e) => Failure(e)
      case Success(read) =>
        var (tag, p) := read;
        var (field, wtype) := SplitTag(tag);
        if (field == 1 || field == 2) && wtype == 2 then
          match ParseString(buf, p)
          case Failure(e) => Failure(e)
          case Success(str) =>
            var next :=
              if field == 1 then node.(inputs := node.inputs + [str.0])
              else node.(outputs := node.outputs + [str.0]);
            NodeLoop(buf, str.1, next)
        else if field == 3 && wtype == 2 then
          match ParseString(buf, p)
          case Failure(e) => Failure(e)
          case Success(str) => NodeLoop(buf, str.1, node.(opType := Some(str.0)))
        else if field == 4 && wtype == 2 then
          match ParseString(buf, p)
          case Failure(e) => Failure(e)
          case Success(str) => NodeLoop(buf, str.1, node.(name := Some(str.0)))
        else
          match SkipUnknown(wtype, buf, p)
          case Failure(e) => Failure(e)
          case Success(next) => NodeLoop(buf, next, node)
  }

  /** `parse_nodeproto(buf)`. */
  function ParseNode(buf: seq<Byte>): (r: Result<Node, Error>)
    ensures |buf| == 0 ==> r == Success(EmptyNode)
    ensures r.Failure? ==> Raisable(r.error)
  {
    NodeLoop(buf, 0, EmptyNode)
  }

  /** The loop of `parse_graphproto` from `pos` with the fields gathered so far. Each
      field-1 entry is parsed as a node from its own clamped slice, and an exception
      raised inside that node parse ends the graph parse. */
  function GraphLoop(buf: seq<Byte>, pos: nat, graph: Graph): (r: Result<Graph, Error>)
    ensures r.Failure? ==> Raisable(r.error)
    ensures r.Success? ==>
      && graph.nodes <= r.value.nodes
      && (graph.name.Some? ==> r.value.name.Some?)
    decreases |buf| - pos
  {
    if pos >= |buf| then Success(graph)
    else
      match ReadVarint(buf, pos)
      case Failure(e) => Failure(e)
      case Success(read) =>
        var (tag, p) := read;
        var (field, wtype) := SplitTag(tag);
        if field == 1 && wtype == 2 then
          match ReadVarint(buf, p)
          case Failure(e) => Failure(e)
          case Success(prefix) =>
            var (length, start) := prefix;
            match ParseNode(Slice(buf, start, length))
            case Failure(e) => Failure(e)
            case Success(node) =>
              GraphLoop(buf, start + length, graph.(nodes := graph.nodes + [node]))
        else if field == 4 && wtype == 2 then
          match ParseString(buf, p)
          case Failure(e) => Failure(e)
          case Success(str) => GraphLoop(buf, str.1, graph.(name := Some(str.0)))
        else
          match SkipUnknown(wtype, buf, p)
          case Failure(e) => Failure(e)
          case Success(next) => GraphLoop(buf, next, graph)
  }

  /** `parse_graphproto(buf)`. */
  function ParseGraph(buf: seq<Byte>): (r: Result<Graph, Error>)
    ensures |buf| == 0 ==> r == Success(EmptyGraph)
    ensures r.Failure? ==> Raisable(r.error)
  {
    GraphLoop(buf, 0, EmptyGraph)
  }

  /** The loop of `parse_modelproto` from `pos` with the fields gathered so far. Every
      field-7 entry is parsed as a graph, and an exception inside any of them ends the
      model parse. */
  function ModelLoop(buf: seq<Byte>, pos: nat, model: Model): (r: Result<Model, Error>)
    ensures r.Failure? ==> Raisable(r.error)
    ensures r.Success? ==>
      && (model.irVersion.Some? ==> r.value.irVersion.Some?)
      && (model.graph.Some? ==> r.value.graph.Some?)
    decreases |buf| - pos
  {
    if pos >= |buf| then Success(model)
    else
      match ReadVarint(buf, pos)
      case Failure(e) => Failure(e)
      case Success(read) =>
        var (tag, p) := read;
        var (field, wtype) := SplitTag(tag);
        if field == 1 && wtype == 0 then
          match ReadVarint(buf, p)
          case Failure(e) => Failure(e)
          case Success(value) => ModelLoop(buf, value.1, model.(irVersion := Some(value.0)))
        else if field == 7 && wtype == 2 then
          match ReadVarint(buf, p)
          case Failure(e) => Failure(e)
          case Success(prefix) =>
            var (length, start) := prefix;
            match ParseGraph(Slice(buf, start, length))
            case Failure(e) => Failure(e)
            case Success(graph) => ModelLoop(buf, start + length, model.(graph := Some(graph)))
        else
          match SkipUnknown(wtype, buf, p)
          case Failure(e) => Failure(e)
          case Success(next) => ModelLoop(buf, next, model)
  }

  /** `parse_modelproto(buf, pos)`; the source's default offset is 0. A start at or
      past the end of the buffer, an empty buffer in particular, yields a model with
      neither key present. */
  function ParseModel(buf: seq<Byte>, pos: nat := 0): (r: Result<Model, Error>)
    ensures pos >= |buf| ==> r == Success(EmptyModel)
    ensures r.Failure? ==> Raisable(r.error)
  {
    ModelLoop(buf, pos, EmptyModel)
  }
}
