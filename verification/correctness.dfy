/** The parser loops of onnx.py agree with the declarative reading of the field stream:
    each loop is the stream's interpretation, field by field. */
module Correctness {
  import opened Wrappers
  import opened Wire
  import opened Fields
  import opened Onnx
  import opened Interpretation

  /** What one field adds to a node under construction. */
  function NodeStep(acc: Node, f: Field): Node
  {
    Node(
      acc.inputs + Strings([f], 1),
      acc.outputs + Strings([f], 2),
      Override(acc.opType, LastString([f], 3)),
      Override(acc.name, LastString([f], 4)))
  }

  /** What one field, whose embedded nodes parsed to `nodes`, adds to a graph. */
  function GraphStep(acc: Graph, f: Field, nodes: seq<Node>): Graph
  {
    Graph(acc.nodes + nodes, Override(acc.name, LastString([f], 4)))
  }

  /** What one field, whose embedded graphs parsed to `graphs`, adds to a model. */
  function ModelStep(acc: Model, f: Field, graphs: seq<Graph>): Model
  {
    Model(Override(acc.irVersion, LastVarint([f], 1)), Override(acc.graph, LastOf(graphs)))
  }

  lemma OverrideAssoc<T>(a: Option<T>, b: Option<T>, c: Option<T>)
    ensures Override(a, Override(b, c)) == Override(Override(a, b), c)
  {
  }

  lemma LastStringAppend(a: seq<Field>, b: seq<Field>, number: nat)
    ensures LastString(a + b, number) == Override(LastString(a, number), LastString(b, number))
  {
    LastAppend(a, b, number, 2);
  }

  lemma LastVarintAppend(a: seq<Field>, b: seq<Field>, number: nat)
    ensures LastVarint(a + b, number) == Override(LastVarint(a, number), LastVarint(b, number))
  {
    LastAppend(a, b, number, 0);
  }

  lemma LastOfAppend<T>(a: seq<T>, b: seq<T>)
    ensures LastOf(a + b) == Override(LastOf(a), LastOf(b))
  {
    if |b| > 0 {
      assert (a + b)[|a + b| - 1] == b[|b| - 1];
    } else {
      assert a + b == a;
    }
  }

  // ---------------------------------------------------------------------------
  // The interpretations consume one field at a time

  lemma NodeFromCons(acc: Node, f: Field, s: Stream)
    ensures NodeFrom(acc, Prepend([f], s)) == NodeFrom(NodeStep(acc, f), s)
  {
    var fs := s.fields;
    StringsAppend([f], fs, 1);
    StringsAppend([f], fs, 2);
    LastStringAppend([f], fs, 3);
    LastStringAppend([f], fs, 4);
    OverrideAssoc(acc.opType, LastString([f], 3), LastString(fs, 3));
    OverrideAssoc(acc.name, LastString([f], 4), LastString(fs, 4));
    assert acc.inputs + (Strings([f], 1) + Strings(fs, 1)) == (acc.inputs + Strings([f], 1)) + Strings(fs, 1);
    assert acc.outputs + (Strings([f], 2) + Strings(fs, 2)) == (acc.outputs + Strings([f], 2)) + Strings(fs, 2);
  }

  lemma GraphFromCons(acc: Graph, f: Field, s: Stream)
    ensures NodeAt(f).Failure? ==> GraphFrom(acc, Prepend([f], s)) == Failure(NodeAt(f).error)
    ensures NodeAt(f).Success? ==>
      GraphFrom(acc, Prepend([f], s)) == GraphFrom(GraphStep(acc, f, NodeAt(f).value), s)
  {
    var fs := s.fields;
    NodesOfAppend([f], fs);
    assert [f][1..] == [];
    LastStringAppend([f], fs, 4);
    OverrideAssoc(acc.name, LastString([f], 4), LastString(fs, 4));
    if NodeAt(f).Success? && NodesOf(fs).Success? {
      var a := NodeAt(f).value;
      var b := NodesOf(fs).value;
      NodesOfSingle(f);
      assert acc.nodes + (a + b) == (acc.nodes + a) + b;
    }
  }

  lemma ModelFromCons(acc: Model, f: Field, s: Stream)
    ensures GraphAt(f).Failure? ==> ModelFrom(acc, Prepend([f], s)) == Failure(GraphAt(f).error)
    ensures GraphAt(f).Success? ==>
      ModelFrom(acc, Prepend([f], s)) == ModelFrom(ModelStep(acc, f, GraphAt(f).value), s)
  {
    var fs := s.fields;
    GraphsOfAppend([f], fs);
    assert [f][1..] == [];
    LastVarintAppend([f], fs, 1);
    OverrideAssoc(acc.irVersion, LastVarint([f], 1), LastVarint(fs, 1));
    if GraphAt(f).Success? && GraphsOf(fs).Success? {
      var a := GraphAt(f).value;
      var b := GraphsOf(fs).value;
      GraphsOfSingle(f);
      LastOfAppend(a, b);
      OverrideAssoc(acc.graph, LastOf(a), LastOf(b));
    }
  }

  // ---------------------------------------------------------------------------
  // One turn of each loop is one field of the stream

  /** The recognised branches read their value as the field scanner does, and the
      fallback branch skips exactly the field the scanner reads. */
  lemma NodeLoopStep(buf: seq<Byte>, pos: nat, acc: Node)
    requires pos < |buf|
    ensures ScanField(buf, pos).Failure? ==> NodeLoop(buf, pos, acc) == Failure(ScanField(buf, pos).error)
    ensures ScanField(buf, pos).Success? ==>
      var (f, end) := ScanField(buf, pos).value;
      NodeLoop(buf, pos, acc) == NodeLoop(buf, end, NodeStep(acc, f))
  {
    if ReadVarint(buf, pos).Success? {
      var (tag, p) := ReadVarint(buf, pos).value;
      var (n, w) := SplitTag(tag);
      var pl := ReadPayload(w, buf, p);
      if pl.Success? {
        var f := Field(n, pl.value.0);
        var end := pl.value.1;
        assert ScanField(buf, pos) == Success((f, end));
        assert [f][1..] == [];
        StringsSingle(f, 1);
        StringsSingle(f, 2);
        LastSingle(f, 3, 2);
        LastSingle(f, 4, 2);
        LastSingle(f, 1, 0);
        if w == 2 && 1 <= n <= 4 {
          assert ParseString(buf, p) == Success((f.payload.bytes, end));
          var bs := f.payload.bytes;
          if n == 1 {
            assert NodeStep(acc, f) == acc.(inputs := acc.inputs + [bs]);
          } else if n == 2 {
            assert NodeStep(acc, f) == acc.(outputs := acc.outputs + [bs]);
          } else if n == 3 {
            assert NodeStep(acc, f) == acc.(opType := Some(bs));
          } else {
            assert NodeStep(acc, f) == acc.(name := Some(bs));
          }
        } else {
          assert SkipUnknown(w, buf, p) == Success(end);
          assert acc.inputs + [] == acc.inputs && acc.outputs + [] == acc.outputs;
          assert NodeStep(acc, f) == acc;
        }
      }
    }
  }

  lemma GraphLoopStep(buf: seq<Byte>, pos: nat, acc: Graph)
    requires pos < |buf|
    ensures ScanField(buf, pos).Failure? ==> GraphLoop(buf, pos, acc) == Failure(ScanField(buf, pos).error)
    ensures ScanField(buf, pos).Success? ==>
      var (f, end) := ScanField(buf, pos).value;
      && (NodeAt(f).Failure? ==> GraphLoop(buf, pos, acc) == Failure(NodeAt(f).error))
      && (NodeAt(f).Success? ==> GraphLoop(buf, pos, acc) == GraphLoop(buf, end, GraphStep(acc, f, NodeAt(f).value)))
  {
    if ReadVarint(buf, pos).Success? {
      var (tag, p) := ReadVarint(buf, pos).value;
      var (n, w) := SplitTag(tag);
      var pl := ReadPayload(w, buf, p);
      if pl.Success? {
        var f := Field(n, pl.value.0);
        var end := pl.value.1;
        assert ScanField(buf, pos) == Success((f, end));
        LastSingle(f, 4, 2);
        if w == 2 && n == 1 {
          var (len, start) := ReadVarint(buf, p).value;
          assert f.payload.bytes == Slice(buf, start, len) && end == start + len;
          if NodeAt(f).Success? {
            assert GraphStep(acc, f, NodeAt(f).value) == acc.(nodes := acc.nodes + NodeAt(f).value);
          }
        } else if w == 2 && n == 4 {
          assert ParseString(buf, p) == Success((f.payload.bytes, end));
          assert GraphStep(acc, f, []) == acc.(name := Some(f.payload.bytes));
        } else {
          assert SkipUnknown(w, buf, p) == Success(end);
          assert acc.nodes + [] == acc.nodes;
          assert GraphStep(acc, f, []) == acc;
        }
      }
    }
  }

  lemma ModelLoopStep(buf: seq<Byte>, pos: nat, acc: Model)
    requires pos < |buf|
    ensures ScanField(buf, pos).Failure? ==> ModelLoop(buf, pos, acc) == Failure(ScanField(buf, pos).error)
    ensures ScanField(buf, pos).Success? ==>
      var (f, end) := ScanField(buf, pos).value;
      && (GraphAt(f).Failure? ==> ModelLoop(buf, pos, acc) == Failure(GraphAt(f).error))
      && (GraphAt(f).Success? ==> ModelLoop(buf, pos, acc) == ModelLoop(buf, end, ModelStep(acc, f, GraphAt(f).value)))
  {
    if ReadVarint(buf, pos).Success? {
      var (tag, p) := ReadVarint(buf, pos).value;
      var (n, w) := SplitTag(tag);
      var pl := ReadPayload(w, buf, p);
      if pl.Success? {
        var f := Field(n, pl.value.0);
        var end := pl.value.1;
        assert ScanField(buf, pos) == Success((f, end));
        LastSingle(f, 1, 0);
        if w == 0 && n == 1 {
          assert ReadVarint(buf, p) == Success((f.payload.value, end));
          assert ModelStep(acc, f, []) == acc.(irVersion := Some(f.payload.value));
        } else if w == 2 && n == 7 {
          var (len, start) := ReadVarint(buf, p).value;
          assert f.payload.bytes == Slice(buf, start, len) && end == start + len;
          if GraphAt(f).Success? {
            var gs := GraphAt(f).value;
            assert ModelStep(acc, f, gs) == acc.(graph := Some(gs[0]));
          }
        } else {
          assert SkipUnknown(w, buf, p) == Success(end);
          assert ModelStep(acc, f, []) == acc;
        }
      }
    }
  }

  // ---------------------------------------------------------------------------
  // The loops are the interpretations of the scanned stream

  lemma {:induction false} NodeLoopScan(buf: seq<Byte>, pos: nat, acc: Node)
    ensures NodeLoop(buf, pos, acc) == NodeFrom(acc, Scan(buf, pos))
    decreases |buf| - pos
  {
    if pos >= |buf| {
      assert acc.inputs + [] == acc.inputs && acc.outputs + [] == acc.outputs;
    } else {
      NodeLoopStep(buf, pos, acc);
      match ScanField(buf, pos)
      case Failure(e) =>
        ScanStops(buf, pos, e);
      case Success(read) =>
        ScanStep(buf, pos, read.0, read.1);
        NodeLoopScan(buf, read.1, NodeStep(acc, read.0));
        NodeFromCons(acc, read.0, Scan(buf, read.1));
    }
  }

  lemma {:induction false} GraphLoopScan(buf: seq<Byte>, pos: nat, acc: Graph)
    ensures GraphLoop(buf, pos, acc) == GraphFrom(acc, Scan(buf, pos))
    decreases |buf| - pos
  {
    if pos >= |buf| {
      assert acc.nodes + [] == acc.nodes;
    } else {
      GraphLoopStep(buf, pos, acc);
      match ScanField(buf, pos)
      case Failure(e) =>
        ScanStops(buf, pos, e);
      case Success(read) =>
        ScanStep(buf, pos, read.0, read.1);
        GraphFromCons(acc, read.0, Scan(buf, read.1));
        if NodeAt(read.0).Success? {
          GraphLoopScan(buf, read.1, GraphStep(acc, read.0, NodeAt(read.0).value));
        }
    }
  }

  lemma {:induction false} ModelLoopScan(buf: seq<Byte>, pos: nat, acc: Model)
    ensures ModelLoop(buf, pos, acc) == ModelFrom(acc, Scan(buf, pos))
    decreases |buf| - pos
  {
    if pos < |buf| {
      ModelLoopStep(buf, pos, acc);
      match ScanField(buf, pos)
      case Failure(e) =>
        ScanStops(buf, pos, e);
      case Success(read) =>
        ScanStep(buf, pos, read.0, read.1);
        ModelFromCons(acc, read.0, Scan(buf, read.1));
        if GraphAt(read.0).Success? {
          ModelLoopScan(buf, read.1, ModelStep(acc, read.0, GraphAt(read.0).value));
        }
    }
  }

  /** `parse_nodeproto` reads the stream: it raises the exception that stopped the scan,
      if any, and otherwise `input`/`output` are the field-1/field-2 strings in encounter
      order and `op_type`/`name` the last field-3/field-4 strings. */
  lemma ParseNodeMeaning(buf: seq<Byte>)
    ensures Scan(buf, 0).stop.Some? ==> ParseNode(buf) == Failure(Scan(buf, 0).stop.value)
    ensures Scan(buf, 0).stop.None? ==> ParseNode(buf) == Success(NodeOf(Scan(buf, 0).fields))
  {
    NodeLoopScan(buf, 0, EmptyNode);
    var fs := Scan(buf, 0).fields;
    assert [] + Strings(fs, 1) == Strings(fs, 1) && [] + Strings(fs, 2) == Strings(fs, 2);
  }

  /** `parse_graphproto` reads the stream: the first embedded node that raises, in
      stream order, decides the outcome, then the exception that stopped the scan;
      otherwise `node` holds the embedded nodes in encounter order and `name` the last
      field-4 string. */
  lemma ParseGraphMeaning(buf: seq<Byte>)
    ensures NodesOf(Scan(buf, 0).fields).Failure? ==> ParseGraph(buf) == Failure(NodesOf(Scan(buf, 0).fields).error)
    ensures NodesOf(Scan(buf, 0).fields).Success? && Scan(buf, 0).stop.Some? ==>
      ParseGraph(buf) == Failure(Scan(buf, 0).stop.value)
    ensures NodesOf(Scan(buf, 0).fields).Success? && Scan(buf, 0).stop.None? ==>
      ParseGraph(buf) == Success(Graph(NodesOf(Scan(buf, 0).fields).value, LastString(Scan(buf, 0).fields, 4)))
  {
    GraphLoopScan(buf, 0, EmptyGraph);
    if NodesOf(Scan(buf, 0).fields).Success? {
      var ns := NodesOf(Scan(buf, 0).fields).value;
      assert [] + ns == ns;
    }
  }

  /** `parse_modelproto` reads the stream from `pos`: the first embedded graph that
      raises decides the outcome, then the exception that stopped the scan; otherwise
      `ir_version` is the last field-1 varint and `graph` the last embedded graph. */
  lemma ParseModelMeaning(buf: seq<Byte>, pos: nat)
    ensures GraphsOf(Scan(buf, pos).fields).Failure? ==> ParseModel(buf, pos) == Failure(GraphsOf(Scan(buf, pos).fields).error)
    ensures GraphsOf(Scan(buf, pos).fields).Success? && Scan(buf, pos).stop.Some? ==>
      ParseModel(buf, pos) == Failure(Scan(buf, pos).stop.value)
    ensures GraphsOf(Scan(buf, pos).fields).Success? && Scan(buf, pos).stop.None? ==>
      ParseModel(buf, pos) == Success(Model(LastVarint(Scan(buf, pos).fields, 1), LastOf(GraphsOf(Scan(buf, pos).fields).value)))
  {
    ModelLoopScan(buf, pos, EmptyModel);
  }
}
