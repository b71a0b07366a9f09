/** What a field stream means to each message kind, stated declaratively: repeated
    fields are the matching values in encounter order, a singular field is the value of
    its last occurrence, and nested messages are parsed from their own bytes with the
    first exception winning. These definitions are the reference the parser loops of
    onnx.py are proved to agree with. */
module Interpretation {
  import opened Wrappers
  import opened Wire
  import opened Fields
  import opened Onnx

  /** The length-delimited values of field `number`, in encounter order. */
  function Strings(fs: seq<Field>, number: nat): seq<seq<Byte>>
  {
    if |fs| == 0 then []
    else (if Matches(fs[0], number, 2) then [fs[0].payload.bytes] else []) + Strings(fs[1..], number)
  }

  /** The value of the last field carrying (number, wtype), if any. */
  function Last(fs: seq<Field>, number: nat, wtype: nat): (r: Option<Payload>)
    ensures r.Some? ==> WireType(r.value) == wtype
  {
    if |fs| == 0 then None
    else if Matches(fs[|fs| - 1], number, wtype) then Some(fs[|fs| - 1].payload)
    else Last(fs[..|fs| - 1], number, wtype)
  }

  function LastString(fs: seq<Field>, number: nat): Option<seq<Byte>>
  {
    match Last(fs, number, 2)
    case None => None
    case Some(p) => Some(p.bytes)
  }

  function LastVarint(fs: seq<Field>, number: nat): Option<nat>
  {
    match Last(fs, number, 0)
    case None => None
    case Some(p) => Some(p.value)
  }

  /** A later value, when there is one, replaces an earlier one. */
  function Override<T>(earlier: Option<T>, later: Option<T>): Option<T>
  {
    if later.Some? then later else earlier
  }

  /** The node a complete field stream describes. */
  function NodeOf(fs: seq<Field>): Node
  {
    Node(Strings(fs, 1), Strings(fs, 2), LastString(fs, 3), LastString(fs, 4))
  }

  /** The node a single field contributes: one parsed node for a field-1
      length-delimited value, nothing for any other field. */
  function NodeAt(f: Field): Result<seq<Node>, Error>
  {
    if Matches(f, 1, 2) then
      match ParseNode(f.payload.bytes)
      case Failure(e) => Failure(e)
      case Success(n) => Success([n])
    else Success([])
  }

  /** The nodes embedded as field 1, each parsed from its own bytes, in order; the
      first one that raises decides the outcome. */
  function NodesOf(fs: seq<Field>): Result<seq<Node>, Error>
  {
    if |fs| == 0 then Success([]) else Concat(NodeAt(fs[0]), NodesOf(fs[1..]))
  }

  /** The graph a single field contributes: one parsed graph for a field-7
      length-delimited value, nothing for any other field. */
  function GraphAt(f: Field): Result<seq<Graph>, Error>
  {
    if Matches(f, 7, 2) then
      match ParseGraph(f.payload.bytes)
      case Failure(e) => Failure(e)
      case Success(g) => Success([g])
    else Success([])
  }

  /** The graphs embedded as field 7, each parsed from its own bytes, in order; the
      first one that raises decides the outcome. */
  function GraphsOf(fs: seq<Field>): Result<seq<Graph>, Error>
  {
    if |fs| == 0 then Success([]) else Concat(GraphAt(fs[0]), GraphsOf(fs[1..]))
  }

  /** Two runs of nested parses one after the other: the earlier exception wins. */
  function Concat<T>(a: Result<seq<T>, Error>, b: Result<seq<T>, Error>): Result<seq<T>, Error>
  {
    match a
    case Failure(e) => Failure(e)
    case Success(x) =>
      match b
      case Failure(e) => Failure(e)
      case Success(y) => Success(x + y)
  }

  function LastOf<T>(xs: seq<T>): Option<T>
  {
    if |xs| == 0 then None else Some(xs[|xs| - 1])
  }

  /** A node parse that has gathered `acc` and then reads the stream `s`. */
  function NodeFrom(acc: Node, s: Stream): Result<Node, Error>
  {
    if s.stop.Some? then Failure(s.stop.value)
    else Success(Node(
      acc.inputs + Strings(s.fields, 1),
      acc.outputs + Strings(s.fields, 2),
      Override(acc.opType, LastString(s.fields, 3)),
      Override(acc.name, LastString(s.fields, 4))))
  }

  /** A graph parse that has gathered `acc` and then reads the stream `s`. */
  function GraphFrom(acc: Graph, s: Stream): Result<Graph, Error>
  {
    match NodesOf(s.fields)
    case Failure(e) => Failure(e)
    case Success(nodes) =>
      if s.stop.Some? then Failure(s.stop.value)
      else Success(Graph(acc.nodes + nodes, Override(acc.name, LastString(s.fields, 4))))
  }

  /** A model parse that has gathered `acc` and then reads the stream `s`. */
  function ModelFrom(acc: Model, s: Stream): Result<Model, Error>
  {
    match GraphsOf(s.fields)
    case Failure(e) => Failure(e)
    case Success(graphs) =>
      if s.stop.Some? then Failure(s.stop.value)
      else Success(Model(Override(acc.irVersion, LastVarint(s.fields, 1)), Override(acc.graph, LastOf(graphs))))
  }

  // ---------------------------------------------------------------------------
  // Properties of the reference definitions

  /** Last occurrence wins: `Last` is absent exactly when no field carries the pair, and
      otherwise it is the value of a field carrying it that no later field carries. */
  lemma {:induction false} LastIsLastOccurrence(fs: seq<Field>, number: nat, wtype: nat)
    ensures Last(fs, number, wtype).None? <==> forall i :: 0 <= i < |fs| ==> !Matches(fs[i], number, wtype)
    ensures Last(fs, number, wtype).Some? ==>
      exists i :: 0 <= i < |fs| && Matches(fs[i], number, wtype)
        && fs[i].payload == Last(fs, number, wtype).value
        && forall j :: i < j < |fs| ==> !Matches(fs[j], number, wtype)
    decreases |fs|
  {
    if |fs| > 0 {
      var n := |fs| - 1;
      var init := fs[..n];
      if Matches(fs[n], number, wtype) {
        assert Last(fs, number, wtype) == Some(fs[n].payload);
      } else {
        assert Last(fs, number, wtype) == Last(init, number, wtype);
        LastIsLastOccurrence(init, number, wtype);
        if Last(init, number, wtype).Some? {
          var i :| 0 <= i < |init| && Matches(init[i], number, wtype)
            && init[i].payload == Last(init, number, wtype).value
            && forall j :: i < j < |init| ==> !Matches(init[j], number, wtype);
          assert fs[i] == init[i];
          forall j | i < j < |fs| ensures !Matches(fs[j], number, wtype) {
            if j < n {
              assert fs[j] == init[j];
            }
          }
        } else {
          forall i | 0 <= i < |fs| ensures !Matches(fs[i], number, wtype) {
            if i < n {
              assert fs[i] == init[i];
            }
          }
        }
      }
    }
  }

  lemma StringsSingle(f: Field, number: nat)
    ensures Strings([f], number) == if Matches(f, number, 2) then [f.payload.bytes] else []
  {
    assert [f][1..] == [];
  }

  lemma LastSingle(f: Field, number: nat, wtype: nat)
    ensures Last([f], number, wtype) == if Matches(f, number, wtype) then Some(f.payload) else None
  {
    assert [f][..0] == [];
  }

  lemma NodesOfSingle(f: Field)
    ensures NodesOf([f]) == NodeAt(f)
  {
    assert [f][1..] == [];
    var none: seq<Node> := [];
    assert NodesOf([]) == Success(none);
    if NodeAt(f).Success? {
      assert NodeAt(f).value + none == NodeAt(f).value;
    }
  }

  lemma GraphsOfSingle(f: Field)
    ensures GraphsOf([f]) == GraphAt(f)
  {
    assert [f][1..] == [];
    var none: seq<Graph> := [];
    assert GraphsOf([]) == Success(none);
    if GraphAt(f).Success? {
      assert GraphAt(f).value + none == GraphAt(f).value;
    }
  }

  /** Last wins across a split of the stream: a value in the later part replaces any in
      the earlier part. */
  lemma {:induction false} LastAppend(a: seq<Field>, b: seq<Field>, number: nat, wtype: nat)
    ensures Last(a + b, number, wtype) == Override(Last(a, number, wtype), Last(b, number, wtype))
    decreases |b|
  {
    if |b| == 0 {
      assert a + b == a;
    } else {
      var ab := a + b;
      assert ab[|ab| - 1] == b[|b| - 1];
      assert ab[..|ab| - 1] == a + b[..|b| - 1];
      LastAppend(a, b[..|b| - 1], number, wtype);
    }
  }

  /** Encounter order is kept across a split of the stream. */
  lemma {:induction false} StringsAppend(a: seq<Field>, b: seq<Field>, number: nat)
    ensures Strings(a + b, number) == Strings(a, number) + Strings(b, number)
    decreases |a|
  {
    if |a| == 0 {
      assert a + b == b;
    } else {
      assert (a + b)[0] == a[0];
      assert (a + b)[1..] == a[1..] + b;
      StringsAppend(a[1..], b, number);
    }
  }

  lemma {:induction false} NodesOfAppend(a: seq<Field>, b: seq<Field>)
    ensures NodesOf(a + b) == Concat(NodesOf(a), NodesOf(b))
    decreases |a|
  {
    if |a| == 0 {
      assert a + b == b;
      if NodesOf(b).Success? {
        assert [] + NodesOf(b).value == NodesOf(b).value;
      }
    } else {
      assert (a + b)[0] == a[0];
      assert (a + b)[1..] == a[1..] + b;
      NodesOfAppend(a[1..], b);
      ConcatAssoc(NodeAt(a[0]), NodesOf(a[1..]), NodesOf(b));
    }
  }

  lemma {:induction false} GraphsOfAppend(a: seq<Field>, b: seq<Field>)
    ensures GraphsOf(a + b) == Concat(GraphsOf(a), GraphsOf(b))
    decreases |a|
  {
    if |a| == 0 {
      assert a + b == b;
      if GraphsOf(b).Success? {
        assert [] + GraphsOf(b).value == GraphsOf(b).value;
      }
    } else {
      assert (a + b)[0] == a[0];
      assert (a + b)[1..] == a[1..] + b;
      GraphsOfAppend(a[1..], b);
      ConcatAssoc(GraphAt(a[0]), GraphsOf(a[1..]), GraphsOf(b));
    }
  }

  lemma ConcatAssoc<T>(x: Result<seq<T>, Error>, y: Result<seq<T>, Error>, z: Result<seq<T>, Error>)
    ensures Concat(x, Concat(y, z)) == Concat(Concat(x, y), z)
  {
    if x.Success? && y.Success? && z.Success? {
      assert x.value + (y.value + z.value) == (x.value + y.value) + z.value;
    }
  }
}
