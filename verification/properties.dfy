/** Properties of the three parsers over encoded field streams: encoded messages decode
    to their declarative reading, fields a parser does not recognise change nothing,
    an unsupported wire type aborts the parse, and an overrunning length does not. */
module Properties {
  import opened Wrappers
  import opened Wire
  import opened Fields
  import opened Onnx
  import opened Interpretation
  import opened Correctness

  /** The pairs `parse_nodeproto` stores: fields 1 to 4, length-delimited. */
  predicate NodeRecognises(f: Field)
  {
    Matches(f, 1, 2) || Matches(f, 2, 2) || Matches(f, 3, 2) || Matches(f, 4, 2)
  }

  /** The pairs `parse_graphproto` stores: fields 1 and 4, length-delimited. */
  predicate GraphRecognises(f: Field)
  {
    Matches(f, 1, 2) || Matches(f, 4, 2)
  }

  /** The pairs `parse_modelproto` stores: field 1 as a varint, field 7 length-delimited. */
  predicate ModelRecognises(f: Field)
  {
    Matches(f, 1, 0) || Matches(f, 7, 2)
  }

  lemma EncodeFieldsSnoc(fs: seq<Field>, u: Field)
    ensures EncodeFields(fs + [u]) == EncodeFields(fs) + EncodeField(u)
  {
    EncodeFieldsAppend(fs, [u]);
    assert [u][1..] == [];
    assert EncodeFields([u]) == EncodeField(u) + [];
  }

  /** The stream with one more well-formed field `u` spliced in after `fs`. */
  lemma ScanAfterInserted(fs: seq<Field>, u: Field, post: seq<Byte>)
    requires AllWellFormed(fs) && WellFormed(u)
    ensures Scan(EncodeFields(fs) + EncodeField(u) + post, 0) == Prepend(fs + [u], Scan(post, 0))
  {
    EncodeFieldsSnoc(fs, u);
    assert AllWellFormed(fs + [u]) by {
      forall i | 0 <= i < |fs + [u]| ensures WellFormed((fs + [u])[i]) {
        if i < |fs| { assert (fs + [u])[i] == fs[i]; }
      }
    }
    ScanEncoded(fs + [u], post);
  }

  lemma StringsSkip(a: seq<Field>, u: Field, b: seq<Field>, number: nat)
    requires !Matches(u, number, 2)
    ensures Strings((a + [u]) + b, number) == Strings(a + b, number)
  {
    StringsAppend(a + [u], b, number);
    StringsAppend(a, [u], number);
    StringsSingle(u, number);
    StringsAppend(a, b, number);
    assert Strings(a, number) + [] == Strings(a, number);
  }

  lemma LastSkip(a: seq<Field>, u: Field, b: seq<Field>, number: nat, wtype: nat)
    requires !Matches(u, number, wtype)
    ensures Last((a + [u]) + b, number, wtype) == Last(a + b, number, wtype)
  {
    LastAppend(a + [u], b, number, wtype);
    LastAppend(a, [u], number, wtype);
    LastSingle(u, number, wtype);
    LastAppend(a, b, number, wtype);
  }

  lemma NodesOfSkip(a: seq<Field>, u: Field, b: seq<Field>)
    requires !Matches(u, 1, 2)
    ensures NodesOf((a + [u]) + b) == NodesOf(a + b)
  {
    NodesOfAppend(a + [u], b);
    NodesOfAppend(a, [u]);
    assert [u][1..] == [];
    NodesOfAppend(a, b);
    NodesOfSingle(u);
    if NodesOf(a).Success? {
      assert NodesOf(a).value + [] == NodesOf(a).value;
    }
  }

  lemma GraphsOfSkip(a: seq<Field>, u: Field, b: seq<Field>)
    requires !Matches(u, 7, 2)
    ensures GraphsOf((a + [u]) + b) == GraphsOf(a + b)
  {
    GraphsOfAppend(a + [u], b);
    GraphsOfAppend(a, [u]);
    assert [u][1..] == [];
    GraphsOfAppend(a, b);
    GraphsOfSingle(u);
    if GraphsOf(a).Success? {
      assert GraphsOf(a).value + [] == GraphsOf(a).value;
    }
  }

  // ---------------------------------------------------------------------------
  // Encoded messages decode to their reading

  /** A node encoded as well-formed fields decodes to `input` = the field-1 strings and
      `output` = the field-2 strings in encounter order, and `op_type`/`name` = the last
      field-3/field-4 strings, absent when there is none. */
  lemma ParseNodeEncoded(fs: seq<Field>)
    requires AllWellFormed(fs)
    ensures ParseNode(EncodeFields(fs)) == Success(NodeOf(fs))
  {
    ScanRoundTrip(fs);
    ParseNodeMeaning(EncodeFields(fs));
  }

  /** A graph encoded as well-formed fields decodes to its embedded nodes in encounter
      order, each parsed from exactly its own bytes, and the last field-4 string as
      `name`; an embedded node that raises makes the whole parse raise. */
  lemma ParseGraphEncoded(fs: seq<Field>)
    requires AllWellFormed(fs)
    ensures NodesOf(fs).Failure? ==> ParseGraph(EncodeFields(fs)) == Failure(NodesOf(fs).error)
    ensures NodesOf(fs).Success? ==>
      ParseGraph(EncodeFields(fs)) == Success(Graph(NodesOf(fs).value, LastString(fs, 4)))
  {
    ScanRoundTrip(fs);
    ParseGraphMeaning(EncodeFields(fs));
  }

  /** `graph` is the last embedded graph: it is absent exactly when no field-7
      length-delimited value occurs, and otherwise it is the parse of the last one. */
  lemma {:induction false} GraphIsLastOccurrence(fs: seq<Field>)
    requires GraphsOf(fs).Success?
    ensures LastOf(GraphsOf(fs).value).None? <==> LastString(fs, 7).None?
    ensures LastString(fs, 7).Some? ==>
      ParseGraph(LastString(fs, 7).value) == Success(LastOf(GraphsOf(fs).value).value)
    decreases |fs|
  {
    if |fs| > 0 {
      var init := fs[..|fs| - 1];
      var f := fs[|fs| - 1];
      assert fs == init + [f];
      GraphsOfAppend(init, [f]);
      assert [f][1..] == [];
      LastAppend(init, [f], 7, 2);
      LastSingle(f, 7, 2);
      var gs := GraphsOf(init).value;
      var hs := GraphAt(f).value;
      GraphsOfSingle(f);
      LastOfAppend(gs, hs);
      GraphIsLastOccurrence(init);
    }
  }

  /** A model encoded as well-formed fields decodes to the last field-1 varint as
      `ir_version` and the last embedded graph as `graph`, each absent when none occurs;
      an embedded graph that raises makes the whole parse raise. */
  lemma ParseModelEncoded(fs: seq<Field>)
    requires AllWellFormed(fs)
    ensures GraphsOf(fs).Failure? ==> ParseModel(EncodeFields(fs)) == Failure(GraphsOf(fs).error)
    ensures GraphsOf(fs).Success? ==>
      ParseModel(EncodeFields(fs)) == Success(Model(LastVarint(fs, 1), LastOf(GraphsOf(fs).value)))
  {
    ScanRoundTrip(fs);
    ParseModelMeaning(EncodeFields(fs), 0);
  }

  // ---------------------------------------------------------------------------
  // Unrecognised fields are skipped without effect

  /** Splicing a well-formed field that `parse_nodeproto` does not store after any run of
      well-formed fields changes neither the result nor the exception, whatever follows. */
  lemma NodeIgnoresUnknownField(fs: seq<Field>, u: Field, post: seq<Byte>)
    requires AllWellFormed(fs) && WellFormed(u) && !NodeRecognises(u)
    ensures ParseNode(EncodeFields(fs) + EncodeField(u) + post) == ParseNode(EncodeFields(fs) + post)
  {
    var s := Scan(post, 0);
    ScanAfterInserted(fs, u, post);
    ScanEncoded(fs, post);
    NodeLoopScan(EncodeFields(fs) + EncodeField(u) + post, 0, EmptyNode);
    NodeLoopScan(EncodeFields(fs) + post, 0, EmptyNode);
    StringsSkip(fs, u, s.fields, 1);
    StringsSkip(fs, u, s.fields, 2);
    LastSkip(fs, u, s.fields, 3, 2);
    LastSkip(fs, u, s.fields, 4, 2);
  }

  /** The same for `parse_graphproto`. */
  lemma GraphIgnoresUnknownField(fs: seq<Field>, u: Field, post: seq<Byte>)
    requires AllWellFormed(fs) && WellFormed(u) && !GraphRecognises(u)
    ensures ParseGraph(EncodeFields(fs) + EncodeField(u) + post) == ParseGraph(EncodeFields(fs) + post)
  {
    var s := Scan(post, 0);
    ScanAfterInserted(fs, u, post);
    ScanEncoded(fs, post);
    GraphLoopScan(EncodeFields(fs) + EncodeField(u) + post, 0, EmptyGraph);
    GraphLoopScan(EncodeFields(fs) + post, 0, EmptyGraph);
    NodesOfSkip(fs, u, s.fields);
    LastSkip(fs, u, s.fields, 4, 2);
  }

  /** The same for `parse_modelproto`. */
  lemma ModelIgnoresUnknownField(fs: seq<Field>, u: Field, post: seq<Byte>)
    requires AllWellFormed(fs) && WellFormed(u) && !ModelRecognises(u)
    ensures ParseModel(EncodeFields(fs) + EncodeField(u) + post) == ParseModel(EncodeFields(fs) + post)
  {
    var s := Scan(post, 0);
    ScanAfterInserted(fs, u, post);
    ScanEncoded(fs, post);
    ModelLoopScan(EncodeFields(fs) + EncodeField(u) + post, 0, EmptyModel);
    ModelLoopScan(EncodeFields(fs) + post, 0, EmptyModel);
    GraphsOfSkip(fs, u, s.fields);
    LastSkip(fs, u, s.fields, 1, 0);
  }

  // ---------------------------------------------------------------------------
  // Unsupported wire types and overrunning lengths

  /** A tag with wire type 3, 4, 6 or 7 after well-formed fields makes `parse_nodeproto`
      raise the ValueError, whatever the field number and whatever follows. */
  lemma NodeRejectsWireType(fs: seq<Field>, number: nat, wtype: nat, post: seq<Byte>)
    requires AllWellFormed(fs) && wtype in {3, 4, 6, 7}
    ensures ParseNode(EncodeFields(fs) + (EncodeVarint(8 * number + wtype) + post))
      == Failure(UnsupportedWireType(wtype))
  {
    ScanUnsupported(number, wtype, post);
    ScanEncoded(fs, EncodeVarint(8 * number + wtype) + post);
    NodeLoopScan(EncodeFields(fs) + (EncodeVarint(8 * number + wtype) + post), 0, EmptyNode);
  }

  /** The same tag makes `parse_graphproto` raise; it is the ValueError unless an
      embedded node before it raised first. */
  lemma GraphRejectsWireType(fs: seq<Field>, number: nat, wtype: nat, post: seq<Byte>)
    requires AllWellFormed(fs) && wtype in {3, 4, 6, 7}
    ensures ParseGraph(EncodeFields(fs) + (EncodeVarint(8 * number + wtype) + post)).Failure?
    ensures NodesOf(fs).Success? ==>
      ParseGraph(EncodeFields(fs) + (EncodeVarint(8 * number + wtype) + post)) == Failure(UnsupportedWireType(wtype))
  {
    ScanUnsupported(number, wtype, post);
    ScanEncoded(fs, EncodeVarint(8 * number + wtype) + post);
    GraphLoopScan(EncodeFields(fs) + (EncodeVarint(8 * number + wtype) + post), 0, EmptyGraph);
    assert fs + [] == fs;
  }

  /** The same tag makes `parse_modelproto` raise; it is the ValueError unless an
      embedded graph before it raised first. */
  lemma ModelRejectsWireType(fs: seq<Field>, number: nat, wtype: nat, post: seq<Byte>)
    requires AllWellFormed(fs) && wtype in {3, 4, 6, 7}
    ensures ParseModel(EncodeFields(fs) + (EncodeVarint(8 * number + wtype) + post)).Failure?
    ensures GraphsOf(fs).Success? ==>
      ParseModel(EncodeFields(fs) + (EncodeVarint(8 * number + wtype) + post)) == Failure(UnsupportedWireType(wtype))
  {
    ScanUnsupported(number, wtype, post);
    ScanEncoded(fs, EncodeVarint(8 * number + wtype) + post);
    ModelLoopScan(EncodeFields(fs) + (EncodeVarint(8 * number + wtype) + post), 0, EmptyModel);
    assert fs + [] == fs;
  }

  /** A final length-delimited field whose declared length runs past the end of the
      buffer does not raise: `parse_nodeproto` keeps the bytes that are there. */
  lemma NodeAcceptsOverrun(fs: seq<Field>, number: nat, len: nat, tail: seq<Byte>)
    requires AllWellFormed(fs) && |tail| < len
    ensures ParseNode(EncodeFields(fs) + (EncodeVarint(8 * number + 2) + EncodeVarint(len) + tail))
      == Success(NodeOf(fs + [Field(number, Len(tail))]))
  {
    var rest := EncodeVarint(8 * number + 2) + EncodeVarint(len) + tail;
    ScanOverrun(number, len, tail);
    ScanEncoded(fs, rest);
    ParseNodeMeaning(EncodeFields(fs) + rest);
  }

  /** The same for a graph: an embedded node whose declared length overruns is parsed
      from the bytes that remain, and nothing raises on that account. */
  lemma GraphAcceptsOverrun(fs: seq<Field>, len: nat, tail: seq<Byte>)
    requires AllWellFormed(fs) && |tail| < len
    ensures NodesOf(fs).Success? && ParseNode(tail).Success? ==>
      ParseGraph(EncodeFields(fs) + (EncodeVarint(8 * 1 + 2) + EncodeVarint(len) + tail))
        == Success(Graph(NodesOf(fs).value + [ParseNode(tail).value], LastString(fs, 4)))
  {
    if NodesOf(fs).Success? && ParseNode(tail).Success? {
      var f := Field(1, Len(tail));
      var rest := EncodeVarint(8 * 1 + 2) + EncodeVarint(len) + tail;
      var buf := EncodeFields(fs) + rest;
      assert Scan(buf, 0) == Stream(fs + [f], None) by {
        ScanOverrun(1, len, tail);
        ScanEncoded(fs, rest);
      }
      assert NodesOf(fs + [f]) == Success(NodesOf(fs).value + [ParseNode(tail).value]) by {
        NodesOfAppend(fs, [f]);
        NodesOfSingle(f);
      }
      assert LastString(fs + [f], 4) == LastString(fs, 4) by {
        LastStringAppend(fs, [f], 4);
        LastSingle(f, 4, 2);
      }
      ParseGraphOfStream(buf, fs + [f]);
    }
  }

  /** A buffer whose whole stream is `fs` parses as the graph `fs` means. */
  lemma ParseGraphOfStream(buf: seq<Byte>, fs: seq<Field>)
    requires Scan(buf, 0) == Stream(fs, None) && NodesOf(fs).Success?
    ensures ParseGraph(buf) == Success(Graph(NodesOf(fs).value, LastString(fs, 4)))
  {
    ParseGraphMeaning(buf);
  }
}
