/** Concrete buffers and what the parsers make of them. */
module Scenarios {
  import opened Wrappers
  import opened Wire
  import opened Fields
  import opened Onnx
  import opened Interpretation
  import opened Properties

  /** "Conv" as bytes. */
  const Conv: seq<Byte> := [67, 111, 110, 118]

  /** A node holding only `op_type = "Conv"` (tag 0x1A: field 3, wire type 2). */
  lemma ConvNode()
    ensures ParseNode([0x1A, 4] + Conv) == Success(Node([], [], Some(Conv), None))
  {
    var f := Field(3, Len(Conv));
    assert EncodeFields([f]) == [0x1A, 4] + Conv;
    ParseNodeEncoded([f]);
    StringsSingle(f, 1);
    StringsSingle(f, 2);
    LastSingle(f, 3, 2);
    LastSingle(f, 4, 2);
  }

  /** A model holding only `ir_version = 7` (tag 0x08: field 1, wire type 0). */
  lemma IrVersionOnly()
    ensures ParseModel([0x08, 7]) == Success(Model(Some(7), None))
  {
    var f := Field(1, Varint(7));
    assert EncodeFields([f]) == [0x08, 7];
    ParseModelEncoded([f]);
    GraphsOfSingle(f);
    LastSingle(f, 1, 0);
  }

  /** A node whose only field is a one-byte `op_type`. */
  lemma OneByteOpNode(c: Byte)
    ensures ParseNode([0x1A, 1, c]) == Success(Node([], [], Some([c]), None))
  {
    var f := Field(3, Len([c]));
    assert EncodeFields([f]) == [0x1A, 1, c];
    ParseNodeEncoded([f]);
    StringsSingle(f, 1);
    StringsSingle(f, 2);
    LastSingle(f, 3, 2);
    LastSingle(f, 4, 2);
  }

  /** Two embedded nodes (tag 0x0A: field 1, wire type 2) come out in stream order. */
  lemma TwoNodesInOrder()
    ensures ParseGraph([0x0A, 3, 0x1A, 1, 65, 0x0A, 3, 0x1A, 1, 66])
      == Success(Graph([Node([], [], Some([65]), None), Node([], [], Some([66]), None)], None))
  {
    var na := Field(1, Len([0x1A, 1, 65]));
    var nb := Field(1, Len([0x1A, 1, 66]));
    var fs := [na, nb];
    assert EncodeFields(fs) == [0x0A, 3, 0x1A, 1, 65, 0x0A, 3, 0x1A, 1, 66] by {
      assert EncodeField(na) == [0x0A, 3, 0x1A, 1, 65];
      assert EncodeField(nb) == [0x0A, 3, 0x1A, 1, 66];
      assert fs[1..] == [nb];
      assert EncodeFields([nb]) == EncodeField(nb) + EncodeFields([]);
    }
    var a := Node([], [], Some([65]), None);
    var b := Node([], [], Some([66]), None);
    assert NodesOf(fs) == Success([a, b]) by {
      OneByteOpNode(65);
      OneByteOpNode(66);
      assert NodeAt(na) == Success([a]);
      assert NodeAt(nb) == Success([b]);
      NodesOfSingle(na);
      NodesOfSingle(nb);
      assert [a] + [b] == [a, b];
      assert [na] + [nb] == fs;
      NodesOfAppend([na], [nb]);
    }
    assert LastString(fs, 4) == None by {
      assert [na] + [nb] == fs;
      LastAppend([na], [nb], 4, 2);
      LastSingle(na, 4, 2);
      LastSingle(nb, 4, 2);
    }
    ParseGraphEncoded(fs);
  }

  /** A group-start tag (0x0B: field 1, wire type 3) after `ir_version` raises. */
  lemma GroupStartRejected()
    ensures ParseModel([0x08, 7, 0x0B]) == Failure(UnsupportedWireType(3))
  {
    var f := Field(1, Varint(7));
    assert EncodeFields([f]) == [0x08, 7];
    assert EncodeVarint(8 * 1 + 3) == [0x0B];
    assert [0x08, 7, 0x0B] == EncodeFields([f]) + (EncodeVarint(8 * 1 + 3) + []);
    GraphsOfSingle(f);
    ModelRejectsWireType([f], 1, 3, []);
  }

  /** An input declared five bytes long with one byte left keeps that byte. */
  lemma TruncatedInputKept()
    ensures ParseNode([0x0A, 5, 120]) == Success(Node([[120]], [], None, None))
  {
    var f := Field(1, Len([120]));
    assert EncodeFields([]) + (EncodeVarint(8 * 1 + 2) + EncodeVarint(5) + [120]) == [0x0A, 5, 120];
    NodeAcceptsOverrun([], 1, 5, [120]);
    assert [] + [f] == [f];
    StringsSingle(f, 1); StringsSingle(f, 2); LastSingle(f, 3, 2); LastSingle(f, 4, 2);
  }
}
