/** The field stream a buffer denotes. This is the reference view of the wire format that
    the three message parsers are measured against: the message loops of onnx.py all read
    a tag, split it, and consume one value per wire type, and `Scan` records what each step
    consumed without interpreting it. The encoder is its inverse on well-formed fields. */
module Fields {
  import opened Wrappers
  import opened Wire

  /** A field value as it sits on the wire, one constructor per supported wire type. */
  datatype Payload =
    | Varint(value: nat)          // wire type 0
    | I64(bytes: seq<Byte>)       // wire type 1, eight raw bytes
    | Len(bytes: seq<Byte>)       // wire type 2, length-delimited
    | I32(bytes: seq<Byte>)       // wire type 5, four raw bytes

  datatype Field = Field(number: nat, payload: Payload)

  /** The fields read from a buffer in order, and the exception that stopped the
      reading, if any. */
  datatype Stream = Stream(fields: seq<Field>, stop: Option<Error>)

  function WireType(p: Payload): nat
  {
    match p
    case Varint(_) => 0
    case I64(_) => 1
    case Len(_) => 2
    case I32(_) => 5
  }

  /** Whether a field carries the (field number, wire type) pair a parser dispatches on. */
  predicate Matches(f: Field, number: nat, wtype: nat)
  {
    f.number == number && WireType(f.payload) == wtype
  }

  /** The value of wire type `wtype` at `pos`. It consumes exactly what `skip_unknown`
      would skip, fails exactly when that fails and with the same exception, and reads a
      length-delimited value as `parse_string` does. Fixed-width values are taken as a
      clamped slice: onnx.py never looks at their bytes. */
  function ReadPayload(wtype: nat, buf: seq<Byte>, pos: nat): (r: Result<(Payload, nat), Error>)
    ensures r.Success? ==> WireType(r.value.0) == wtype
    ensures r.Failure? <==> SkipUnknown(wtype, buf, pos).Failure?
    ensures r.Failure? ==> r.error == SkipUnknown(wtype, buf, pos).error
    ensures r.Success? ==> r.value.1 == SkipUnknown(wtype, buf, pos).value
    ensures wtype == 0 && r.Success? ==> r.value.0 == Varint(ReadVarint(buf, pos).value.0)
    ensures wtype == 2 && r.Success? ==>
      (r.value.0.bytes, r.value.1) == ParseString(buf, pos).value
  {
    if wtype == 0 then
      match ReadVarint(buf, pos)
      case Failure(e) => Failure(e)
      case Success(read) => Success((Varint(read.0), read.1))
    else if wtype == 1 then Success((I64(Slice(buf, pos, 8)), pos + 8))
    else if wtype == 2 then
      match ParseString(buf, pos)
      case Failure(e) => Failure(e)
      case Success(read) => Success((Len(read.0), read.1))
    else if wtype == 5 then Success((I32(Slice(buf, pos, 4)), pos + 4))
    else Failure(UnsupportedWireType(wtype))
  }

  /** One tag and its value. The field's number and wire type are the two halves of
      the tag that was read, and the field ends after its start. */
  function ScanField(buf: seq<Byte>, pos: nat): (r: Result<(Field, nat), Error>)
    ensures r.Success? ==> ReadVarint(buf, pos).Success?
    ensures r.Success? ==>
      8 * r.value.0.number + WireType(r.value.0.payload) == ReadVarint(buf, pos).value.0
    ensures r.Success? ==> r.value.1 > pos
  {
    match ReadVarint(buf, pos)
    case Failure(e) => Failure(e)
    case Success(read) =>
      var (tag, p) := read;
      var (number, wtype) := SplitTag(tag);
      match ReadPayload(wtype, buf, p)
      case Failure(e) => Failure(e)
      case Success(value) => Success((Field(number, value.0), value.1))
  }

  /** Fields read from `pos` while `pos < len(buf)`, the loop condition of every message
      parser. A field never takes less than one byte, so there are at most as many
      fields as bytes left. */
  function Scan(buf: seq<Byte>, pos: nat): (r: Stream)
    ensures pos >= |buf| ==> r == Stream([], None)
    ensures pos < |buf| ==> |r.fields| <= |buf| - pos
    decreases |buf| - pos
  {
    if pos >= |buf| then Stream([], None)
    else
      match ScanField(buf, pos)
      case Failure(e) => Stream([], Some(e))
      case Success(read) =>
        var rest := Scan(buf, read.1);
        Stream([read.0] + rest.fields, rest.stop)
  }

  function Prepend(fs: seq<Field>, s: Stream): Stream
  {
    Stream(fs + s.fields, s.stop)
  }

  function EncodePayload(p: Payload): seq<Byte>
  {
    match p
    case Varint(v) => EncodeVarint(v)
    case I64(bs) => bs
    case Len(bs) => EncodeVarint(|bs|) + bs
    case I32(bs) => bs
  }

  /** The tag varint, `number << 3 | wire type`, then the value. */
  function EncodeField(f: Field): (r: seq<Byte>)
    ensures |r| >= 1
  {
    EncodeVarint(8 * f.number + WireType(f.payload)) + EncodePayload(f.payload)
  }

  function EncodeFields(fs: seq<Field>): seq<Byte>
  {
    if |fs| == 0 then [] else EncodeField(fs[0]) + EncodeFields(fs[1..])
  }

  /** Fixed-width values have their width. */
  predicate WellFormed(f: Field)
  {
    match f.payload
    case I64(bs) => |bs| == 8
    case I32(bs) => |bs| == 4
    case _ => true
  }

  predicate AllWellFormed(fs: seq<Field>)
  {
    forall i :: 0 <= i < |fs| ==> WellFormed(fs[i])
  }

  lemma {:induction false} EncodeFieldsAppend(a: seq<Field>, b: seq<Field>)
    ensures EncodeFields(a + b) == EncodeFields(a) + EncodeFields(b)
    decreases |a|
  {
    if |a| > 0 {
      assert (a + b)[1..] == a[1..] + b;
      EncodeFieldsAppend(a[1..], b);
    } else {
      assert a + b == b;
    }
  }

  /** A well-formed value written in place reads back as itself. */
  lemma ReadPayloadEncoded(buf: seq<Byte>, pos: nat, p: Payload)
    requires WellFormed(Field(0, p))
    requires pos + |EncodePayload(p)| <= |buf|
    requires buf[pos..pos + |EncodePayload(p)|] == EncodePayload(p)
    ensures ReadPayload(WireType(p), buf, pos) == Success((p, pos + |EncodePayload(p)|))
  {
    match p
    case Varint(n) =>
      ReadVarintEncoded(buf, pos, n);
    case I64(bs) =>
      assert Slice(buf, pos, 8) == buf[pos..pos + 8];
    case Len(bs) =>
      ParseStringEncoded(buf, pos, bs);
    case I32(bs) =>
      assert Slice(buf, pos, 4) == buf[pos..pos + 4];
  }

  /** A tag read at `pos` and a value of its wire type after it make one field. */
  lemma ScanFieldSteps(buf: seq<Byte>, pos: nat, tag: nat, p: nat, f: Field, end: nat)
    requires ReadVarint(buf, pos) == Success((tag, p))
    requires SplitTag(tag) == (f.number, WireType(f.payload))
    requires ReadPayload(WireType(f.payload), buf, p) == Success((f.payload, end))
    ensures ScanField(buf, pos) == Success((f, end))
  {
  }

  /** A well-formed field at the front of a buffer scans back as itself and ends where
      its encoding ends. */
  lemma ScanFieldEncoded(f: Field, post: seq<Byte>)
    requires WellFormed(f)
    ensures ScanField(EncodeField(f) + post, 0) == Success((f, |EncodeField(f)|))
  {
    var buf := EncodeField(f) + post;
    var w := WireType(f.payload);
    var tag := 8 * f.number + w;
    var t := EncodeVarint(tag);
    var v := EncodePayload(f.payload);
    var p := |t|;
    assert EncodeField(f) == t + v;
    assert ReadVarint(buf, 0) == Success((tag, p)) by {
      assert buf[0..p] == t;
      ReadVarintEncoded(buf, 0, tag);
    }
    assert ReadPayload(w, buf, p) == Success((f.payload, p + |v|)) by {
      assert buf[p..p + |v|] == v;
      ReadPayloadEncoded(buf, p, f.payload);
    }
    SplitTagOfTag(f.number, w);
    ScanFieldSteps(buf, 0, tag, p, f, p + |v|);
  }

  /** One step of the scan: a field read at `pos` heads the stream. */
  lemma ScanStep(buf: seq<Byte>, pos: nat, f: Field, end: nat)
    requires pos < |buf|
    requires ScanField(buf, pos) == Success((f, end))
    ensures Scan(buf, pos) == Prepend([f], Scan(buf, end))
  {
  }

  /** A field that cannot be read stops the scan with its exception. */
  lemma ScanStops(buf: seq<Byte>, pos: nat, e: Error)
    requires pos < |buf|
    requires ScanField(buf, pos) == Failure(e)
    ensures Scan(buf, pos) == Stream([], Some(e))
  {
  }

  /** A value read after a prefix is the value read without it, ending |prefix| later. */
  lemma ReadPayloadShift(prefix: seq<Byte>, buf: seq<Byte>, wtype: nat, pos: nat)
    ensures ReadPayload(wtype, buf, pos).Failure? ==>
      ReadPayload(wtype, prefix + buf, |prefix| + pos) == ReadPayload(wtype, buf, pos)
    ensures ReadPayload(wtype, buf, pos).Success? ==>
      ReadPayload(wtype, prefix + buf, |prefix| + pos)
        == Success((ReadPayload(wtype, buf, pos).value.0, |prefix| + ReadPayload(wtype, buf, pos).value.1))
  {
    ReadVarintShift(prefix, buf, pos);
    SliceShift(prefix, buf, pos, 8);
    SliceShift(prefix, buf, pos, 4);
    if ReadVarint(buf, pos).Success? {
      var (len, start) := ReadVarint(buf, pos).value;
      SliceShift(prefix, buf, start, len);
    }
  }

  /** A field read after a prefix is the field read without it, ending |prefix| later. */
  lemma ScanFieldShift(prefix: seq<Byte>, buf: seq<Byte>, pos: nat)
    ensures ScanField(buf, pos).Failure? ==>
      ScanField(prefix + buf, |prefix| + pos) == ScanField(buf, pos)
    ensures ScanField(buf, pos).Success? ==>
      ScanField(prefix + buf, |prefix| + pos)
        == Success((ScanField(buf, pos).value.0, |prefix| + ScanField(buf, pos).value.1))
  {
    ReadVarintShift(prefix, buf, pos);
    if ReadVarint(buf, pos).Success? {
      var (tag, p) := ReadVarint(buf, pos).value;
      ReadPayloadShift(prefix, buf, SplitTag(tag).1, p);
    }
  }

  /** Scanning depends only on the bytes from `pos` on. */
  lemma {:induction false} ScanShift(prefix: seq<Byte>, buf: seq<Byte>, pos: nat)
    ensures Scan(prefix + buf, |prefix| + pos) == Scan(buf, pos)
    decreases |buf| - pos
  {
    var whole := prefix + buf;
    var at := |prefix| + pos;
    if pos < |buf| {
      var sf := ScanField(buf, pos);
      if sf.Failure? {
        assert ScanField(whole, at) == sf by {
          ScanFieldShift(prefix, buf, pos);
        }
        assert Scan(buf, pos) == Stream([], Some(sf.error)) by {
          ScanStops(buf, pos, sf.error);
        }
        assert Scan(whole, at) == Stream([], Some(sf.error)) by {
          ScanStops(whole, at, sf.error);
        }
      } else {
        var (f, end) := sf.value;
        assert ScanField(whole, at) == Success((f, |prefix| + end)) by {
          ScanFieldShift(prefix, buf, pos);
        }
        assert Scan(buf, pos) == Prepend([f], Scan(buf, end)) by {
          ScanStep(buf, pos, f, end);
        }
        assert Scan(whole, at) == Prepend([f], Scan(whole, |prefix| + end)) by {
          ScanStep(whole, at, f, |prefix| + end);
        }
        ScanShift(prefix, buf, end);
      }
    } else {
      assert at >= |whole|;
    }
  }

  /** A field read from the front of a buffer, ending where its bytes `e` end, heads the
      stream of the whole buffer; the rest is the stream of what follows `e`. */
  lemma ScanHead(e: seq<Byte>, rest: seq<Byte>, f: Field)
    requires ScanField(e + rest, 0) == Success((f, |e|))
    ensures Scan(e + rest, 0) == Prepend([f], Scan(rest, 0))
  {
    var buf := e + rest;
    var tail := Scan(buf, |e|);
    assert Scan(buf, 0) == Prepend([f], tail) by {
      ScanStep(buf, 0, f, |e|);
    }
    assert tail == Scan(rest, 0) by {
      ScanShiftFront(e, rest);
    }
  }

  /** The stream after a prefix is the stream of what follows it. */
  lemma ScanShiftFront(e: seq<Byte>, rest: seq<Byte>)
    ensures Scan(e + rest, |e|) == Scan(rest, 0)
  {
    ScanShift(e, rest, 0);
    assert |e| + 0 == |e|;
  }

  /** A well-formed encoded field at the front of a buffer heads its stream. */
  lemma ScanEncodedField(f: Field, rest: seq<Byte>)
    requires WellFormed(f)
    ensures Scan(EncodeField(f) + rest, 0) == Prepend([f], Scan(rest, 0))
  {
    ScanFieldEncoded(f, rest);
    ScanHead(EncodeField(f), rest, f);
  }

  lemma EncodeFieldsCons(fs: seq<Field>, post: seq<Byte>)
    requires |fs| > 0
    ensures EncodeFields(fs) + post == EncodeField(fs[0]) + (EncodeFields(fs[1..]) + post)
  {
  }

  lemma AllWellFormedTail(fs: seq<Field>)
    requires |fs| > 0 && AllWellFormed(fs)
    ensures WellFormed(fs[0]) && AllWellFormed(fs[1..])
  {
    forall i | 0 <= i < |fs[1..]| ensures WellFormed(fs[1..][i]) {
      assert fs[1..][i] == fs[i + 1];
    }
  }

  lemma PrependCons(fs: seq<Field>, s: Stream)
    requires |fs| > 0
    ensures Prepend([fs[0]], Prepend(fs[1..], s)) == Prepend(fs, s)
  {
    assert [fs[0]] + (fs[1..] + s.fields) == fs + s.fields by {
      assert fs == [fs[0]] + fs[1..];
    }
  }

  /** Well-formed encoded fields at the front of a buffer scan back as those fields,
      followed by whatever the rest of the buffer scans to. */
  lemma {:induction false} ScanEncoded(fs: seq<Field>, post: seq<Byte>)
    requires AllWellFormed(fs)
    ensures Scan(EncodeFields(fs) + post, 0) == Prepend(fs, Scan(post, 0))
    decreases |fs|
  {
    var whole := EncodeFields(fs) + post;
    var tail := Scan(post, 0);
    if |fs| == 0 {
      assert whole == post;
      assert fs + tail.fields == tail.fields;
    } else {
      var rest := EncodeFields(fs[1..]) + post;
      AllWellFormedTail(fs);
      assert Scan(whole, 0) == Prepend([fs[0]], Scan(rest, 0)) by {
        EncodeFieldsCons(fs, post);
        ScanEncodedField(fs[0], rest);
      }
      assert Scan(rest, 0) == Prepend(fs[1..], tail) by {
        ScanEncoded(fs[1..], post);
      }
      PrependCons(fs, tail);
    }
  }

  /** `skip_unknown` steps over a well-formed value exactly: it lands where the value's
      encoding ends. */
  lemma SkipUnknownEncoded(p: Payload, post: seq<Byte>)
    requires WellFormed(Field(0, p))
    ensures SkipUnknown(WireType(p), EncodePayload(p) + post, 0) == Success(|EncodePayload(p)|)
  {
    var buf := EncodePayload(p) + post;
    assert buf[0..|EncodePayload(p)|] == EncodePayload(p);
    ReadPayloadEncoded(buf, 0, p);
  }

  /** A tag whose wire type is not 0, 1, 2 or 5 stops the scan where it stands. */
  lemma ScanUnsupported(number: nat, wtype: nat, post: seq<Byte>)
    requires wtype in {3, 4, 6, 7}
    ensures Scan(EncodeVarint(8 * number + wtype) + post, 0) == Stream([], Some(UnsupportedWireType(wtype)))
  {
    var t := EncodeVarint(8 * number + wtype);
    var buf := t + post;
    assert buf[0..|t|] == t;
    ReadVarintEncoded(buf, 0, 8 * number + wtype);
    SplitTagOfTag(number, wtype);
    assert ScanField(buf, 0) == Failure(UnsupportedWireType(wtype));
    ScanStops(buf, 0, UnsupportedWireType(wtype));
  }

  /** A length-delimited field whose declared length reaches to or past the end of the
      buffer is read as whatever bytes remain, and the scan then ends without error. */
  lemma ScanOverrun(number: nat, len: nat, tail: seq<Byte>)
    requires |tail| <= len
    ensures Scan(EncodeVarint(8 * number + 2) + EncodeVarint(len) + tail, 0)
      == Stream([Field(number, Len(tail))], None)
  {
    var t := EncodeVarint(8 * number + 2);
    var l := EncodeVarint(len);
    var buf := t + l + tail;
    var start := |t| + |l|;
    assert buf[0..|t|] == t;
    ReadVarintEncoded(buf, 0, 8 * number + 2);
    SplitTagOfTag(number, 2);
    assert buf[|t|..start] == l;
    ReadVarintEncoded(buf, |t|, len);
    assert Slice(buf, start, len) == tail by {
      assert buf[start..] == tail;
    }
    assert ScanField(buf, 0) == Success((Field(number, Len(tail)), start + len));
    ScanStep(buf, 0, Field(number, Len(tail)), start + len);
    assert [Field(number, Len(tail))] + [] == [Field(number, Len(tail))];
  }

  /** Field-stream round trip: encoded well-formed fields scan back to exactly those
      fields, with nothing stopping the scan. */
  lemma ScanRoundTrip(fs: seq<Field>)
    requires AllWellFormed(fs)
    ensures Scan(EncodeFields(fs), 0) == Stream(fs, None)
  {
    ScanEncoded(fs, []);
    assert EncodeFields(fs) + [] == EncodeFields(fs);
    assert fs + [] == fs;
  }
}
