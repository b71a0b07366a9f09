/** The wire-level helpers of onnx.py: base-128 varints, tag splitting, skipping a
    field by its wire type, and length-prefixed strings. Buffers are byte sequences;
    positions are unbounded and may run past the end of the buffer, as Python ints do. */
module Wire {
  import opened Wrappers
  import opened Bits

  type Byte = b: int | 0 <= b < 256

  /** The two exceptions the decoder can raise: indexing past the end of the buffer
      while reading a varint, and a wire type other than 0, 1, 2 or 5. */
  datatype Error = IndexError | UnsupportedWireType(wtype: nat)

  /** The high bit of a varint byte: more bytes follow. */
  predicate Continues(b: Byte)
  {
    b >= 128
  }

  /** The value a run of varint bytes denotes: the sum of `(b_i & 0x7F) << 7*i`. */
  function VarintValue(bs: seq<Byte>): nat
  {
    if |bs| == 0 then 0
    else VarintValue(bs[..|bs| - 1]) + ShiftLeft(bs[|bs| - 1] % 128, 7 * (|bs| - 1))
  }

  /** Reading bytes front to back: the first byte supplies the low seven bits. */
  lemma {:induction false} VarintValueCons(b: Byte, bs: seq<Byte>)
    ensures VarintValue([b] + bs) == b % 128 + 128 * VarintValue(bs)
    decreases |bs|
  {
    var s := [b] + bs;
    if |bs| == 0 {
      assert s[..0] == [];
    } else {
      var n := |bs|;
      var init := bs[..n - 1];
      var low := bs[n - 1] % 128;
      var q := Pow2(7 * (n - 1));
      assert VarintValue(s) == VarintValue([b] + init) + ShiftLeft(low, 7 * n) by {
        assert s[..|s| - 1] == [b] + init;
        assert s[|s| - 1] == bs[n - 1];
      }
      assert ShiftLeft(low, 7 * n) == low * (128 * q) by {
        Pow2Add(7, 7 * (n - 1));
        Pow2Constants();
      }
      assert VarintValue(bs) == VarintValue(init) + low * q;
      VarintValueCons(b, init);
      Scale128(VarintValue(init), low, q);
    }
  }

  lemma Scale128(v: int, low: int, q: int)
    ensures 128 * v + low * (128 * q) == 128 * (v + low * q)
  {
  }

  /** A run of k varint bytes denotes a value below 2^(7k). */
  lemma {:induction false} VarintValueBound(bs: seq<Byte>)
    ensures VarintValue(bs) < Pow2(7 * |bs|)
    decreases |bs|
  {
    if |bs| > 0 {
      var n := |bs|;
      var init := bs[..n - 1];
      var low := bs[n - 1] % 128;
      VarintValueBound(init);
      Pow2Add(7, 7 * (n - 1));
      Pow2Constants();
      var q := Pow2(7 * (n - 1));
      assert Pow2(7 * n) == 128 * q;
      assert VarintValue(bs) == VarintValue(init) + low * q;
      assert low * q <= 127 * q by { MulMono(q, low, 127); }
    }
  }

  /** `read_varint(buf, pos)`: the varint starting at `pos` and the position just past
      it, or the IndexError raised when the buffer ends first. No length cap applies. */
  function ReadVarint(buf: seq<Byte>, pos: nat): (r: Result<(nat, nat), Error>)
    ensures r.Success? ==> pos < r.value.1 <= |buf|
    ensures r.Failure? ==> r.error == IndexError
    decreases |buf| - pos
  {
    if pos >= |buf| then Failure(IndexError)
    else if !Continues(buf[pos]) then Success((buf[pos], pos + 1))
    else
      match ReadVarint(buf, pos + 1)
      case Failure(e) => Failure(e)
      case Success(rest) => Success((buf[pos] % 128 + 128 * rest.0, rest.1))
  }

  /** What `ReadVarint` reads. It succeeds exactly when a byte with a clear high bit lies
      at or after `pos`; the varint then ends at the first such byte, and its value is
      the sum of the low seven bits of the bytes read, weighted 2^0, 2^7, 2^14, ... */
  lemma {:induction false} ReadVarintSpec(buf: seq<Byte>, pos: nat)
    ensures ReadVarint(buf, pos).Success? <==> exists j :: pos <= j < |buf| && !Continues(buf[j])
    ensures ReadVarint(buf, pos).Success? ==>
      var (value, end) := ReadVarint(buf, pos).value;
      && !Continues(buf[end - 1])
      && (forall k :: pos <= k < end - 1 ==> Continues(buf[k]))
      && value == VarintValue(buf[pos..end])
    decreases |buf| - pos
  {
    if pos < |buf| {
      if !Continues(buf[pos]) {
        assert buf[pos..pos + 1] == [buf[pos]] + [];
        VarintValueCons(buf[pos], []);
      } else {
        ReadVarintSpec(buf, pos + 1);
        if ReadVarint(buf, pos + 1).Success? {
          var end := ReadVarint(buf, pos + 1).value.1;
          assert buf[pos..end] == [buf[pos]] + buf[pos + 1..end];
          VarintValueCons(buf[pos], buf[pos + 1..end]);
        }
      }
    }
  }

  /** A varint whose bytes all carry the high bit up to the end of the buffer raises. */
  lemma {:induction false} ReadVarintRunsOff(buf: seq<Byte>, pos: nat)
    requires forall k :: pos <= k < |buf| ==> Continues(buf[k])
    ensures ReadVarint(buf, pos) == Failure(IndexError)
    decreases |buf| - pos
  {
    if pos < |buf| {
      ReadVarintRunsOff(buf, pos + 1);
    }
  }

  /** A varint ends at the first byte with a clear high bit. */
  lemma ReadVarintStopsAt(buf: seq<Byte>, pos: nat, end: nat)
    requires pos < end <= |buf|
    requires !Continues(buf[end - 1])
    requires forall k :: pos <= k < end - 1 ==> Continues(buf[k])
    ensures ReadVarint(buf, pos) == Success((VarintValue(buf[pos..end]), end))
  {
    ReadVarintSpec(buf, pos);
    var r := ReadVarint(buf, pos);
    assert r.Success?;
    var e := r.value.1;
    assert !(e < end) && !(end < e);
  }

  /** One iteration of the `read_varint` loop: OR-ing the next seven bits in at `shift`
      extends the value by one byte, and `b & 0x80` tests the high bit. */
  lemma ReadVarintLoopStep(buf: seq<Byte>, pos: nat, p: nat, value: nat, shift: nat)
    requires pos <= p < |buf|
    requires shift == 7 * (p - pos)
    requires p == pos ==> value == 0
    requires p > pos ==> value == VarintValue(buf[pos..p])
    ensures BitOr(value, ShiftLeft(BitAnd(buf[p], 0x7F), shift)) == VarintValue(buf[pos..p + 1])
    ensures BitAnd(buf[p], 0x80) == 0 <==> !Continues(buf[p])
  {
    var b := buf[p];
    var bs := buf[pos..p + 1];
    LowSevenBits(b);
    assert VarintValue(bs) == value + ShiftLeft(b % 128, shift) by {
      assert bs[..|bs| - 1] == buf[pos..p];
      if p == pos {
        assert bs[..0] == [];
      }
    }
    assert value < Pow2(shift) by {
      if p > pos {
        VarintValueBound(buf[pos..p]);
      }
    }
    OrDisjoint(value, b % 128, shift);
    HighBit(b);
  }

  /** `b & 0x7F` is the payload of a varint byte. */
  lemma LowSevenBits(b: Byte)
    ensures BitAnd(b, 0x7F) == b % 128
  {
    Pow2Constants();
    AndLowMask(b, 7);
  }

  /** `b & 0x80` is clear exactly on the last byte of a varint. */
  lemma HighBit(b: Byte)
    ensures BitAnd(b, 0x80) == 0 <==> !Continues(b)
  {
    Pow2Constants();
    AndSingleBit(b, 7);
    assert b / 128 == 0 <==> b < 128;
  }

  /** The loop of `read_varint` as written: `value |= (b & 0x7F) << shift`, stop when
      `b & 0x80` is clear, `shift += 7`. It computes exactly what `ReadVarint` denotes. */
  method ReadVarintLoop(buf: seq<Byte>, pos: nat) returns (r: Result<(nat, nat), Error>)
    ensures r == ReadVarint(buf, pos)
  {
    var value: nat := 0;
    var shift: nat := 0;
    var p: nat := pos;
    while true
      invariant p == pos || pos < p <= |buf|
      invariant shift == 7 * (p - pos)
      invariant forall k :: pos <= k < p ==> Continues(buf[k])
      invariant p == pos ==> value == 0
      invariant p > pos ==> value == VarintValue(buf[pos..p])
      decreases |buf| - p
    {
      if p >= |buf| {
        ReadVarintRunsOff(buf, pos);
        return Failure(IndexError);
      }
      var b := buf[p];
      ReadVarintLoopStep(buf, pos, p, value, shift);
      value := BitOr(value, ShiftLeft(BitAnd(b, 0x7F), shift));
      p := p + 1;
      if BitAnd(b, 0x80) == 0 {
        ReadVarintStopsAt(buf, pos, p);
        return Success((value, p));
      }
      shift := shift + 7;
    }
  }

  /** `tag >> 3, tag & 0x07`: the field number and the wire type of a tag. */
  function SplitTag(tag: nat): (r: (nat, nat))
    ensures r.1 < 8
    ensures tag == 8 * r.0 + r.1
  {
    Pow2Constants();
    AndLowMask(tag, 3);
    ShiftRightDiv(tag, 3);
    (ShiftRight(tag, 3), BitAnd(tag, 0x07))
  }

  /** Splitting a tag built as `number << 3 | wtype` gives back its two halves. */
  lemma SplitTagOfTag(number: nat, wtype: nat)
    requires wtype < 8
    ensures SplitTag(8 * number + wtype) == (number, wtype)
  {
  }

  /** The canonical varint encoding of n, low seven bits first. */
  function EncodeVarint(n: nat): (r: seq<Byte>)
    ensures |r| >= 1
  {
    if n < 128 then [n] else [n % 128 + 128] + EncodeVarint(n / 128)
  }

  /** Reading a varint where its encoding sits yields the encoded value and the position
      just past the encoding, whatever follows it. */
  lemma {:induction false} ReadVarintEncoded(buf: seq<Byte>, pos: nat, n: nat)
    requires pos + |EncodeVarint(n)| <= |buf|
    requires buf[pos..pos + |EncodeVarint(n)|] == EncodeVarint(n)
    ensures ReadVarint(buf, pos) == Success((n, pos + |EncodeVarint(n)|))
    decreases n
  {
    var e := EncodeVarint(n);
    assert buf[pos] == e[0];
    if n >= 128 {
      var tail := EncodeVarint(n / 128);
      assert buf[pos + 1..pos + 1 + |tail|] == tail by {
        assert e == [n % 128 + 128] + tail;
        assert buf[pos + 1..pos + 1 + |tail|] == buf[pos..pos + |e|][1..];
      }
      ReadVarintEncoded(buf, pos + 1, n / 128);
    }
  }

  /** Varint round trip: decoding an encoding gives back the value and consumes all of it. */
  lemma VarintRoundTrip(n: nat)
    ensures ReadVarint(EncodeVarint(n), 0) == Success((n, |EncodeVarint(n)|))
  {
    var e := EncodeVarint(n);
    assert e[0..|e|] == e;
    ReadVarintEncoded(e, 0, n);
  }

  /** Reading a varint depends only on the bytes from `pos` on: a prefix shifts the
      end position and changes nothing else. */
  lemma {:induction false} ReadVarintShift(prefix: seq<Byte>, buf: seq<Byte>, pos: nat)
    ensures ReadVarint(buf, pos).Failure? ==> ReadVarint(prefix + buf, |prefix| + pos) == ReadVarint(buf, pos)
    ensures ReadVarint(buf, pos).Success? ==>
      ReadVarint(prefix + buf, |prefix| + pos)
        == Success((ReadVarint(buf, pos).value.0, |prefix| + ReadVarint(buf, pos).value.1))
    decreases |buf| - pos
  {
    var whole := prefix + buf;
    var p := |prefix| + pos;
    if pos >= |buf| {
      assert ReadVarint(whole, p) == Failure(IndexError);
    } else {
      assert whole[p] == buf[pos];
      if !Continues(buf[pos]) {
        assert ReadVarint(whole, p) == Success((buf[pos], p + 1));
      } else {
        ReadVarintShift(prefix, buf, pos + 1);
        assert ReadVarint(whole, p) == match ReadVarint(whole, p + 1)
          case Failure(e) => Failure(e)
          case Success(rest) => Success((buf[pos] % 128 + 128 * rest.0, rest.1));
      }
    }
  }

  /** `skip_unknown(wtype, buf, pos)`: the position after a field value of the given wire
      type. Fixed-width types advance blindly, even past the end of the buffer; varints
      and length prefixes are read; any other wire type raises. */
  function SkipUnknown(wtype: nat, buf: seq<Byte>, pos: nat): (r: Result<nat, Error>)
    ensures wtype == 1 ==> r == Success(pos + 8)
    ensures wtype == 5 ==> r == Success(pos + 4)
    ensures wtype == 0 ==>
      (r.Success? <==> ReadVarint(buf, pos).Success?)
      && (r.Success? ==> r.value == ReadVarint(buf, pos).value.1)
    ensures wtype == 2 ==>
      (r.Success? <==> ReadVarint(buf, pos).Success?)
      && (r.Success? ==> r.value == ReadVarint(buf, pos).value.1 + ReadVarint(buf, pos).value.0)
    ensures wtype !in {0, 1, 2, 5} ==> r == Failure(UnsupportedWireType(wtype))
    ensures r.Failure? ==> r.error == IndexError || r.error == UnsupportedWireType(wtype)
    ensures r.Success? ==> r.value > pos
  {
    if wtype == 0 then
      match ReadVarint(buf, pos)
      case Failure(e) => Failure(e)
      case Success(read) => Success(read.1)
    else if wtype == 1 then Success(pos + 8)
    else if wtype == 2 then
      match ReadVarint(buf, pos)
      case Failure(e) => Failure(e)
      case Success(read) => Success(read.1 + read.0)
    else if wtype == 5 then Success(pos + 4)
    else Failure(UnsupportedWireType(wtype))
  }

  /** `buf[start : start + len]` with Python's clamping: indices past the end are cut
      back to the end, so the result may be shorter than `len`, or empty. */
  function Slice(buf: seq<Byte>, start: nat, len: nat): (r: seq<Byte>)
    ensures |r| <= len
    ensures start + len <= |buf| ==> |r| == len
    ensures start >= |buf| ==> r == []
    ensures forall i :: 0 <= i < |r| ==> start + i < |buf| && r[i] == buf[start + i]
    ensures start <= |buf| ==> |r| == if start + len <= |buf| then len else |buf| - start
  {
    var lo := if start <= |buf| then start else |buf|;
    var hi := if start + len <= |buf| then start + len else |buf|;
    buf[lo..hi]
  }

  lemma SliceShift(prefix: seq<Byte>, buf: seq<Byte>, start: nat, len: nat)
    ensures Slice(prefix + buf, |prefix| + start, len) == Slice(buf, start, len)
  {
    var a := Slice(prefix + buf, |prefix| + start, len);
    var b := Slice(buf, start, len);
    assert |a| == |b|;
    assert forall i :: 0 <= i < |a| ==> a[i] == b[i];
  }

  /** `parse_string(buf, pos)`: a length varint, then that many bytes. The returned
      position is the end of the length varint plus the length, even when fewer bytes
      remain; the string is whatever part of the run lies inside the buffer. */
  function ParseString(buf: seq<Byte>, pos: nat): (r: Result<(seq<Byte>, nat), Error>)
    ensures r.Success? <==> ReadVarint(buf, pos).Success?
    ensures r.Failure? ==> r.error == IndexError
    ensures r.Success? ==>
      var (len, start) := ReadVarint(buf, pos).value;
      && r.value.1 == start + len
      && |r.value.0| <= len
      && (start + len <= |buf| ==> r.value.0 == buf[start..start + len])
      && (start + len > |buf| ==> r.value.0 == buf[start..])
    ensures r.Success? ==> r.value.1 > pos
  {
    match ReadVarint(buf, pos)
    case Failure(e) => Failure(e)
    case Success(read) =>
      var (len, start) := read;
      Success((Slice(buf, start, len), start + len))
  }

  /** A length-prefixed string written in place reads back as itself and ends where
      the encoding ends. */
  lemma ParseStringEncoded(buf: seq<Byte>, pos: nat, s: seq<Byte>)
    requires pos + |EncodeVarint(|s|) + s| <= |buf|
    requires buf[pos..pos + |EncodeVarint(|s|) + s|] == EncodeVarint(|s|) + s
    ensures ParseString(buf, pos) == Success((s, pos + |EncodeVarint(|s|) + s|))
  {
    var e := EncodeVarint(|s|);
    var start := pos + |e|;
    assert buf[pos..start] == e by {
      assert buf[pos..start] == buf[pos..pos + |e + s|][..|e|];
      assert (e + s)[..|e|] == e;
    }
    ReadVarintEncoded(buf, pos, |s|);
    assert Slice(buf, start, |s|) == buf[start..start + |s|];
    assert buf[start..start + |s|] == s by {
      assert buf[start..start + |s|] == buf[pos..pos + |e + s|][|e|..];
      assert (e + s)[|e|..] == s;
    }
  }
}
