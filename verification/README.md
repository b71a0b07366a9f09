# A verified model of a minimal ONNX protobuf reader

`onnx.py` reads an ONNX model file without the protobuf library. It decodes the
protobuf wire format by hand: base-128 varints, tags split into a field number
and a wire type, and length-delimited strings and sub-messages. Of the
`ModelProto`, `GraphProto` and `NodeProto` messages it keeps only a handful of
fields and skips the rest:

- model: field 1 `ir_version` (varint) and field 7 `graph`;
- graph: field 1 `node` (repeated) and field 4 `name`;
- node: fields 1 and 2 `input`/`output` (repeated strings), field 3 `op_type` and
  field 4 `name`.

The model here is the code as written. The Python dictionaries become
datatypes, and Python exceptions become `Result` failures. A decoded value is
an unbounded `nat`.

| file | module | what it holds |
|---|---|---|
| `wrappers.dfy` | `Wrappers` | `Option` and `Result` |
| `bits.dfy` | `Bits` | Python's `<<`, `>>`, `&`, `\|` on non-negative integers, and the facts the decoder needs about them |
| `wire.dfy` | `Wire` | `read_varint` (as a recursive function and as the original loop), the tag split, `skip_unknown`, Python slice clamping, `parse_string`, and a varint encoder |
| `fields.dfy` | `Fields` | a reference reading of a buffer as a stream of fields, an encoder for fields, and the round trip between them |
| `onnx.dfy` | `Onnx` | `parse_nodeproto`, `parse_graphproto` and `parse_modelproto`, one recursive function per `while` loop |
| `interpretation.dfy` | `Interpretation` | what a node, graph or model means as a function of its field stream, written without positions |
| `correctness.dfy` | `Correctness` | each parser equals the meaning of the field stream of its buffer |
| `properties.dfy` | `Properties` | consequences for encoded messages: round trips, unknown fields ignored, unsupported wire types raise, overruns truncate |
| `scenarios.dfy` | `Scenarios` | worked examples on concrete byte strings |

The proof proceeds in three layers:

1. `Fields.Scan` cuts a buffer into `(number, payload)` fields. It stops at
   the first error. It stops without error when a position reaches or passes
   the end of the buffer.
2. `Interpretation` defines, for a sequence of fields, the parsed result:
   - every `input`/`output` string, in order;
   - the **last** occurrence of each singular field;
   - every embedded node, parsed in order;
   - the first parse error among embedded messages.
3. `Correctness.Parse*Meaning` proves that each parser equals that
   interpretation of `Scan` of its buffer. `Fields.ScanRoundTrip` proves that
   `Scan` inverts the encoder. From these, `Properties` derives the behaviour
   of the parsers on encoded messages.

Behaviour of the code that a strict protobuf decoder would not share:

- A varint may have any number of bytes. There is no ten-byte limit and no
  64-bit truncation.
- A length that runs past the end of the buffer raises no error. The slice
  is clamped, as Python does. The position moves past the end, and the loop
  ends.
- A fixed-width field (wire types 1 and 5) only advances the position. It
  never checks that the bytes exist.
- The only errors are `IndexError`, raised when a varint runs off the end,
  and `ValueError`, raised for wire types 3, 4, 6 and 7. An error in an
  embedded node or graph aborts the whole parse.
- A field that has the right number but the wrong wire type is skipped as
  unknown. Field 1 of a model sent as wire type 2 is one example.

## Model

| member | source | states |
|---|---|---|
| Wire.ReadVarint | onnx.py:10-20 | a varint read either fails with `IndexError` or ends strictly after its start and within the buffer |
| Wire.ReadVarintSpec | onnx.py:10-20 | the read succeeds exactly when some byte at or after `pos` has its high bit clear; it then stops just after the first such byte, every earlier byte has the high bit set, and the value is the little-endian base-128 sum of the low seven bits |
| Wire.ReadVarintRunsOff | onnx.py:15 | when every remaining byte has its continuation bit set, indexing past the end raises `IndexError` |
| Wire.ReadVarintStopsAt | onnx.py:18-19 | the read stops at the first byte without a continuation bit and returns the accumulated value and the next position |
| Wire.ReadVarintLoop | onnx.py:10-20 | the Python loop, with its `\|=`, `<<`, `&` and shift counter, computes exactly the same result or error as the recursive definition |
| Wire.ReadVarintLoopStep | onnx.py:17-18 | one loop step ORs the new seven bits in at the current shift without overlap, and `b & 0x80` is zero exactly when the byte ends the varint |
| Wire.VarintValueBound | onnx.py:17 | `k` varint bytes hold a value below 2^(7k), so the next group never overlaps the bits already set |
| Wire.SplitTag | onnx.py:50 | the tag splits into a wire type below 8 and a field number with `tag == 8 * number + wtype` |
| Wire.SplitTagOfTag | onnx.py:50 | splitting `8 * number + wtype` for `wtype < 8` returns exactly `(number, wtype)` |
| Wire.VarintRoundTrip | onnx.py:10-20 | reading the encoding of any `n` returns `n` and the length of the encoding |
| Wire.ReadVarintEncoded | onnx.py:10-20 | an encoded varint anywhere inside a larger buffer reads back as its value, ending right after it |
| Wire.ReadVarintShift | onnx.py:10-20 | a varint read depends only on the bytes from `pos` on; prefixing bytes shifts the end position and changes nothing else |
| Wire.SkipUnknown | onnx.py:23-36 | wire type 0 skips a varint; 1 skips 8 bytes; 2 skips a length varint and that many bytes; 5 skips 4 bytes; every other wire type raises the unsupported-wire-type error; the only other error is `IndexError` from a varint; success always advances |
| Fields.SkipUnknownEncoded | onnx.py:23-36 | skipping an encoded payload of any supported wire type lands exactly at its end |
| Wire.Slice | onnx.py:41 | Python's `buf[start:start+len]`: at most `len` bytes, exactly `len` when in range, empty when `start` is past the end, and each byte equal to the buffer byte at the same offset |
| Wire.ParseString | onnx.py:39-42 | fails exactly when the length varint fails; otherwise returns the bytes between the varint's end and `len` bytes further, clamped to the buffer, and the unclamped end position |
| Wire.ParseStringEncoded | onnx.py:39-42 | a length-prefixed string inside a buffer reads back as itself and ends right after it |
| Fields.ReadPayload | onnx.py:23-36 | reading a payload fails exactly when skipping it fails, with the same error, and ends where skipping ends; a varint payload is the `read_varint` value, and a length-delimited payload is what `parse_string` returns |
| Fields.ScanField | onnx.py:49-50 | a scanned field's number and wire type recombine to the tag varint; the field ends after its start |
| Fields.Scan | onnx.py:48 | the field stream is empty once `pos` reaches the end of the buffer, and it has no more fields than remaining bytes |
| Fields.ScanShift | onnx.py:48-62 | the stream read from `pos` depends only on the bytes from `pos` on |
| Fields.ScanEncoded | onnx.py:48-62 | the stream of encoded fields followed by any bytes is those fields followed by the stream of those bytes |
| Fields.ScanRoundTrip | onnx.py:48-62 | the stream of an encoded field sequence is that sequence, with no error |
| Fields.ScanUnsupported | onnx.py:34-35 | a tag with wire type 3, 4, 6 or 7 stops the stream with `UnsupportedWireType` and yields no field |
| Fields.ScanOverrun | onnx.py:39-42 | a length-delimited field whose length runs past the end yields one field holding the remaining bytes, and the stream ends without error |
| Onnx.NodeLoop | onnx.py:48-62 | a failure is `IndexError` or an unsupported wire type from 3, 4, 6 and 7; inputs and outputs only grow by appending, and a set `op_type` or `name` stays set |
| Onnx.ParseNode | onnx.py:45-63 | an empty buffer gives a node with no inputs, outputs, `op_type` or `name`; any failure is one of the two Python exceptions |
| Onnx.GraphLoop | onnx.py:69-81 | a failure is one of the two Python exceptions; nodes only grow by appending, and a set `name` stays set |
| Onnx.ParseGraph | onnx.py:66-82 | an empty buffer gives a graph with no nodes and no name; any failure is one of the two Python exceptions |
| Onnx.ModelLoop | onnx.py:87-99 | a failure is one of the two Python exceptions; a set `ir_version` or `graph` stays set |
| Onnx.ParseModel | onnx.py:85-100 | a start position at or past the end of the buffer gives the empty model; any failure is one of the two Python exceptions |
| Interpretation.LastIsLastOccurrence | onnx.py:55-60 | a singular field is absent exactly when no field has its number and wire type; otherwise its value is the payload of a matching field with no matching field after it |
| Interpretation.LastAppend | onnx.py:57 | the last occurrence in a concatenation is the one in the second part when there is one, else the one in the first part |
| Interpretation.StringsAppend | onnx.py:51-54 | the repeated strings of a concatenation are those of the first part followed by those of the second |
| Interpretation.NodesOfAppend | onnx.py:72-76 | the embedded nodes of a concatenation are those of the first part followed by those of the second, and the first part's error takes precedence |
| Interpretation.GraphsOfAppend | onnx.py:93-97 | the embedded graphs of a concatenation are those of the first part followed by those of the second, and the first part's error takes precedence |
| Correctness.NodeLoopStep | onnx.py:48-62 | one iteration of the node loop consumes exactly the next scanned field and applies its effect, or raises the field's error |
| Correctness.GraphLoopStep | onnx.py:69-81 | one iteration of the graph loop consumes the next scanned field, raising its error or the error of the node it embeds |
| Correctness.ModelLoopStep | onnx.py:87-99 | one iteration of the model loop consumes the next scanned field, raising its error or the error of the graph it embeds |
| Correctness.NodeLoopScan | onnx.py:48-62 | the node loop from any position and accumulator equals folding the field stream from that position into the accumulator |
| Correctness.GraphLoopScan | onnx.py:69-81 | the graph loop from any position equals folding the field stream from that position |
| Correctness.ModelLoopScan | onnx.py:87-99 | the model loop from any position equals folding the field stream from that position |
| Correctness.ParseNodeMeaning | onnx.py:45-63 | the node of a buffer holds all field-1 and field-2 strings in order and the last field-3 and field-4 strings; it fails exactly when the field stream stops with an error |
| Correctness.ParseGraphMeaning | onnx.py:66-82 | the graph of a buffer holds every embedded field-1 node, parsed in order, and the last field-4 name; the first failing node's error wins over a later stream error |
| Correctness.ParseModelMeaning | onnx.py:85-100 | the model read from `pos` holds the last field-1 varint and the graph parsed from the last field-7 value; every embedded graph is parsed, and the first failure wins |
| Properties.ParseNodeEncoded | onnx.py:45-63 | decoding an encoded node-field sequence gives its meaning, without error |
| Properties.ParseGraphEncoded | onnx.py:66-82 | decoding an encoded graph-field sequence gives its nodes and its last name, or the first embedded node's error |
| Properties.ParseModelEncoded | onnx.py:85-100 | decoding an encoded model-field sequence gives its last `ir_version` and last graph, or the first embedded graph's error |
| Properties.GraphIsLastOccurrence | onnx.py:93-97 | the model's graph is present exactly when some field 7 is length-delimited, and it is the parse of the last such field's bytes |
| Properties.NodeIgnoresUnknownField | onnx.py:61-62 | inserting, at any field boundary, a well-formed field that is not one of fields 1 to 4 sent with wire type 2 in an encoded node does not change the result |
| Properties.GraphIgnoresUnknownField | onnx.py:80-81 | inserting, at any field boundary, a well-formed field that is not field 1 or 4 sent with wire type 2 in an encoded graph does not change the result |
| Properties.ModelIgnoresUnknownField | onnx.py:98-99 | inserting, at any field boundary, a well-formed field that is neither field 1 as a varint nor field 7 with wire type 2 in an encoded model does not change the result |
| Properties.NodeRejectsWireType | onnx.py:34-35 | a tag with wire type 3, 4, 6 or 7 after encoded fields makes the node parse raise the unsupported-wire-type error for that wire type, whatever follows |
| Properties.GraphRejectsWireType | onnx.py:34-35 | such a tag makes the graph parse fail, and with the unsupported-wire-type error when the earlier nodes parse |
| Properties.ModelRejectsWireType | onnx.py:34-35 | such a tag makes the model parse fail, and with the unsupported-wire-type error when the earlier graphs parse |
| Properties.NodeAcceptsOverrun | onnx.py:39-42 | a final string whose declared length runs past the end is kept truncated to the bytes present, with no error |
| Properties.GraphAcceptsOverrun | onnx.py:72-76 | a final embedded node whose declared length runs past the end is parsed from the bytes present, with no error |
| Bits.AndLowMask | onnx.py:17 | `a & (2^k - 1)` is `a mod 2^k`, so `b & 0x7F` keeps the low seven bits and `tag & 0x07` keeps the low three |
| Bits.AndSingleBit | onnx.py:18 | `a & 2^k` is bit `k` of `a` in place, so `b & 0x80` tests the continuation bit |
| Bits.OrDisjoint | onnx.py:17 | OR with a value shifted above every set bit is addition |
| Bits.ShiftRightDiv | onnx.py:50 | `a >> k` is `a` divided by 2^k, rounding down |
| Wire.LowSevenBits | onnx.py:17 | `b & 0x7F` is the byte's low seven bits, `b mod 128` |
| Wire.HighBit | onnx.py:18 | `b & 0x80` is zero exactly when the byte has no continuation bit, so the loop returns on exactly that byte |
| Scenarios.ConvNode | onnx.py:55-57 | the bytes `1A 04 "Conv"` parse to a node whose only field is `op_type = "Conv"` |
| Scenarios.IrVersionOnly | onnx.py:90-92 | the bytes `08 07` parse to a model with `ir_version = 7` and no graph |
| Scenarios.TwoNodesInOrder | onnx.py:72-76 | two embedded nodes come out in stream order |
| Scenarios.GroupStartRejected | onnx.py:34-35 | a group-start tag after `ir_version` raises the unsupported-wire-type error for wire type 3 |
| Scenarios.TruncatedInputKept | onnx.py:39-42 | an input declared five bytes long with one byte left is kept as that one byte |

## Left out

- `load` and `main` (onnx.py:103-119) are not modelled. They read a file and
  print, and neither holds any decoding logic.
- `utility.py` and `test.py` are not part of this model.
- String fields stay as the raw byte slice. The `.decode("utf-8", "ignore")`
  step of `parse_string` (onnx.py:41) is not modelled. Dropping invalid UTF-8
  sequences is text encoding and does not affect positions or which fields
  are read.
- Onnx.ParseModel: the start position is a `nat`. A negative Python `pos`
  would index from the end of the buffer, and that case is not modelled.
- Python's `|` and `&` are modelled on non-negative integers only, which are
  the only values the decoder applies them to.
- Fixed-width payloads (wire types 1 and 5) are recorded in the field stream
  as the clamped slice of their 8 or 4 bytes. The parsers only skip them.
- Onnx.NodeLoop, Onnx.GraphLoop, Onnx.ModelLoop: their own contracts state
  only the error kinds and monotonicity. Their exact results are stated by
  `Correctness.*LoopScan` and `Correctness.Parse*Meaning`.
- Properties.GraphRejectsWireType, Properties.ModelRejectsWireType: the exact
  error is stated only when the embedded messages before the bad tag parse.
  Otherwise the first embedded failure is reported instead, as
  `Correctness.ParseGraphMeaning` and `Correctness.ParseModelMeaning` state.
