/** The RESP value and its encoder: `Value` and the `Marshal` family of app/resp.go. */
module RespValue {
  import opened Bytes
  import opened Wrappers
  import opened Strconv

  /** The type bytes of RESP2 (app/resp.go:10-16). */
  const StringByte: byte := 43   // '+'
  const ErrorByte: byte := 45    // '-'
  const IntegerByte: byte := 58  // ':'
  const BulkByte: byte := 36     // '$'
  const ArrayByte: byte := 42    // '*'

  /** The Go struct `Value`: a tag and all five fields. Go does not tie the tag
      to the field that is meaningful, so neither does this datatype; the tag is
      any string, including "integer" and the empty tag of the zero value.
      The Go field `array` is called `elems` (`array` is a Dafny keyword). */
  datatype Value = Value(typ: string, str: seq<byte>, num: int64, bulk: seq<byte>, elems: seq<Value>)

  /** Go's zero `Value{}`. */
  const ZeroValue: Value := Value("", [], 0, [], [])

  /** The error `fmt.Errorf("unknown type: %s", v.typ)`. */
  datatype EncodeError = UnknownType(typ: string)

  /** The tags that `Marshal` has a case for. */
  predicate Marshallable(typ: string) {
    typ == "array" || typ == "bulk" || typ == "string" || typ == "null" || typ == "error"
  }

  /** The first byte of the encoding of a value with a marshallable tag. */
  function Prefix(typ: string): byte
    requires Marshallable(typ)
  {
    if typ == "array" then ArrayByte
    else if typ == "bulk" || typ == "null" then BulkByte
    else if typ == "string" then StringByte
    else ErrorByte
  }

  /** The bytes `$-1\r\n` written for a null. */
  const NullBytes: seq<byte> := [BulkByte, Minus, 49, CR, LF]

  predicate EndsWithCRLF(b: seq<byte>) {
    |b| >= 2 && b[|b| - 2] == CR && b[|b| - 1] == LF
  }

  /** `Value.Marshal`: the RESP bytes of v, or an error for a tag it has no case for.
      Every encoding starts with the type byte of its tag and ends with CR LF. */
  function Marshal(v: Value): (r: Result<seq<byte>, EncodeError>)
    decreases v, 1
    ensures r.Ok? <==> Marshallable(v.typ)
    ensures r.Fail? ==> r == Fail(UnknownType(v.typ))
    ensures r.Ok? ==> |r.value| >= 3 && r.value[0] == Prefix(v.typ) && EndsWithCRLF(r.value)
  {
    if v.typ == "array" then Ok(MarshalArray(v))
    else if v.typ == "bulk" then Ok(MarshalBulk(v))
    else if v.typ == "string" then Ok(MarshalString(v))
    else if v.typ == "null" then Ok(NullBytes)
    else if v.typ == "error" then Ok(MarshalError(v))
    else Fail(UnknownType(v.typ))
  }

  /** What `marshalArray` appends for one child: its encoding, or nothing when
      the child's Marshal fails (the error is dropped). */
  function Chunk(v: Value): (b: seq<byte>)
    decreases v, 2
    ensures b == [] || EndsWithCRLF(b)
  {
    match Marshal(v)
    case Ok(bytes) => bytes
    case Fail(_) => []
  }

  /** `marshalArray`: '*', the element count, CR LF, then the children. */
  function MarshalArray(v: Value): (b: seq<byte>)
    decreases v, 0
    ensures |b| >= 3 && b[0] == ArrayByte && EndsWithCRLF(b)
  {
    [ArrayByte] + Itoa(|v.elems|) + CRLF + MarshalItems(v, 0)
  }

  /** The encodings of v.elems[i..], concatenated in order. */
  function MarshalItems(v: Value, i: nat): (b: seq<byte>)
    requires i <= |v.elems|
    decreases v, 0, |v.elems| - i
    ensures b == [] || EndsWithCRLF(b)
  {
    if i == |v.elems| then []
    else
      Chunk(v.elems[i]) + MarshalItems(v, i + 1)
  }

  /** `marshalString`: '+', the text, CR LF. */
  function MarshalString(v: Value): (b: seq<byte>)
    ensures |b| == |v.str| + 3 && b[0] == StringByte && b[1..|b| - 2] == v.str && EndsWithCRLF(b)
  {
    [StringByte] + v.str + CRLF
  }

  /** `marshalBulk`: '$', the byte count, the payload, CR LF. There is no CR LF
      between the count and the payload. */
  function MarshalBulk(v: Value): (b: seq<byte>)
    ensures |b| >= 3 && b[0] == BulkByte && b[1..|b| - 2] == Itoa(|v.bulk|) + v.bulk && EndsWithCRLF(b)
  {
    [BulkByte] + Itoa(|v.bulk|) + v.bulk + CRLF
  }

  /** `marshalError`: '-', the text, CR LF. */
  function MarshalError(v: Value): (b: seq<byte>)
    ensures |b| == |v.str| + 3 && b[0] == ErrorByte && b[1..|b| - 2] == v.str && EndsWithCRLF(b)
  {
    [ErrorByte] + v.str + CRLF
  }

  /** The concatenation of a sequence of byte strings. */
  function Flatten(chunks: seq<seq<byte>>): seq<byte> {
    if chunks == [] then [] else chunks[0] + Flatten(chunks[1..])
  }

  /** A "string" encodes as '+', its text, CR LF, and an "error" as '-', its
      text, CR LF; no other field matters and neither can fail. */
  lemma MarshalTextShape(v: Value)
    ensures v.typ == "string" ==> Marshal(v) == Ok([StringByte] + v.str + CRLF)
    ensures v.typ == "error" ==> Marshal(v) == Ok([ErrorByte] + v.str + CRLF)
  {
  }

  /** A "null" encodes as exactly the five bytes `$-1\r\n`, whatever its fields hold. */
  lemma MarshalNullShape(v: Value)
    requires v.typ == "null"
    ensures Marshal(v) == Ok(NullBytes) && |NullBytes| == 5
  {
  }

  /** A "bulk" encodes as '$', the byte count of its payload, the payload and
      CR LF: no CR LF stands between the count and the payload. */
  lemma MarshalBulkShape(v: Value)
    requires v.typ == "bulk"
    ensures Marshal(v) == Ok([BulkByte] + Itoa(|v.bulk|) + v.bulk + CRLF)
  {
  }

  /** The children's chunks of `v.elems[i..]`, in order. */
  function Chunks(v: Value, i: nat): (c: seq<seq<byte>>)
    requires i <= |v.elems|
    ensures |c| == |v.elems| - i
  {
    seq(|v.elems| - i, k requires 0 <= k < |v.elems| - i => Chunk(v.elems[i + k]))
  }

  /** MarshalItems is the concatenation of the children's chunks. */
  lemma {:induction false} MarshalItemsFlatten(v: Value, i: nat)
    requires i <= |v.elems|
    decreases |v.elems| - i
    ensures MarshalItems(v, i) == Flatten(Chunks(v, i))
  {
    if i < |v.elems| {
      MarshalItemsFlatten(v, i + 1);
      assert Chunks(v, i)[1..] == Chunks(v, i + 1);
    }
  }

  /** An "array" encodes as '*', its element count, CR LF, then each child's
      encoding in order. A child that Marshal rejects contributes nothing, yet
      it is counted and the array still succeeds. */
  lemma MarshalArrayShape(v: Value)
    requires v.typ == "array"
    ensures Marshal(v) == Ok([ArrayByte] + Itoa(|v.elems|) + CRLF + Flatten(Chunks(v, 0)))
    ensures forall i :: 0 <= i < |v.elems| ==>
              (Chunks(v, 0)[i] == [] <==> !Marshallable(v.elems[i].typ))
    ensures forall i :: 0 <= i < |v.elems| && Marshallable(v.elems[i].typ) ==>
              Chunks(v, 0)[i] == Marshal(v.elems[i]).value
  {
    MarshalArrayFlat(v);
    forall i | 0 <= i < |v.elems|
      ensures Chunks(v, 0)[i] == [] <==> !Marshallable(v.elems[i].typ)
      ensures Marshallable(v.elems[i].typ) ==> Chunks(v, 0)[i] == Marshal(v.elems[i]).value
    {
      assert Chunks(v, 0)[i] == Chunk(v.elems[i]);
    }
  }

  /** The bytes of an "array" as one concatenation of its children's chunks. */
  lemma MarshalArrayFlat(v: Value)
    requires v.typ == "array"
    ensures Marshal(v) == Ok([ArrayByte] + Itoa(|v.elems|) + CRLF + Flatten(Chunks(v, 0)))
  {
    MarshalItemsFlatten(v, 0);
  }

  /** Every tag but the five fails, in particular "integer" and the empty tag of
      the zero Value: the error names the tag and no bytes are produced. */
  lemma MarshalRejects(v: Value)
    requires !Marshallable(v.typ)
    ensures Marshal(v) == Fail(UnknownType(v.typ))
    ensures Marshal(ZeroValue).Fail? && Marshal(Value("integer", [], v.num, [], [])).Fail?
  {
  }
}
