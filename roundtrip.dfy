/** How the decoder of app/resp.go reads what its encoder writes, and how it
    reads the frames a RESP client sends. */
module RoundTrip {
  import opened Wrappers
  import opened Bytes
  import opened Strconv
  import opened RespValue
  import opened RespReader

  /** The bytes x sit in s at cursor p, byte by byte. */
  predicate At(s: seq<byte>, p: nat, x: seq<byte>)
    decreases |x|
  {
    if x == [] then p <= |s| else p < |s| && s[p] == x[0] && At(s, p + 1, x[1..])
  }

  /** At is the slice of s from p being x. */
  lemma {:induction false} AtSlice(s: seq<byte>, p: nat, x: seq<byte>)
    decreases |x|
    ensures At(s, p, x) <==> p + |x| <= |s| && s[p..p + |x|] == x
  {
    if x != [] {
      AtSlice(s, p + 1, x[1..]);
      if p + |x| <= |s| {
        assert s[p..p + |x|] == [s[p]] + s[p + 1..p + |x|];
        assert x == [x[0]] + x[1..];
      }
    }
  }

  /** The whole of s sits at cursor 0. */
  lemma AtWhole(s: seq<byte>)
    ensures At(s, 0, s)
  {
    assert s[0..|s|] == s;
    AtSlice(s, 0, s);
  }

  /** x ++ y at cursor p is x at p and y right after it. */
  lemma AtSplit(s: seq<byte>, p: nat, x: seq<byte>, y: seq<byte>)
    requires At(s, p, x + y)
    ensures At(s, p, x) && At(s, p + |x|, y) && p + |x| + |y| <= |s|
  {
    AtSlice(s, p, x + y);
    Split(s, p, x, y);
    AtSlice(s, p, x);
    AtSlice(s, p + |x|, y);
  }

  /** A frame x ++ y sitting at cursor p splits into x at p and y right after it. */
  lemma Split(s: seq<byte>, p: nat, x: seq<byte>, y: seq<byte>)
    requires p + |x| + |y| <= |s| && s[p..p + |x| + |y|] == x + y
    ensures s[p..p + |x|] == x
    ensures s[p + |x|..p + |x| + |y|] == y
  {
    assert s[p..p + |x|] == s[p..p + |x| + |y|][..|x|];
    assert s[p + |x|..p + |x| + |y|] == s[p..p + |x| + |y|][|x|..];
  }

  /** A type byte, a count line d and a body sitting at cursor p. */
  lemma HeaderParts(s: seq<byte>, p: nat, t: byte, d: seq<byte>, body: seq<byte>)
    requires At(s, p, [t] + d + CRLF + body)
    ensures var q := p + 1 + |d| + 2;
      && p < |s| && s[p] == t && At(s, p + 1, d + CRLF)
      && At(s, q, body) && p + |[t] + d + CRLF + body| == q + |body|
  {
    assert [t] + d + CRLF + body == [t] + ((d + CRLF) + body);
    AtSplit(s, p, [t], (d + CRLF) + body);
    AtSplit(s, p + 1, d + CRLF, body);
  }

  /** The pieces of a concatenation sitting at cursor p, and the cursors
      where they start. */
  lemma {:induction false} FlattenCuts(parts: seq<seq<byte>>, s: seq<byte>, p: nat) returns (cuts: seq<nat>)
    requires At(s, p, Flatten(parts))
    decreases |parts|
    ensures |cuts| == |parts| + 1 && cuts[0] == p && cuts[|parts|] == p + |Flatten(parts)|
    ensures forall i :: 0 <= i <= |parts| ==> cuts[i] <= |s|
    ensures forall i :: 0 <= i < |parts| ==> At(s, cuts[i], parts[i]) && cuts[i + 1] == cuts[i] + |parts[i]|
  {
    if parts == [] {
      cuts := [p];
    } else {
      AtSplit(s, p, parts[0], Flatten(parts[1..]));
      var rest := FlattenCuts(parts[1..], s, p + |parts[0]|);
      cuts := [p] + rest;
      forall i | 0 <= i < |parts|
        ensures At(s, cuts[i], parts[i]) && cuts[i + 1] == cuts[i] + |parts[i]|
      {
        if i > 0 {
          assert parts[i] == parts[1..][i - 1];
          assert cuts[i] == rest[i - 1] && cuts[i + 1] == rest[i];
        }
      }
    }
  }

  /** `Read` on a '*' hands over to `readArray`. */
  lemma ValueAtArray(s: seq<byte>, p: nat)
    requires p < |s| && s[p] == ArrayByte
    ensures ValueAt(s, p) == ArrayAt(s, p + 1)
  {
  }

  /** `Read` on a '$' hands over to `readBulk`. */
  lemma ValueAtBulk(s: seq<byte>, p: nat)
    requires p < |s| && s[p] == BulkByte
    ensures ValueAt(s, p) == BulkAt(s, p + 1)
  {
  }

  /** `Read` on a '+' or '-' makes a "string" or "error" of the line after it. */
  lemma ValueAtText(s: seq<byte>, p: nat, line: seq<byte>, q: nat)
    requires p < |s| && (s[p] == StringByte || s[p] == ErrorByte)
    requires p + 1 <= |s| && LineAt(s, p + 1) == Step(Success(line), q)
    ensures ValueAt(s, p) == Step(Success(Value(if s[p] == StringByte then "string" else "error", line, 0, [], [])), q)
  {
  }

  /** `readArray` with a count line n >= 0 and n values read in order. */
  lemma ArrayAtItems(s: seq<byte>, p: nat, n: int64, q: nat, vs: seq<Value>, r: nat)
    requires p <= |s| && IntegerAt(s, p) == Step(Success(n), q) && n >= 0
    requires q <= |s| && ItemsFrom(s, q, n as nat, []) == Step(Success(vs), r)
    ensures ArrayAt(s, p) == Step(Success(Value("array", [], 0, [], vs)), r)
  {
  }

  /** Values whose encoding the decoder reads back exactly, wherever it sits
      and whatever follows it: "string" and "error" values with no LF in
      their text, and "array" values of such values, all other fields zero.
      (The empty "bulk" comes back only when nothing follows it, see
      `MarshalEmptyBulkReads`.) */
  predicate Canonical(v: Value)
    decreases v
  {
    if v.typ == "string" || v.typ == "error" then
      v.num == 0 && v.bulk == [] && v.elems == [] && LF !in v.str
    else if v.typ == "array" then
      && v.str == [] && v.num == 0 && v.bulk == []
      && |v.elems| < 0x8000_0000_0000_0000
      && forall i :: 0 <= i < |v.elems| ==> Canonical(v.elems[i])
    else
      false
  }

  /** `Read` of a '+' or '-' and a line with no LF in it. */
  lemma DecodeTextParts(s: seq<byte>, p: nat, line: seq<byte>)
    requires p < |s| && (s[p] == StringByte || s[p] == ErrorByte)
    requires At(s, p + 1, line + CRLF) && LF !in line
    ensures ValueAt(s, p) ==
      Step(Success(Value(if s[p] == StringByte then "string" else "error", line, 0, [], [])), p + |line| + 3)
  {
    AtSlice(s, p + 1, line + CRLF);
    LineAtFrame(s, p + 1, line);
    ValueAtText(s, p, line, p + 1 + |line| + 2);
  }

  /** `Read` of a '*', a count line for n >= 0 ending at q, and n values read
      one after another from q: the value at cuts[i] is vs[i] and ends at
      cuts[i + 1]. */
  lemma DecodeArrayParts(s: seq<byte>, p: nat, q: nat, vs: seq<Value>, cuts: seq<nat>)
    requires |vs| < 0x8000_0000_0000_0000 && p < |s| && s[p] == ArrayByte
    requires IntegerAt(s, p + 1) == Step(Success(|vs|), q)
    requires |cuts| == |vs| + 1 && cuts[0] == q
    requires forall i :: 0 <= i <= |vs| ==> cuts[i] <= |s|
    requires forall i :: 0 <= i < |vs| ==> ValueAt(s, cuts[i]) == Step(Success(vs[i]), cuts[i + 1])
    ensures ValueAt(s, p) == Step(Success(Value("array", [], 0, [], vs)), cuts[|vs|])
  {
    ItemsFromCuts(s, vs, cuts, 0);
    assert vs[..0] == [];
    ArrayAtItems(s, p + 1, |vs|, q, vs, cuts[|vs|]);
    ValueAtArray(s, p);
  }

  /** The pieces of a "string" or "error" encoding. */
  lemma MarshalTextParts(v: Value, s: seq<byte>, p: nat)
    requires (v.typ == "string" || v.typ == "error") && At(s, p, Marshal(v).value)
    ensures p < |s| && s[p] == (if v.typ == "string" then StringByte else ErrorByte)
    ensures At(s, p + 1, v.str + CRLF) && |Marshal(v).value| == |v.str| + 3
  {
    var e := Marshal(v).value;
    MarshalTextShape(v);
    assert e == [e[0]] + (v.str + CRLF);
    AtSplit(s, p, [e[0]], v.str + CRLF);
  }

  /** Decoding the encoding of a canonical value, wherever it sits in the
      input and whatever follows it, gives the value back and stops right
      after its encoding. */
  lemma {:induction false} DecodeMarshal(v: Value, s: seq<byte>, p: nat)
    requires Canonical(v) && At(s, p, Marshal(v).value)
    decreases v, 2
    ensures ValueAt(s, p) == Step(Success(v), p + |Marshal(v).value|)
  {
    if v.typ == "string" || v.typ == "error" {
      MarshalTextParts(v, s, p);
      DecodeTextParts(s, p, v.str);
    } else {
      DecodeMarshalArray(v, s, p);
    }
  }

  /** The array case of DecodeMarshal. */
  lemma {:induction false} DecodeMarshalArray(v: Value, s: seq<byte>, p: nat)
    requires v.typ == "array" && Canonical(v) && At(s, p, Marshal(v).value)
    decreases v, 1
    ensures ValueAt(s, p) == Step(Success(v), p + |Marshal(v).value|)
  {
    MarshalArrayFlat(v);
    var q := ArrayHeader(s, p, |v.elems|, Flatten(Chunks(v, 0)));
    var cuts := DecodeChildren(v, s, q);
    DecodeArrayParts(s, p, q, v.elems, cuts);
    assert v == Value("array", [], 0, [], v.elems);
  }

  /** The header of an array's frame is read as its count, and the body
      follows it. */
  lemma ArrayHeader(s: seq<byte>, p: nat, n: int64, body: seq<byte>) returns (q: nat)
    requires n >= 0 && At(s, p, [ArrayByte] + Itoa(n) + CRLF + body)
    ensures p < |s| && s[p] == ArrayByte && q <= |s|
    ensures IntegerAt(s, p + 1) == Step(Success(n), q)
    ensures At(s, q, body) && q + |body| == p + |[ArrayByte] + Itoa(n) + CRLF + body|
  {
    q := p + 1 + |Itoa(n)| + 2;
    HeaderParts(s, p, ArrayByte, Itoa(n), body);
    AtSlice(s, p + 1, Itoa(n) + CRLF);
    IntegerAtFrame(s, p + 1, n);
  }

  /** The children's encodings of a canonical array, sitting at cursor q, are
      read one after another as the children. */
  lemma {:induction false} DecodeChildren(v: Value, s: seq<byte>, q: nat) returns (cuts: seq<nat>)
    requires v.typ == "array" && Canonical(v) && At(s, q, Flatten(Chunks(v, 0)))
    decreases v, 0
    ensures |cuts| == |v.elems| + 1 && cuts[0] == q && cuts[|v.elems|] == q + |Flatten(Chunks(v, 0))|
    ensures forall i :: 0 <= i <= |v.elems| ==> cuts[i] <= |s|
    ensures forall i :: 0 <= i < |v.elems| ==> ValueAt(s, cuts[i]) == Step(Success(v.elems[i]), cuts[i + 1])
  {
    MarshalArrayShape(v);
    cuts := FlattenCuts(Chunks(v, 0), s, q);
    forall i | 0 <= i < |v.elems|
      ensures ValueAt(s, cuts[i]) == Step(Success(v.elems[i]), cuts[i + 1])
    {
      assert Canonical(v.elems[i]);
      DecodeMarshal(v.elems[i], s, cuts[i]);
    }
  }

  /** The round trip as a whole: a canonical value is read back from its own
      encoding, which is consumed exactly. */
  lemma RoundTrip(v: Value)
    requires Canonical(v)
    ensures ValueAt(Marshal(v).value, 0) == Step(Success(v), |Marshal(v).value|)
  {
    var e := Marshal(v).value;
    AtWhole(e);
    DecodeMarshal(v, e, 0);
  }

  /** The encoder's non-empty bulk strings do not decode when the payload
      starts with a non-digit and holds no LF: with no CR LF after the count,
      the count line runs into the payload, and ParseInt rejects that line. */
  lemma MarshalBulkUnreadable(v: Value, s: seq<byte>, p: nat)
    requires v.typ == "bulk" && |v.bulk| > 0 && !IsDigit(v.bulk[0]) && LF !in v.bulk
    requires At(s, p, Marshal(v).value)
    ensures ValueAt(s, p) == Step(Failure(InvalidInteger), p + |Marshal(v).value|)
  {
    var line := MarshalBulkLine(v, s, p);
    ValueAtBulk(s, p);
    assert IntegerAt(s, p + 1) == Step(Failure(InvalidInteger), p + |Marshal(v).value|);
  }

  /** The first line `readLine` finds in the encoder's bulk string whose
      payload is non-empty, starts with a non-digit and holds no LF: the count
      run together with the payload, which ParseInt rejects. */
  lemma MarshalBulkLine(v: Value, s: seq<byte>, p: nat) returns (line: seq<byte>)
    requires v.typ == "bulk" && |v.bulk| > 0 && !IsDigit(v.bulk[0]) && LF !in v.bulk
    requires At(s, p, Marshal(v).value)
    ensures p < |s| && s[p] == BulkByte
    ensures LineAt(s, p + 1) == Step(Success(line), p + |Marshal(v).value|) && ParseInt(line) == None
  {
    var e := Marshal(v).value;
    var d := Itoa(|v.bulk|);
    line := d + v.bulk;
    ItoaSpec(|v.bulk|);
    MarshalBulkShape(v);
    assert e == [BulkByte] + (line + CRLF);
    AtSplit(s, p, [BulkByte], line + CRLF);
    AtSlice(s, p + 1, line + CRLF);
    assert LF !in line by {
      forall j | 0 <= j < |line|
        ensures line[j] != LF
      {
        if j < |d| { assert d[j] in d; } else { assert v.bulk[j - |d|] in v.bulk; }
      }
    }
    LineAtFrame(s, p + 1, line);
    assert line[|d|] == v.bulk[0];
    ParseIntRejects(line, |d|);
  }

  /** The encoder's bulk "PONG" is `$4PONG\r\n`, and the decoder rejects it. */
  lemma MarshalBulkPong(pong: seq<byte>, e: seq<byte>)
    requires pong == Ascii("PONG") && e == Ascii("$4PONG\r\n")
    ensures Marshal(BulkValue(pong)) == Ok(e)
    ensures ValueAt(e, 0).out == Failure(InvalidInteger)
  {
    PongBytes(pong, e);
    AtWhole(e);
    MarshalBulkUnreadable(BulkValue(pong), e, 0);
  }

  /** The bytes of the encoder's bulk "PONG". */
  lemma PongBytes(pong: seq<byte>, e: seq<byte>)
    requires pong == Ascii("PONG") && e == Ascii("$4PONG\r\n")
    ensures Marshal(BulkValue(pong)) == Ok(e)
  {
    MarshalBulkShape(BulkValue(pong));
    assert Itoa(4) == [52];
    assert pong == [80, 79, 78, 71];
    assert e == [BulkByte, 52] + pong + CRLF;
    assert [BulkByte] + Itoa(|pong|) == [BulkByte, 52];
  }

  /** The empty bulk string is the one the decoder gets back, as `$0\r\n`
      carries no payload for the count line to run into; but the line
      `readBulk` then reads and discards is whatever line follows. */
  lemma MarshalEmptyBulkReads(s: seq<byte>, p: nat)
    requires At(s, p, Marshal(BulkValue([])).value)
    ensures Marshal(BulkValue([])) == Ok([BulkByte, 48] + CRLF)
    ensures ValueAt(s, p) == Step(Success(BulkValue([])), StringAt(s, p + 4).next)
  {
    MarshalBulkShape(BulkValue([]));
    assert Itoa(0) == [48];
    assert [BulkByte] + Itoa(0) + [] + CRLF == [BulkByte, 48] + CRLF;
    assert [BulkByte, 48] + CRLF == [BulkByte] + (Itoa(0) + CRLF);
    AtSplit(s, p, [BulkByte], Itoa(0) + CRLF);
    AtSlice(s, p + 1, Itoa(0) + CRLF);
    IntegerAtFrame(s, p + 1, 0);
    assert IntegerAt(s, p + 1) == Step(Success(0), p + 4);
    ValueAtBulk(s, p);
    assert s[p + 4..p + 4] == [];
    assert FullAt(s, p + 4, 0) == Step(Success([]), p + 4);
    assert BulkAt(s, p + 1) == Step(Success(BulkValue([])), LineAt(s, p + 4).next);
    assert LineAt(s, p + 4).next == StringAt(s, p + 4).next;
  }

  /** On its own, the empty bulk string round-trips: `$0\r\n` is read back
      as the empty "bulk" and consumed exactly. */
  lemma EmptyBulkRoundTrip(e: seq<byte>)
    requires e == Marshal(BulkValue([])).value
    ensures ValueAt(e, 0) == Step(Success(BulkValue([])), |e|)
  {
    AtWhole(e);
    MarshalEmptyBulkReads(e, 0);
    assert |e| == 4;
  }

  /** Followed by `+A\r\n`, the empty bulk string swallows that line: one
      read consumes both encodings, and the string "A" is lost. */
  lemma EmptyBulkSwallowsNextLine(s: seq<byte>)
    requires s == [BulkByte, 48, CR, LF, StringByte, 65, CR, LF]
    ensures s == Marshal(BulkValue([])).value + Marshal(Value("string", [65], 0, [], [])).value
    ensures ValueAt(s, 0) == Step(Success(BulkValue([])), |s|)
  {
    var e, a := EmptyBulkThenA(s);
    AtWhole(s);
    AtSplit(s, 0, e, a);
    MarshalEmptyBulkReads(s, 0);
    FindLFIs(s, 4, 7);
  }

  /** The bytes of `$0\r\n+A\r\n`, as two encodings. */
  lemma EmptyBulkThenA(s: seq<byte>) returns (e: seq<byte>, a: seq<byte>)
    requires s == [BulkByte, 48, CR, LF, StringByte, 65, CR, LF]
    ensures e == Marshal(BulkValue([])).value && a == Marshal(Value("string", [65], 0, [], [])).value
    ensures s == e + a && |e| == 4
  {
    e, a := Marshal(BulkValue([])).value, Marshal(Value("string", [65], 0, [], [])).value;
    MarshalBulkShape(BulkValue([]));
    assert Itoa(0) == [48];
    assert e == [BulkByte, 48, CR, LF];
    MarshalTextShape(Value("string", [65], 0, [], []));
    assert a == [StringByte, 65, CR, LF];
  }

  /** A payload holding LF escapes `MarshalBulkUnreadable`: for CR LF the count
      line ends at the payload's own CR LF, so `$2\r\n\r\n` reads back exactly
      (the trailing line `readBulk` then reads finds EOF, which it ignores). */
  lemma CrLfBulkRoundTrip(e: seq<byte>)
    requires e == Marshal(BulkValue([CR, LF])).value
    ensures e == [BulkByte, 50, CR, LF, CR, LF]
    ensures ValueAt(e, 0) == Step(Success(BulkValue([CR, LF])), |e|)
  {
    CrLfBulkBytes(e);
    CrLfBulkReads(e);
  }

  /** The bytes of the bulk with payload CR LF. */
  lemma CrLfBulkBytes(e: seq<byte>)
    requires e == Marshal(BulkValue([CR, LF])).value
    ensures e == [BulkByte, 50, CR, LF, CR, LF]
  {
    MarshalBulkShape(BulkValue([CR, LF]));
    assert Itoa(2) == [50];
  }

  /** `$2\r\n\r\n` is read as the bulk CR LF, consuming all six bytes. */
  lemma CrLfBulkReads(e: seq<byte>)
    requires e == [BulkByte, 50, CR, LF, CR, LF]
    ensures ValueAt(e, 0) == Step(Success(BulkValue([CR, LF])), 6)
  {
    ValueAtBulk(e, 0);
    assert Itoa(2) == [50];
    assert e[1..4] == Itoa(2) + CRLF;
    IntegerAtFrame(e, 1, 2);
    BulkAtSpec(e, 1);
    assert e[4..6] == [CR, LF];
  }

  /** A text holding LF does not round-trip: "a\n" encodes to `+a\n\r\n`, and
      the line `readLine` finds ends at the first LF, with no CR before it. */
  lemma LfStringUnreadable(e: seq<byte>)
    requires e == Marshal(Value("string", [97, LF], 0, [], [])).value
    ensures e == [StringByte, 97, LF, CR, LF]
    ensures ValueAt(e, 0) == Step(Failure(InvalidLineEnding), 3)
  {
    MarshalTextShape(Value("string", [97, LF], 0, [], []));
    assert e == [StringByte, 97, LF, CR, LF];
    FindLFIs(e, 1, 2);
    assert LineAt(e, 1) == Step(Failure(InvalidLineEnding), 3);
  }

  /** The encoder's null, `$-1\r\n`, is read as an empty "bulk", not a "null". */
  lemma MarshalNullReadsAsEmptyBulk(s: seq<byte>, p: nat)
    requires p + 5 <= |s| && s[p..p + 5] == NullBytes
    ensures ValueAt(s, p) == Step(Success(BulkValue([])), p + 5)
  {
    assert s[p] == NullBytes[0];
    assert Itoa(-1) == [Minus, 49];
    Split(s, p, [BulkByte], Itoa(-1) + CRLF);
    IntegerAtFrame(s, p + 1, -1);
  }

  /** How a RESP client frames a bulk string: '$', the byte count, CR LF, the
      payload, CR LF. */
  function BulkFrame(b: seq<byte>): seq<byte> {
    [BulkByte] + Itoa(|b|) + CRLF + b + CRLF
  }

  /** A bulk frame is read back as its payload, which may hold any bytes, CR
      and LF included, and is consumed exactly. */
  lemma DecodeBulkFrame(b: seq<byte>, s: seq<byte>, p: nat, r: nat)
    requires |b| < 0x8000_0000_0000_0000
    requires At(s, p, BulkFrame(b)) && r == p + |BulkFrame(b)|
    ensures ValueAt(s, p) == Step(Success(BulkValue(b)), r)
  {
    var q := BulkFrameReads(b, s, p);
    DecodeBulkParts(b, s, p + 1, q, r);
    ValueAtBulk(s, p);
  }

  /** The pieces of a bulk frame. */
  lemma BulkFrameParts(b: seq<byte>, s: seq<byte>, p: nat)
    requires At(s, p, BulkFrame(b))
    ensures var q := p + 1 + |Itoa(|b|)| + 2;
      && p < |s| && s[p] == BulkByte && At(s, p + 1, Itoa(|b|) + CRLF)
      && At(s, q, b) && At(s, q + |b|, CRLF) && p + |BulkFrame(b)| == q + |b| + 2
  {
    var d := Itoa(|b|);
    assert BulkFrame(b) == [BulkByte] + d + CRLF + (b + CRLF);
    HeaderParts(s, p, BulkByte, d, b + CRLF);
    AtSplit(s, p + 1 + |d| + 2, b, CRLF);
  }

  /** What the reader calls of `readBulk` return on the pieces of a bulk
      frame: the length line, the payload, and an empty line. */
  lemma BulkFrameReads(b: seq<byte>, s: seq<byte>, p: nat) returns (q: nat)
    requires |b| < 0x8000_0000_0000_0000 && At(s, p, BulkFrame(b))
    ensures p < |s| && s[p] == BulkByte && q + |b| + 2 <= |s|
    ensures IntegerAt(s, p + 1) == Step(Success(|b|), q)
    ensures FullAt(s, q, |b|) == Step(Success(b), q + |b|)
    ensures LineAt(s, q + |b|).next == q + |b| + 2
    ensures p + |BulkFrame(b)| == q + |b| + 2
  {
    q := p + 1 + |Itoa(|b|)| + 2;
    BulkLengthRead(b, s, p);
    BulkPayloadRead(b, s, p);
    BulkTrailerRead(b, s, p);
  }

  /** The length line of a bulk frame is read as the payload's length. */
  lemma BulkLengthRead(b: seq<byte>, s: seq<byte>, p: nat)
    requires |b| < 0x8000_0000_0000_0000 && At(s, p, BulkFrame(b))
    ensures p < |s| && s[p] == BulkByte && p + |BulkFrame(b)| == p + 1 + |Itoa(|b|)| + 2 + |b| + 2
    ensures IntegerAt(s, p + 1) == Step(Success(|b|), p + 1 + |Itoa(|b|)| + 2)
  {
    BulkFrameParts(b, s, p);
    AtSlice(s, p + 1, Itoa(|b|) + CRLF);
    IntegerAtFrame(s, p + 1, |b|);
  }

  /** The payload of a bulk frame is read whole by `io.ReadFull`. */
  lemma BulkPayloadRead(b: seq<byte>, s: seq<byte>, p: nat)
    requires At(s, p, BulkFrame(b))
    ensures p + 1 + |Itoa(|b|)| + 2 + |b| + 2 <= |s|
    ensures FullAt(s, p + 1 + |Itoa(|b|)| + 2, |b|) == Step(Success(b), p + 1 + |Itoa(|b|)| + 2 + |b|)
  {
    BulkFrameParts(b, s, p);
    FullAtFrame(s, p + 1 + |Itoa(|b|)| + 2, b);
  }

  /** The CR LF after a bulk frame's payload is read as an empty line. */
  lemma BulkTrailerRead(b: seq<byte>, s: seq<byte>, p: nat)
    requires At(s, p, BulkFrame(b))
    ensures p + 1 + |Itoa(|b|)| + 2 + |b| + 2 <= |s|
    ensures LineAt(s, p + 1 + |Itoa(|b|)| + 2 + |b|) == Step(Success([]), p + 1 + |Itoa(|b|)| + 2 + |b| + 2)
  {
    BulkFrameParts(b, s, p);
    EmptyLineAt(s, p + 1 + |Itoa(|b|)| + 2 + |b|);
  }

  /** `readLine` of a bare CR LF. */
  lemma EmptyLineAt(s: seq<byte>, p: nat)
    requires At(s, p, CRLF)
    ensures LineAt(s, p) == Step(Success([]), p + 2)
  {
    var none: seq<byte> := [];
    assert none + CRLF == CRLF;
    AtSlice(s, p, CRLF);
    LineAtFrame(s, p, none);
  }

  /** `io.ReadFull` of |b| bytes where b sits. */
  lemma FullAtFrame(s: seq<byte>, q: nat, b: seq<byte>)
    requires At(s, q, b)
    ensures FullAt(s, q, |b|) == Step(Success(b), q + |b|)
  {
    AtSlice(s, q, b);
  }

  /** `readBulk` of a length line for b, then b, then a line. */
  lemma DecodeBulkParts(b: seq<byte>, s: seq<byte>, p: nat, q: nat, r: nat)
    requires |b| < 0x8000_0000_0000_0000 && p <= |s| && q + |b| <= |s|
    requires IntegerAt(s, p) == Step(Success(|b|), q)
    requires FullAt(s, q, |b|) == Step(Success(b), q + |b|)
    requires LineAt(s, q + |b|).next == r
    ensures BulkAt(s, p) == Step(Success(BulkValue(b)), r)
  {
    assert IntegerAt(s, p).out.value == |b|;
  }

  /** The frames of a client's words, one bulk frame per word. */
  function BulkFrames(words: seq<seq<byte>>): (fs: seq<seq<byte>>)
    ensures |fs| == |words|
  {
    seq(|words|, i requires 0 <= i < |words| => BulkFrame(words[i]))
  }

  /** How a RESP client sends a command: an array of bulk strings. */
  function RequestFrame(words: seq<seq<byte>>): seq<byte> {
    [ArrayByte] + Itoa(|words|) + CRLF + Flatten(BulkFrames(words))
  }

  /** The bulk values of a list of words. */
  function Bulks(words: seq<seq<byte>>): (vs: seq<Value>)
    ensures |vs| == |words|
  {
    seq(|words|, i requires 0 <= i < |words| => BulkValue(words[i]))
  }

  /** The value the decoder makes of a command. */
  function Request(words: seq<seq<byte>>): Value {
    Value("array", [], 0, [], Bulks(words))
  }

  /** Words small enough for their counts to be int64 values. */
  predicate Framable(words: seq<seq<byte>>) {
    |words| < 0x8000_0000_0000_0000 && forall i :: 0 <= i < |words| ==> |words[i]| < 0x8000_0000_0000_0000
  }

  /** The bulk frames of a client's words, sitting at cursor q, are read one
      after another as the words' bulk values. */
  lemma DecodeFrames(words: seq<seq<byte>>, s: seq<byte>, q: nat) returns (cuts: seq<nat>)
    requires Framable(words) && At(s, q, Flatten(BulkFrames(words)))
    ensures |cuts| == |words| + 1 && cuts[0] == q && cuts[|words|] == q + |Flatten(BulkFrames(words))|
    ensures forall i :: 0 <= i <= |words| ==> cuts[i] <= |s|
    ensures forall i :: 0 <= i < |words| ==> ValueAt(s, cuts[i]) == Step(Success(Bulks(words)[i]), cuts[i + 1])
  {
    var frames := BulkFrames(words);
    cuts := FlattenCuts(frames, s, q);
    forall i | 0 <= i < |words|
      ensures ValueAt(s, cuts[i]) == Step(Success(Bulks(words)[i]), cuts[i + 1])
    {
      assert frames[i] == BulkFrame(words[i]);
      DecodeBulkFrame(words[i], s, cuts[i], cuts[i + 1]);
    }
  }

  /** A client's command frame, wherever it sits in the input, is read as an
      "array" of "bulk" values holding the words, and consumed exactly. */
  lemma DecodeRequest(words: seq<seq<byte>>, s: seq<byte>, p: nat)
    requires Framable(words) && At(s, p, RequestFrame(words))
    ensures ValueAt(s, p) == Step(Success(Request(words)), p + |RequestFrame(words)|)
  {
    var n := |words|;
    var vs := Bulks(words);
    var q := ArrayHeader(s, p, n, Flatten(BulkFrames(words)));
    var cuts := DecodeFrames(words, s, q);
    DecodeArrayParts(s, p, q, vs, cuts);
  }
}
