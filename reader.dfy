/** The RESP decoder of app/resp.go: `readLine`, `readInteger`, `readArray`,
    `readBulk` and `Read`, and the marshal-error check of `Write`.

    The connection's read half is a byte sequence `input` and a cursor into it
    (what `bufio.Reader` has handed out so far). Each Go reader method has a
    specification function `XxxAt(s, p)` giving its outcome and the cursor it
    leaves when started at cursor p; the methods of class `Resp` advance the
    cursor step by step and are proved to agree with them. */
module RespReader {
  import opened Bytes
  import opened Wrappers
  import opened Strconv
  import opened RespValue

  /** The error values the decoder returns. */
  datatype ReadError =
    | EOF                // io.EOF: the input ended where a type byte, a line or a payload was due
    | UnexpectedEOF      // io.ErrUnexpectedEOF: a bulk payload was cut short after some bytes
    | InvalidLineEnding  // "invalid line ending": the line before LF is empty or the byte before LF is not CR
    | InvalidInteger     // strconv.ParseInt failed (its syntax and range errors are merged)

  /** What a reader call yields: a value with a nil error, an error, or a Go
      runtime panic (`make` with a negative size), which ends the process. */
  datatype Outcome<+T> = Success(value: T) | Failure(error: ReadError) | Panic

  /** An outcome and the cursor the reader is left at. */
  datatype Step<+T> = Step(out: Outcome<T>, next: nat)

  /** Passes an error or a panic on, at another result type. */
  function Forward<T, U>(o: Outcome<T>): (r: Outcome<U>)
    requires !o.Success?
    ensures r.Failure? <==> o.Failure?
    ensures o.Failure? ==> r.error == o.error
    ensures o.Panic? ==> r.Panic?
  {
    if o.Failure? then Failure(o.error) else Panic
  }

  /** The index of the first LF at or after p, or |s| when there is none. */
  function FindLF(s: seq<byte>, p: nat): (k: nat)
    requires p <= |s|
    decreases |s| - p
    ensures p <= k <= |s|
    ensures k < |s| ==> s[k] == LF
  {
    if p == |s| || s[p] == LF then p else FindLF(s, p + 1)
  }

  /** `bufio.Reader.ReadString('\n')`: the bytes through the first LF. With no
      LF left, everything up to the end is consumed and the error is EOF. */
  function StringAt(s: seq<byte>, p: nat): (st: Step<seq<byte>>)
    requires p <= |s|
    ensures p <= st.next <= |s| && !st.out.Panic?
  {
    var k := FindLF(s, p);
    if k < |s| then Step(Success(s[p..k + 1]), k + 1) else Step(Failure(EOF), |s|)
  }

  /** `readLine` (app/resp.go:91-100): the line through LF must be at least two
      bytes long and end in CR LF; the result is the line without them. */
  function LineAt(s: seq<byte>, p: nat): (st: Step<seq<byte>>)
    requires p <= |s|
    ensures p <= st.next <= |s| && !st.out.Panic?
    ensures st.out.Success? ==> p + 2 <= st.next
  {
    var str := StringAt(s, p);
    if !str.out.Success? then Step(Forward(str.out), str.next)
    else
      var line := str.out.value;
      if |line| < 2 || line[|line| - 2] != CR then Step(Failure(InvalidLineEnding), str.next)
      else Step(Success(line[..|line| - 2]), str.next)
  }

  /** `readInteger` (app/resp.go:102-114): a line parsed by ParseInt(…, 10, 64). */
  function IntegerAt(s: seq<byte>, p: nat): (st: Step<int64>)
    requires p <= |s|
    ensures p <= st.next <= |s| && !st.out.Panic?
    ensures st.out.Success? ==> p < st.next
  {
    var line := LineAt(s, p);
    if !line.out.Success? then Step(Forward(line.out), line.next)
    else match ParseInt(line.out.value)
      case Some(n) => Step(Success(n), line.next)
      case None => Step(Failure(InvalidInteger), line.next)
  }

  /** `io.ReadFull` of n bytes: all n, or an error that leaves the input drained
      (EOF when nothing was left, UnexpectedEOF when only part of it was). */
  function FullAt(s: seq<byte>, p: nat, n: nat): (st: Step<seq<byte>>)
    requires p <= |s|
    ensures p <= st.next <= |s|
  {
    if p + n <= |s| then Step(Success(s[p..p + n]), p + n)
    else if p == |s| then Step(Failure(EOF), p)
    else Step(Failure(UnexpectedEOF), |s|)
  }

  /** A decoded bulk string. */
  function BulkValue(payload: seq<byte>): Value {
    Value("bulk", [], 0, payload, [])
  }

  /** `readBulk` (app/resp.go:138-162), after the '$'. */
  function BulkAt(s: seq<byte>, p: nat): (st: Step<Value>)
    requires p <= |s|
    ensures p <= st.next <= |s|
  {
    var len := IntegerAt(s, p);
    if !len.out.Success? then Step(Forward(len.out), len.next)
    else if len.out.value == -1 then Step(Success(BulkValue([])), len.next)
    else if len.out.value < -1 then Step(Panic, len.next)
    else
      var payload := FullAt(s, len.next, len.out.value as int);
      if !payload.out.Success? then Step(Forward(payload.out), payload.next)
      else Step(Success(BulkValue(payload.out.value)), LineAt(s, payload.next).next)
  }

  /** `Read` (app/resp.go:164-189): one type byte selects the rule; a type byte
      it does not know gives the zero Value and no error. */
  function ValueAt(s: seq<byte>, p: nat): (st: Step<Value>)
    requires p <= |s|
    decreases |s| - p, 0
    ensures p <= st.next <= |s|
    ensures st.out.Success? ==> p < st.next
  {
    if p == |s| then Step(Failure(EOF), p)
    else
      var t := s[p];
      if t == ArrayByte then ArrayAt(s, p + 1)
      else if t == BulkByte then BulkAt(s, p + 1)
      else if t == StringByte || t == ErrorByte then
        var line := LineAt(s, p + 1);
        var typ := if t == StringByte then "string" else "error";
        Step(if line.out.Success? then Success(Value(typ, line.out.value, 0, [], [])) else Forward(line.out), line.next)
      else if t == IntegerByte then
        var n := IntegerAt(s, p + 1);
        Step(if n.out.Success? then Success(Value("integer", [], n.out.value, [], [])) else Forward(n.out), n.next)
      else
        Step(Success(ZeroValue), p + 1)
  }

  /** `readArray` (app/resp.go:116-136), after the '*': a count line, then that
      many values. A negative count panics in `make`. */
  function ArrayAt(s: seq<byte>, p: nat): (st: Step<Value>)
    requires p <= |s|
    decreases |s| - p, 2
    ensures p <= st.next <= |s|
  {
    var len := IntegerAt(s, p);
    if !len.out.Success? then Step(Forward(len.out), len.next)
    else if len.out.value < 0 then Step(Panic, len.next)
    else
      var items := ItemsFrom(s, len.next, len.out.value as nat, []);
      Step(if items.out.Success? then Success(Value("array", [], 0, [], items.out.value)) else Forward(items.out),
           items.next)
  }

  /** The loop of `readArray`: n more values read in order and appended to acc,
      stopping at the first error. */
  function ItemsFrom(s: seq<byte>, p: nat, n: nat, acc: seq<Value>): (st: Step<seq<Value>>)
    requires p <= |s|
    decreases |s| - p, 1
    ensures p <= st.next <= |s|
  {
    if n == 0 then Step(Success(acc), p)
    else
      var first := ValueAt(s, p);
      if !first.out.Success? then Step(Forward(first.out), first.next)
      else ItemsFrom(s, first.next, n - 1, acc + [first.out.value])
  }

  /** FindLF is the first index from p on that holds a LF, or the end. */
  lemma {:induction false} FindLFIs(s: seq<byte>, p: nat, k: nat)
    requires p <= k <= |s|
    requires forall j :: p <= j < k ==> s[j] != LF
    requires k == |s| || s[k] == LF
    ensures FindLF(s, p) == k
    decreases k - p
  {
    if p < k {
      FindLFIs(s, p + 1, k);
    }
  }

  /** No LF lies between p and FindLF(s, p). */
  lemma {:induction false} FindLFFirst(s: seq<byte>, p: nat)
    requires p <= |s|
    decreases |s| - p
    ensures forall j :: p <= j < FindLF(s, p) ==> s[j] != LF
  {
    if p < |s| && s[p] != LF {
      FindLFFirst(s, p + 1);
    }
  }

  /** `ReadString('\n')` returns the bytes through the first LF when there is
      one, and otherwise drains the input and reports EOF. */
  lemma StringAtSpec(s: seq<byte>, p: nat)
    requires p <= |s|
    ensures var st := StringAt(s, p);
      && (st.out.Success? <==> LF in s[p..])
      && (st.out.Success? ==>
            && st.out.value == s[p..st.next]
            && s[st.next - 1] == LF
            && LF !in s[p..st.next - 1])
      && (st.out.Failure? ==> st.out.error == EOF && st.next == |s|)
  {
    var k := FindLF(s, p);
    FindLFFirst(s, p);
    if k < |s| {
      assert s[p..][k - p] == LF;
      assert forall j :: 0 <= j < k - p ==> s[p..k][j] == s[p + j];
    } else {
      assert forall j :: 0 <= j < |s| - p ==> s[p..][j] == s[p + j];
    }
  }

  /** `readLine` succeeds exactly when a LF is found with at least one byte
      before it and that byte is CR. It then returns the bytes before the CR and
      consumes them and the CR LF. It always consumes what ReadString consumed. */
  lemma LineAtSpec(s: seq<byte>, p: nat)
    requires p <= |s|
    ensures var st, k := LineAt(s, p), FindLF(s, p);
      && st.next == StringAt(s, p).next
      && (st.out.Success? <==> k < |s| && p + 1 <= k && s[k - 1] == CR)
      && (st.out.Success? ==>
            && st.next == p + |st.out.value| + 2
            && s[p..st.next] == st.out.value + CRLF
            && LF !in st.out.value)
      && (st.out.Failure? ==> st.out.error == (if k < |s| then InvalidLineEnding else EOF))
  {
    StringAtSpec(s, p);
    var st := LineAt(s, p);
    if st.out.Success? {
      var line := StringAt(s, p).out.value;
      assert line == st.out.value + CRLF;
      assert st.out.value == s[p..st.next - 1][..|st.out.value|];
    }
  }

  /** A line with no LF in it, followed by CR LF, is read back by `readLine`
      whatever comes after it. */
  lemma LineAtFrame(s: seq<byte>, p: nat, line: seq<byte>)
    requires p + |line| + 2 <= |s| && s[p..p + |line| + 2] == line + CRLF
    requires LF !in line
    ensures LineAt(s, p) == Step(Success(line), p + |line| + 2)
  {
    var k := p + |line| + 1;
    assert s[k] == (line + CRLF)[|line| + 1] == LF;
    forall j | p <= j < k
      ensures s[j] != LF
    {
      assert s[j] == (line + CRLF)[j - p];
      if j - p < |line| {
        assert line[j - p] in line;
      }
    }
    FindLFIs(s, p, k);
    assert s[p..k + 1] == line + CRLF;
    assert (line + CRLF)[..|line|] == line;
  }

  /** `readInteger` succeeds exactly when `readLine` does and ParseInt accepts
      the line; its cursor is always where `readLine` left it. */
  lemma IntegerAtSpec(s: seq<byte>, p: nat)
    requires p <= |s|
    ensures var st, line := IntegerAt(s, p), LineAt(s, p);
      && st.next == line.next
      && (st.out.Success? <==> line.out.Success? && ParseInt(line.out.value).Some?)
      && (st.out.Success? ==> ParseInt(line.out.value) == Some(st.out.value))
      && (st.out.Failure? ==>
            st.out.error == (if line.out.Success? then InvalidInteger else line.out.error))
  {
  }

  /** The decimal rendering of an int64 followed by CR LF is read back by
      `readInteger`. */
  lemma IntegerAtFrame(s: seq<byte>, p: nat, n: int64)
    requires p + |Itoa(n)| + 2 <= |s| && s[p..p + |Itoa(n)| + 2] == Itoa(n) + CRLF
    ensures IntegerAt(s, p) == Step(Success(n), p + |Itoa(n)| + 2)
  {
    ItoaSpec(n);
    LineAtFrame(s, p, Itoa(n));
    ParseIntItoa(n);
  }

  /** `readBulk`: a failed length line is passed on; length -1 gives an empty
      "bulk" after the length line only; a length below -1 panics; otherwise
      the next L bytes are the payload whatever they hold (CR and LF included),
      a short read is an error (never a panic) that drains the input, and after
      the payload one more line is consumed with its outcome ignored. */
  lemma BulkAtSpec(s: seq<byte>, p: nat)
    requires p <= |s|
    ensures var len, st := IntegerAt(s, p), BulkAt(s, p);
      && (!len.out.Success? ==> st == Step(Forward(len.out), len.next))
      && (len.out == Success(-1) ==> st == Step(Success(BulkValue([])), len.next))
      && (len.out.Success? && len.out.value < -1 ==> st == Step(Panic, len.next))
      && (len.out.Success? && len.out.value >= 0 ==>
            var q, n := len.next, len.out.value as int;
            && (st.out.Success? <==> q + n <= |s|)
            && (st.out.Success? ==>
                  st.out.value == BulkValue(s[q..q + n]) && st.next == StringAt(s, q + n).next)
            && (!st.out.Success? ==>
                  && st.out.Failure? && st.next == |s|
                  && st.out.error == (if q == |s| then EOF else UnexpectedEOF)))
  {
    var len := IntegerAt(s, p);
    if len.out.Success? && len.out.value >= 0 {
      var q, n := len.next, len.out.value as int;
      if q + n <= |s| {
        assert FullAt(s, q, n) == Step(Success(s[q..q + n]), q + n);
        assert BulkAt(s, p).next == LineAt(s, q + n).next;
        assert LineAt(s, q + n).next == StringAt(s, q + n).next;
      }
    }
  }

  /** The values of a successful `ItemsFrom` are read one after another: there
      are cursors cuts[0] = p < … < cuts[n] = next such that the value read at
      cuts[i] is item i and ends at cuts[i + 1]. */
  lemma {:induction false} ItemsFromInOrder(s: seq<byte>, p: nat, n: nat, acc: seq<Value>)
    returns (cuts: seq<nat>)
    requires p <= |s| && ItemsFrom(s, p, n, acc).out.Success?
    decreases n
    ensures var st := ItemsFrom(s, p, n, acc);
      && |st.out.value| == |acc| + n && st.out.value[..|acc|] == acc
      && |cuts| == n + 1 && cuts[0] == p && cuts[n] == st.next
      && forall i :: 0 <= i < n ==>
           cuts[i] <= |s| && ValueAt(s, cuts[i]) == Step(Success(st.out.value[|acc| + i]), cuts[i + 1])
  {
    if n == 0 {
      cuts := [p];
    } else {
      var v, q := ItemsFromSucceeds(s, p, n, acc);
      var rest := ItemsFromInOrder(s, q, n - 1, acc + [v]);
      cuts := ConsCuts(s, p, v, acc, ItemsFrom(s, p, n, acc), rest, n - 1, n);
    }
  }

  /** One more value in front of values read in order: v read at p and
      ending at rest[0], then the rest as their cursors say. */
  lemma ConsCuts(s: seq<byte>, p: nat, v: Value, acc: seq<Value>, st: Step<seq<Value>>, rest: seq<nat>, m: nat, n: nat)
    returns (cuts: seq<nat>)
    requires n == m + 1 && p <= |s| && st.out.Success?
    requires |st.out.value| == |acc + [v]| + m && st.out.value[..|acc + [v]|] == acc + [v]
    requires |rest| == m + 1 && rest[m] == st.next
    requires ValueAt(s, p) == Step(Success(v), rest[0])
    requires forall i :: 0 <= i < m ==>
               rest[i] <= |s| && ValueAt(s, rest[i]) == Step(Success(st.out.value[|acc + [v]| + i]), rest[i + 1])
    ensures |st.out.value| == |acc| + n && st.out.value[..|acc|] == acc
    ensures |cuts| == n + 1 && cuts[0] == p && cuts[n] == st.next
    ensures forall i :: 0 <= i < n ==>
              cuts[i] <= |s| && ValueAt(s, cuts[i]) == Step(Success(st.out.value[|acc| + i]), cuts[i + 1])
  {
    var items := st.out.value;
    assert items[..|acc|] == items[..|acc + [v]|][..|acc|];
    assert items[|acc|] == items[..|acc + [v]|][|acc|];
    cuts := [p] + rest;
    forall i | 0 <= i < n
      ensures cuts[i] <= |s| && ValueAt(s, cuts[i]) == Step(Success(items[|acc| + i]), cuts[i + 1])
    {
      if i > 0 {
        var j := i - 1;
        assert cuts[i] == rest[j] && cuts[i + 1] == rest[j + 1] && |acc + [v]| + j == |acc| + i;
      }
    }
  }

  /** A successful `ItemsFrom` of at least one value read its first value
      successfully and went on after it. */
  lemma ItemsFromSucceeds(s: seq<byte>, p: nat, n: nat, acc: seq<Value>) returns (v: Value, q: nat)
    requires p <= |s| && n > 0 && ItemsFrom(s, p, n, acc).out.Success?
    ensures ValueAt(s, p) == Step(Success(v), q) && q <= |s|
    ensures ItemsFrom(s, p, n, acc) == ItemsFrom(s, q, n - 1, acc + [v])
  {
    ItemsFromStep(s, p, n, acc);
    v, q := ValueAt(s, p).out.value, ValueAt(s, p).next;
  }

  /** Conversely, values read one after another, the one at cuts[i] being
      vs[i] and ending at cuts[i + 1], make a successful `ItemsFrom` from
      cuts[k] that yields vs and ends at the last cut. */
  lemma {:induction false} ItemsFromCuts(s: seq<byte>, vs: seq<Value>, cuts: seq<nat>, k: nat)
    requires |cuts| == |vs| + 1 && k <= |vs|
    requires forall i :: 0 <= i <= |vs| ==> cuts[i] <= |s|
    requires forall i :: k <= i < |vs| ==> ValueAt(s, cuts[i]) == Step(Success(vs[i]), cuts[i + 1])
    decreases |vs| - k
    ensures ItemsFrom(s, cuts[k], |vs| - k, vs[..k]) == Step(Success(vs), cuts[|vs|])
  {
    if k == |vs| {
      assert vs[..k] == vs;
    } else {
      ItemsFromCuts(s, vs, cuts, k + 1);
      ItemsFromStep(s, cuts[k], |vs| - k, vs[..k]);
      assert vs[..k] + [vs[k]] == vs[..k + 1];
    }
  }

  /** A failed `ItemsFrom` failed at its first failing value: the first k < n
      values were read, up to cursor q, and the value at q fails in the same way. */
  lemma {:induction false} ItemsFromFirstError(s: seq<byte>, p: nat, n: nat, acc: seq<Value>)
    returns (k: nat, q: nat)
    requires p <= |s| && !ItemsFrom(s, p, n, acc).out.Success?
    decreases n
    ensures k < n && q <= |s|
    ensures ItemsFrom(s, p, k, acc).out.Success? && ItemsFrom(s, p, k, acc).next == q
    ensures !ValueAt(s, q).out.Success?
    ensures ItemsFrom(s, p, n, acc) == Step(Forward(ValueAt(s, q).out), ValueAt(s, q).next)
  {
    var first := ValueAt(s, p);
    if !first.out.Success? {
      k, q := 0, p;
    } else {
      var k', q' := ItemsFromFirstError(s, first.next, n - 1, acc + [first.out.value]);
      k, q := k' + 1, q';
      ItemsFromStep(s, p, n, acc);
      ItemsFromStep(s, p, k, acc);
    }
  }

  /** The shape of every value the decoder produces: the tag is one the decoder
      sets, or the empty tag of the zero value, and only the field of that tag
      may be non-zero. In particular no decoded value is a "null". */
  predicate Decoded(v: Value)
    decreases v
  {
    if v.typ == "string" || v.typ == "error" then
      v.num == 0 && v.bulk == [] && v.elems == [] && LF !in v.str
    else if v.typ == "integer" then
      v.str == [] && v.bulk == [] && v.elems == []
    else if v.typ == "bulk" then
      v.str == [] && v.num == 0 && v.elems == []
    else if v.typ == "array" then
      v.str == [] && v.num == 0 && v.bulk == [] && forall i :: 0 <= i < |v.elems| ==> Decoded(v.elems[i])
    else
      v == ZeroValue
  }

  /** Every value `Read` returns has the shape `Decoded` describes. */
  lemma {:induction false} ValueAtDecoded(s: seq<byte>, p: nat)
    requires p <= |s|
    decreases |s| - p, 0
    ensures ValueAt(s, p).out.Success? ==> Decoded(ValueAt(s, p).out.value)
  {
    if p < |s| {
      if s[p] == ArrayByte {
        var len := IntegerAt(s, p + 1);
        if len.out.Success? && len.out.value >= 0 {
          ItemsFromDecoded(s, len.next, len.out.value as nat, []);
        }
      } else if s[p] == StringByte || s[p] == ErrorByte {
        LineAtSpec(s, p + 1);
      }
    }
  }

  /** The values `readArray`'s loop appends all have the `Decoded` shape. */
  lemma {:induction false} ItemsFromDecoded(s: seq<byte>, p: nat, n: nat, acc: seq<Value>)
    requires p <= |s|
    requires forall i :: 0 <= i < |acc| ==> Decoded(acc[i])
    decreases |s| - p, 1
    ensures ItemsFrom(s, p, n, acc).out.Success? ==>
              forall i :: 0 <= i < |ItemsFrom(s, p, n, acc).out.value| ==> Decoded(ItemsFrom(s, p, n, acc).out.value[i])
  {
    if n > 0 {
      var first := ValueAt(s, p);
      if first.out.Success? {
        ValueAtDecoded(s, p);
        var acc' := acc + [first.out.value];
        assert forall i :: 0 <= i < |acc'| ==> Decoded(acc'[i]);
        ItemsFromDecoded(s, first.next, n - 1, acc');
      }
    }
  }

  /** `readArray` reads as many values as its count line says, in order, and
      gives them as the elements of an "array" whose other fields are zero;
      the first element's error or panic is what it returns; a negative count
      panics. */
  lemma ArrayAtSpec(s: seq<byte>, p: nat)
    requires p <= |s|
    ensures var len, st := IntegerAt(s, p), ArrayAt(s, p);
      && (!len.out.Success? ==> st == Step(Forward(len.out), len.next))
      && (len.out.Success? && len.out.value < 0 ==> st == Step(Panic, len.next))
      && (len.out.Success? && len.out.value >= 0 ==>
            var items := ItemsFrom(s, len.next, len.out.value as nat, []);
            && st.next == items.next
            && (st.out.Success? <==> items.out.Success?)
            && (!items.out.Success? ==> st.out == Forward(items.out))
            && (st.out.Success? ==>
                  st.out.value == Value("array", [], 0, [], items.out.value)
                  && |st.out.value.elems| == len.out.value))
  {
    var len := IntegerAt(s, p);
    if len.out.Success? && len.out.value >= 0 {
      var items := ItemsFrom(s, len.next, len.out.value as nat, []);
      if items.out.Success? {
        var _ := ItemsFromInOrder(s, len.next, len.out.value as nat, []);
      }
    }
  }

  /** A type byte `Read` has no case for is consumed alone and gives the zero
      Value with a nil error; at the end of the input `Read` reports EOF and
      consumes nothing. */
  lemma ValueAtUnknownType(s: seq<byte>, p: nat)
    requires p <= |s|
    ensures p == |s| ==> ValueAt(s, p) == Step(Failure(EOF), p)
    ensures p < |s| && s[p] !in {ArrayByte, BulkByte, StringByte, ErrorByte, IntegerByte} ==>
              ValueAt(s, p) == Step(Success(ZeroValue), p + 1)
  {
  }

  /** One turn of the `readArray` loop: read a value, then go on or stop. */
  lemma ItemsFromStep(s: seq<byte>, p: nat, n: nat, acc: seq<Value>)
    requires p <= |s| && n > 0
    ensures ItemsFrom(s, p, n, acc) ==
              var first := ValueAt(s, p);
              if first.out.Success? then ItemsFrom(s, first.next, n - 1, acc + [first.out.value])
              else Step(Forward(first.out), first.next)
  {
  }

  /** The Go struct `Resp`: a reader over the connection's input and a writer.
      `input` is everything the peer sends, `pos` how much of it has been read,
      `sent` everything written back so far. */
  class Resp {
    const input: seq<byte>
    var pos: nat
    var sent: seq<byte>

    ghost predicate Valid()
      reads this
    {
      pos <= |input|
    }

    /** `NewResp`: nothing read, nothing written. */
    constructor (input: seq<byte>)
      ensures Valid() && this.input == input && pos == 0 && sent == []
    {
      this.input := input;
      pos := 0;
      sent := [];
    }

    /** `bufio.Reader.ReadByte`. */
    method ReadByte() returns (r: Outcome<byte>)
      requires Valid()
      modifies this`pos
      ensures Valid()
      ensures old(pos) < |input| ==> r == Success(input[old(pos)]) && pos == old(pos) + 1
      ensures old(pos) == |input| ==> r == Failure(EOF) && pos == old(pos)
    {
      if pos == |input| {
        r := Failure(EOF);
      } else {
        r := Success(input[pos]);
        pos := pos + 1;
      }
    }

    /** `bufio.Reader.ReadString('\n')`: scans for the first LF. */
    method ReadString() returns (r: Outcome<seq<byte>>)
      requires Valid()
      modifies this`pos
      ensures Valid() && Step(r, pos) == StringAt(input, old(pos))
    {
      var k := pos;
      while k < |input| && input[k] != LF
        invariant pos <= k <= |input|
        invariant forall j :: pos <= j < k ==> input[j] != LF
      {
        k := k + 1;
      }
      FindLFIs(input, pos, k);
      if k < |input| {
        r := Success(input[pos..k + 1]);
        pos := k + 1;
      } else {
        r := Failure(EOF);
        pos := |input|;
      }
    }

    /** `io.ReadFull(r.reader, buf)` with `len(buf) == n`. */
    method ReadFull(n: nat) returns (r: Outcome<seq<byte>>)
      requires Valid()
      modifies this`pos
      ensures Valid() && Step(r, pos) == FullAt(input, old(pos), n)
    {
      if pos + n <= |input| {
        r := Success(input[pos..pos + n]);
        pos := pos + n;
      } else if pos == |input| {
        r := Failure(EOF);
      } else {
        r := Failure(UnexpectedEOF);
        pos := |input|;
      }
    }

    /** `readLine` (app/resp.go:91-100); n is the length of the line with its CR LF. */
    method ReadLine() returns (r: Outcome<seq<byte>>, n: nat)
      requires Valid()
      modifies this`pos
      ensures Valid() && Step(r, pos) == LineAt(input, old(pos))
      ensures r.Success? ==> n == |r.value| + 2 == pos - old(pos)
      ensures !r.Success? ==> n == 0
    {
      var str := ReadString();
      if !str.Success? {
        return Forward(str), 0;
      }
      var line := str.value;
      if |line| < 2 || line[|line| - 2] != CR {
        return Failure(InvalidLineEnding), 0;
      }
      r, n := Success(line[..|line| - 2]), |line|;
    }

    /** `readInteger` (app/resp.go:102-114); n is the length of the line read. */
    method ReadInteger() returns (r: Outcome<int64>, n: nat)
      requires Valid()
      modifies this`pos
      ensures Valid() && Step(r, pos) == IntegerAt(input, old(pos))
      ensures LineAt(input, old(pos)).out.Success? ==> n == pos - old(pos)
      ensures !LineAt(input, old(pos)).out.Success? ==> n == 0
    {
      var line;
      line, n := ReadLine();
      if !line.Success? {
        return Forward(line), 0;
      }
      match ParseInt(line.value)
      case Some(x) => r := Success(x);
      case None => r := Failure(InvalidInteger);
    }

    /** `readArray` (app/resp.go:116-136). */
    method ReadArray() returns (r: Outcome<Value>)
      requires Valid()
      modifies this`pos
      decreases |input| - pos, 1
      ensures Valid() && Step(r, pos) == ArrayAt(input, old(pos))
    {
      var len, _ := ReadInteger();
      if !len.Success? {
        return Forward(len);
      }
      var arrayLength := len.value;
      if arrayLength < 0 {
        return Panic;  // make([]Value, 0, arrayLength) panics on a negative capacity
      }
      ghost var goal := ItemsFrom(input, pos, arrayLength as nat, []);
      var items: seq<Value> := [];
      var i := 0;
      while i < arrayLength
        invariant Valid() && i <= arrayLength
        invariant old(pos) < pos
        invariant ItemsFrom(input, pos, (arrayLength - i) as nat, items) == goal
      {
        ghost var before := pos;
        var v := Read();
        ItemsFromStep(input, before, (arrayLength - i) as nat, items);
        if !v.Success? {
          return Forward(v);
        }
        items := items + [v.value];
        i := i + 1;
      }
      r := Success(Value("array", [], 0, [], items));
    }

    /** `readBulk` (app/resp.go:138-162). */
    method ReadBulk() returns (r: Outcome<Value>)
      requires Valid()
      modifies this`pos
      ensures Valid() && Step(r, pos) == BulkAt(input, old(pos))
    {
      var len, _ := ReadInteger();
      if !len.Success? {
        return Forward(len);
      }
      var bulkLength := len.value;
      if bulkLength == -1 {
        return Success(BulkValue([]));
      }
      if bulkLength < -1 {
        return Panic;  // make([]byte, bulkLength) panics on a negative size
      }
      var payload := ReadFull(bulkLength as nat);
      if !payload.Success? {
        return Forward(payload);
      }
      var _, _ := ReadLine();  // the trailing CR LF; whatever it returns is dropped
      r := Success(BulkValue(payload.value));
    }

    /** `Read` (app/resp.go:164-189). */
    method Read() returns (r: Outcome<Value>)
      requires Valid()
      modifies this`pos
      decreases |input| - pos, 0
      ensures Valid() && Step(r, pos) == ValueAt(input, old(pos))
    {
      var t := ReadByte();
      if !t.Success? {
        return Forward(t);
      }
      if t.value == ArrayByte {
        r := ReadArray();
      } else if t.value == BulkByte {
        r := ReadBulk();
      } else if t.value == StringByte || t.value == ErrorByte {
        var line, _ := ReadLine();
        var typ := if t.value == StringByte then "string" else "error";
        r := if line.Success? then Success(Value(typ, line.value, 0, [], [])) else Forward(line);
      } else if t.value == IntegerByte {
        var num, _ := ReadInteger();
        r := if num.Success? then Success(Value("integer", [], num.value, [], [])) else Forward(num);
      } else {
        r := Success(ZeroValue);
      }
    }

    /** `Write` (app/resp.go:192-204): a value Marshal rejects is not written and
        its error is returned; otherwise its bytes are appended to what was sent.
        The transport's own write error is not modelled. */
    method Write(val: Value) returns (err: Option<EncodeError>)
      modifies this`sent
      ensures Marshal(val).Ok? ==> err == None && sent == old(sent) + Marshal(val).value
      ensures Marshal(val).Fail? ==> err == Some(Marshal(val).error) && sent == old(sent)
    {
      var bytes := Marshal(val);
      if bytes.Fail? {
        return Some(bytes.error);
      }
      sent := sent + bytes.value;
      err := None;
    }
  }
}
