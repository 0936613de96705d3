/** The request loop of `HandleClient` (app/main.go:51-94) on one connection. */
module Server {
  import opened Wrappers
  import opened Bytes
  import opened Strconv
  import opened RespValue
  import opened RespReader
  import opened Handler
  import opened RoundTrip

  /** The reply `HandleClient` computes for a decoded request (app/main.go:68-86):
      none unless the value is a non-empty array whose first element's `bulk`
      field, upper-cased, names a handler; then that handler applied to the
      other elements. The first element's `bulk` field is read whatever its
      type. */
  function Respond(val: Value): (r: Option<Value>)
    ensures r.Some? ==> Marshal(r.value).Ok?
  {
    if val.typ != "array" || |val.elems| == 0 then None
    else
      var command := ToUpper(val.elems[0].bulk);
      if command !in Handlers then None
      else
        HandlersReplyMarshals(command, val.elems[1..]);
        Some(Handlers[command](val.elems[1..]))
  }

  /** The bytes written back for a decoded request: its reply's encoding,
      or nothing when there is no reply or Marshal rejects it. */
  function Reply(val: Value): (b: seq<byte>)
    ensures b == [] <==> Respond(val).None?
    ensures Respond(val).Some? ==> Marshal(Respond(val).value) == Ok(b)
    ensures b == [] || EndsWithCRLF(b)
  {
    match Respond(val)
    case None => []
    case Some(r) => if Marshal(r).Ok? then Marshal(r).value else []
  }

  /** One turn of the loop: where the cursor ends, the bytes written, and
      whether the process panicked. */
  datatype Turn = Turn(next: nat, written: seq<byte>, crashed: bool)

  /** One turn from cursor p (app/main.go:61-91): a read that fails is
      skipped, a panic ends the process, and a decoded request gets its reply. */
  function ServeAt(s: seq<byte>, p: nat): (t: Turn)
    requires p <= |s|
    ensures p <= t.next <= |s|
  {
    var st := ValueAt(s, p);
    Turn(st.next, if st.out.Success? then Reply(st.out.value) else [], st.out.Panic?)
  }

  /** Everything written back for the input from cursor p on, and whether the
      process panicked on the way. */
  datatype Transcript = Transcript(sent: seq<byte>, crashed: bool)

  /** Every read from a cursor before the end consumes at least the type byte. */
  lemma ValueAtProgress(s: seq<byte>, p: nat)
    requires p < |s|
    ensures p < ValueAt(s, p).next
  {
  }

  /** The turns of the loop from cursor p until the input is used up or a
      panic ends the process. */
  function SessionFrom(s: seq<byte>, p: nat): Transcript
    requires p <= |s|
    decreases |s| - p
  {
    if p == |s| then Transcript([], false)
    else
      var t := ServeAt(s, p);
      if t.crashed then Transcript([], true)
      else
        ValueAtProgress(s, p);
        var rest := SessionFrom(s, t.next);
        Transcript(t.written + rest.sent, rest.crashed)
  }

  /** One turn of `SessionFrom`. */
  lemma SessionFromStep(s: seq<byte>, p: nat)
    requires p < |s|
    ensures var t := ServeAt(s, p);
      && p < t.next
      && SessionFrom(s, p) ==
           if t.crashed then Transcript([], true)
           else Transcript(t.written + SessionFrom(s, t.next).sent, SessionFrom(s, t.next).crashed)
  {
    ValueAtProgress(s, p);
  }

  /** Concatenation of byte strings is associative. */
  lemma Associative(a: seq<byte>, b: seq<byte>, c: seq<byte>)
    ensures (a + b) + c == a + (b + c)
  {
  }

  /** `HandleClient`'s loop (app/main.go:60-93). The Go loop never ends by
      itself: once the input is used up every turn reads EOF, consumes nothing
      and writes nothing (`ServeAtEnd`), so the model stops there; it also
      stops at a panic, which ends the Go process. */
  method HandleClient(conn: Resp) returns (crashed: bool)
    requires conn.Valid()
    modifies conn
    ensures conn.Valid()
    ensures conn.sent == old(conn.sent) + SessionFrom(conn.input, old(conn.pos)).sent
    ensures crashed == SessionFrom(conn.input, old(conn.pos)).crashed
    ensures !crashed ==> conn.pos == |conn.input|
  {
    ghost var goal := SessionFrom(conn.input, conn.pos);
    ghost var rest := goal;
    crashed := false;
    while conn.pos < |conn.input| && !crashed
      invariant conn.Valid()
      invariant conn.sent + rest.sent == old(conn.sent) + goal.sent && rest.crashed == goal.crashed
      invariant !crashed ==> rest == SessionFrom(conn.input, conn.pos)
      invariant crashed ==> rest == Transcript([], true)
      decreases |conn.input| - conn.pos
    {
      ghost var before := conn.pos;
      ghost var sentBefore := conn.sent;
      var val := conn.Read();
      SessionFromStep(conn.input, before);
      if val.Panic? {
        crashed := true;  // a negative length reached `make`
        rest := Transcript([], true);
      } else {
        ghost var written := if val.Success? then Reply(val.value) else [];
        if val.Success? {
          DispatchReply(val.value);
        }
        if val.Success? && val.value.typ == "array" && |val.value.elems| > 0 {
          var command := ToUpper(val.value.elems[0].bulk);
          if command in Handlers {
            var response := Handlers[command](val.value.elems[1..]);
            var _ := conn.Write(response);
          }
        }
        assert conn.sent == sentBefore + written;
        assert written == ServeAt(conn.input, before).written;
        rest := SessionFrom(conn.input, conn.pos);
        Associative(sentBefore, written, rest.sent);
      }
    }
  }

  /** The bytes written for a decoded request, branch by branch as the loop
      body takes them: the handler's reply marshalled when the request is a
      non-empty array naming a handler, and nothing otherwise. */
  lemma DispatchReply(v: Value)
    ensures v.typ == "array" && |v.elems| > 0 && ToUpper(v.elems[0].bulk) in Handlers ==>
              var r := Handlers[ToUpper(v.elems[0].bulk)](v.elems[1..]);
              Marshal(r).Ok? && Reply(v) == Marshal(r).value
    ensures !(v.typ == "array" && |v.elems| > 0 && ToUpper(v.elems[0].bulk) in Handlers) ==> Reply(v) == []
  {
  }

  /** At the end of the input a turn reads EOF, consumes nothing and writes
      nothing: from there on the Go loop spins without effect. */
  lemma ServeAtEnd(s: seq<byte>)
    ensures ServeAt(s, |s|) == Turn(|s|, [], false)
  {
  }

  /** A request gets a reply exactly when it is a non-empty array whose first
      element's `bulk`, upper-cased, is PING or ECHO; PING's reply is the
      string PONG and ECHO's the array of the other elements. */
  lemma RespondSpec(val: Value)
    ensures var r := Respond(val);
      && (r.Some? <==>
            val.typ == "array" && |val.elems| > 0 && ToUpper(val.elems[0].bulk) in {Ascii("PING"), Ascii("ECHO")})
      && (r.Some? && ToUpper(val.elems[0].bulk) == Ascii("PING") ==> r.value == Ping(val.elems[1..]))
      && (r.Some? && ToUpper(val.elems[0].bulk) == Ascii("ECHO") ==> r.value == Echo(val.elems[1..]))
  {
    HandlersTable();
  }

  /** Commands are case-insensitive: two requests whose command names agree
      after upper-casing and whose arguments agree get the same reply. */
  lemma RespondCaseInsensitive(v: Value, w: Value)
    requires v.typ == w.typ == "array" && |v.elems| > 0 && |w.elems| > 0
    requires ToUpper(v.elems[0].bulk) == ToUpper(w.elems[0].bulk) && v.elems[1..] == w.elems[1..]
    ensures Respond(v) == Respond(w)
  {
  }

  /** Every reply marshals, so the bytes written are exactly its encoding and
      `Write`'s marshal-error path is never taken. */
  lemma ReplyMarshals(val: Value)
    ensures Respond(val).Some? ==> Marshal(Respond(val).value).Ok? && Reply(val) == Marshal(Respond(val).value).value
    ensures Respond(val).None? ==> Reply(val) == []
  {
    if Respond(val).Some? {
      HandlersReplyMarshals(ToUpper(val.elems[0].bulk), val.elems[1..]);
    }
  }

  /** A first element that is not a bulk string names no command: its `bulk`
      field is empty, and so is its upper-cased form. Requests such as
      `*1\r\n+PING\r\n` are ignored. */
  lemma NonBulkCommandIgnored(val: Value)
    requires val.typ == "array" && |val.elems| > 0 && Decoded(val.elems[0]) && val.elems[0].typ != "bulk"
    ensures Respond(val) == None
  {
    HandlersTable();
    assert ToUpper(val.elems[0].bulk) == [];
  }

  /** A client's command frame at cursor p is consumed whole in one turn and
      answered with the reply to its words. */
  lemma ServeRequest(words: seq<seq<byte>>, s: seq<byte>, p: nat, r: nat)
    requires Framable(words) && At(s, p, RequestFrame(words)) && r == p + |RequestFrame(words)|
    ensures ServeAt(s, p) == Turn(r, Reply(Request(words)), false)
  {
    DecodeRequest(words, s, p);
  }

  /** Commands sent back to back, one frame after another. */
  function Pipelined(reqs: seq<seq<seq<byte>>>): seq<byte> {
    if reqs == [] then [] else RequestFrame(reqs[0]) + Pipelined(reqs[1..])
  }

  /** Their replies, one after another. */
  function Replies(reqs: seq<seq<seq<byte>>>): seq<byte> {
    if reqs == [] then [] else Reply(Request(reqs[0])) + Replies(reqs[1..])
  }

  /** Pipelined commands that make up the rest of the input are answered in
      order, and nothing else is written. */
  lemma {:induction false} SessionPipelined(reqs: seq<seq<seq<byte>>>, s: seq<byte>, p: nat)
    requires forall i :: 0 <= i < |reqs| ==> Framable(reqs[i])
    requires At(s, p, Pipelined(reqs)) && p + |Pipelined(reqs)| == |s|
    decreases |reqs|
    ensures SessionFrom(s, p) == Transcript(Replies(reqs), false)
  {
    if reqs != [] {
      var q := PipelinedStep(reqs, s, p);
      SessionFromStep(s, p);
      assert forall i :: 0 <= i < |reqs[1..]| ==> reqs[1..][i] == reqs[i + 1];
      SessionPipelined(reqs[1..], s, q);
    }
  }

  /** The first of pipelined commands is served in one turn, which ends where
      the next one starts. */
  lemma PipelinedStep(reqs: seq<seq<seq<byte>>>, s: seq<byte>, p: nat) returns (q: nat)
    requires reqs != [] && Framable(reqs[0])
    requires At(s, p, Pipelined(reqs)) && p + |Pipelined(reqs)| == |s|
    ensures p < |s| && ServeAt(s, p) == Turn(q, Reply(Request(reqs[0])), false)
    ensures At(s, q, Pipelined(reqs[1..])) && q + |Pipelined(reqs[1..])| == |s|
  {
    var first, rest := RequestFrame(reqs[0]), Pipelined(reqs[1..]);
    AtSplit(s, p, first, rest);
    q := p + |first|;
    ServeRequest(reqs[0], s, p, q);
  }

  /** The whole conversation: a client that sends pipelined commands and then
      closes gets their replies in order, and the server does not crash. */
  lemma PipelinedSession(reqs: seq<seq<seq<byte>>>)
    requires forall i :: 0 <= i < |reqs| ==> Framable(reqs[i])
    ensures SessionFrom(Pipelined(reqs), 0) == Transcript(Replies(reqs), false)
  {
    var s := Pipelined(reqs);
    AtWhole(s);
    SessionPipelined(reqs, s, 0);
  }

  /** What a client's command gets back: `+PONG\r\n` for PING, the encoding
      of its other words as an array for ECHO, in any letter case, and nothing
      for any other command or an empty array. */
  lemma RequestReply(words: seq<seq<byte>>)
    ensures |words| > 0 && ToUpper(words[0]) == Ascii("PING") ==> Reply(Request(words)) == Ascii("+PONG\r\n")
    ensures |words| > 0 && ToUpper(words[0]) == Ascii("ECHO") ==>
              Reply(Request(words)) == Marshal(Echo(Bulks(words)[1..])).value
    ensures |words| == 0 || ToUpper(words[0]) !in {Ascii("PING"), Ascii("ECHO")} ==> Reply(Request(words)) == []
  {
    var v := Request(words);
    if |words| > 0 {
      assert v.elems[0].bulk == words[0];
      PingReply(v.elems[1..]);
    }
    RespondSpec(v);
    ReplyMarshals(v);
  }

  /** ECHO answers words with '*', their count, CR LF, then each word as the
      encoder writes a bulk string (which has no CR LF after its length). */
  lemma EchoBulksReply(words: seq<seq<byte>>)
    ensures Marshal(Echo(Bulks(words))) ==
      Ok([ArrayByte] + Itoa(|words|) + CRLF + Flatten(seq(|words|, i requires 0 <= i < |words| => MarshalBulk(BulkValue(words[i])))))
  {
    var args := Bulks(words);
    EchoReply(args);
    var bulks := seq(|words|, i requires 0 <= i < |words| => MarshalBulk(BulkValue(words[i])));
    forall i | 0 <= i < |words|
      ensures Chunks(Echo(args), 0)[i] == bulks[i]
    {
      MarshalBulkShape(args[i]);
    }
    assert Chunks(Echo(args), 0) == bulks;
  }

  /** A connection that carries one command and closes. */
  lemma OneRequestSession(words: seq<seq<byte>>)
    requires Framable(words)
    ensures SessionFrom(RequestFrame(words), 0) == Transcript(Reply(Request(words)), false)
  {
    var s := RequestFrame(words);
    AtWhole(s);
    ServeRequest(words, s, 0, |s|);
    SessionFromStep(s, 0);
    assert Reply(Request(words)) + [] == Reply(Request(words));
  }

  /** Two concatenated pieces. */
  lemma FlattenTwo(a: seq<byte>, b: seq<byte>)
    ensures Flatten([a, b]) == a + b
  {
    assert [a, b][1..] == [b];
    assert [b][1..] == [];
    assert Flatten([b]) == b + Flatten([]);
    assert b + [] == b;
  }

  /** The frame of a one-word command. */
  lemma RequestFrameOne(a: seq<byte>)
    requires |a| < 0x8000_0000_0000_0000
    ensures RequestFrame([a]) == [ArrayByte, 49] + CRLF + BulkFrame(a)
  {
    assert Itoa(1) == [49];
    assert BulkFrames([a]) == [BulkFrame(a)];
    assert [BulkFrame(a)][1..] == [];
    var f := BulkFrame(a);
    assert Flatten([f]) == f + Flatten([]);
    assert f + [] == f;
    assert [ArrayByte] + Itoa(1) == [ArrayByte, 49];
  }

  /** The frame of a two-word command. */
  lemma RequestFrameTwo(a: seq<byte>, b: seq<byte>)
    requires |a| < 0x8000_0000_0000_0000 && |b| < 0x8000_0000_0000_0000
    ensures RequestFrame([a, b]) == [ArrayByte, 50] + CRLF + (BulkFrame(a) + BulkFrame(b))
  {
    assert Itoa(2) == [50];
    assert BulkFrames([a, b]) == [BulkFrame(a), BulkFrame(b)];
    FlattenTwo(BulkFrame(a), BulkFrame(b));
  }

  /** The header of a one-element array. */
  lemma OneHeader()
    ensures Ascii("*1\r\n") == [ArrayByte, 49] + CRLF
  {
  }

  /** The header of a two-element array. */
  lemma TwoHeader()
    ensures Ascii("*2\r\n") == [ArrayByte, 50] + CRLF
  {
  }

  /** The wire form of PING in lower case. */
  lemma PingFrame(s: seq<byte>)
    requires s == Ascii("*1\r\n$4\r\nping\r\n")
    ensures s == RequestFrame([Ascii("ping")])
  {
    RequestFrameOne(Ascii("ping"));
    assert Itoa(4) == [52];
  }

  /** `*1\r\n$4\r\nping\r\n` is answered with `+PONG\r\n`. */
  lemma PingSession(s: seq<byte>)
    requires s == Ascii("*1\r\n$4\r\nping\r\n")
    ensures SessionFrom(s, 0) == Transcript(Ascii("+PONG\r\n"), false)
  {
    var ping := Ascii("ping");
    PingFrame(s);
    assert ToUpper(ping) == Ascii("PING");
    OneRequestSession([ping]);
    RequestReply([ping]);
  }

  /** The frame of the word ECHO. */
  lemma EchoWord(w: seq<byte>)
    requires w == Ascii("ECHO")
    ensures BulkFrame(w) == Ascii("$4\r\nECHO\r\n")
  {
    assert Itoa(4) == [52];
  }

  /** The frame of the word hello. */
  lemma HelloWord(w: seq<byte>)
    requires w == Ascii("hello")
    ensures BulkFrame(w) == Ascii("$5\r\nhello\r\n")
  {
    assert Itoa(5) == [53];
  }

  /** The ECHO hello request literal, split into header and word frames. */
  lemma EchoLiteral()
    ensures Ascii("*2\r\n$4\r\nECHO\r\n$5\r\nhello\r\n") == Ascii("*2\r\n") + (Ascii("$4\r\nECHO\r\n") + Ascii("$5\r\nhello\r\n"))
  {
    assert "*2\r\n$4\r\nECHO\r\n$5\r\nhello\r\n" == "*2\r\n" + ("$4\r\nECHO\r\n" + "$5\r\nhello\r\n");
    AsciiAppend("$4\r\nECHO\r\n", "$5\r\nhello\r\n");
    AsciiAppend("*2\r\n", "$4\r\nECHO\r\n" + "$5\r\nhello\r\n");
  }

  /** The wire form of ECHO hello. */
  lemma EchoFrame(s: seq<byte>)
    requires s == Ascii("*2\r\n$4\r\nECHO\r\n$5\r\nhello\r\n")
    ensures s == RequestFrame([Ascii("ECHO"), Ascii("hello")])
  {
    EchoLiteral();
    EchoWord(Ascii("ECHO"));
    HelloWord(Ascii("hello"));
    TwoHeader();
    RequestFrameTwo(Ascii("ECHO"), Ascii("hello"));
  }

  /** ECHO with one argument answers a one-element array holding it. */
  lemma EchoOneReply(w: seq<byte>)
    ensures Marshal(Echo(Bulks([w]))).value == [ArrayByte, 49] + CRLF + MarshalBulk(BulkValue(w))
  {
    EchoBulksReply([w]);
    var bulks := seq(1, i requires 0 <= i < 1 => MarshalBulk(BulkValue([w][i])));
    assert bulks == [MarshalBulk(BulkValue(w))];
    assert Flatten(bulks) == MarshalBulk(BulkValue(w)) + Flatten([]);
    assert Flatten(bulks) == MarshalBulk(BulkValue(w));
    assert Itoa(1) == [49];
    assert [ArrayByte] + Itoa(1) == [ArrayByte, 49];
  }

  /** The encoder's bulk string for hello. */
  lemma HelloBulk(w: seq<byte>)
    requires w == Ascii("hello")
    ensures MarshalBulk(BulkValue(w)) == Ascii("$5hello\r\n")
  {
    assert Itoa(5) == [53];
  }

  /** The ECHO hello reply literal, split into header and bulk string. */
  lemma EchoHelloLiteral()
    ensures Ascii("*1\r\n$5hello\r\n") == Ascii("*1\r\n") + Ascii("$5hello\r\n")
  {
    assert "*1\r\n$5hello\r\n" == "*1\r\n" + "$5hello\r\n";
    AsciiAppend("*1\r\n", "$5hello\r\n");
  }

  /** ECHO hello's reply. */
  lemma EchoHelloReply(hello: seq<byte>)
    requires hello == Ascii("hello")
    ensures Marshal(Echo(Bulks([Ascii("ECHO"), hello])[1..])).value == Ascii("*1\r\n$5hello\r\n")
  {
    assert Bulks([Ascii("ECHO"), hello])[1..] == Bulks([hello]);
    EchoOneReply(hello);
    HelloBulk(hello);
    EchoHelloLiteral();
    OneHeader();
  }

  /** `*2\r\n$4\r\nECHO\r\n$5\r\nhello\r\n` is answered with the array
      `*1\r\n$5hello\r\n`, whose bulk string lacks the CR LF after its length. */
  lemma EchoSession(s: seq<byte>)
    requires s == Ascii("*2\r\n$4\r\nECHO\r\n$5\r\nhello\r\n")
    ensures SessionFrom(s, 0) == Transcript(Ascii("*1\r\n$5hello\r\n"), false)
  {
    var echo, hello := Ascii("ECHO"), Ascii("hello");
    EchoFrame(s);
    ToUpperFixed(echo);
    OneRequestSession([echo, hello]);
    RequestReply([echo, hello]);
    EchoHelloReply(hello);
  }

  /** The wire form of ECHO with no argument, in lower case. */
  lemma EchoNoArgsFrame(s: seq<byte>)
    requires s == Ascii("*1\r\n$4\r\necho\r\n")
    ensures s == RequestFrame([Ascii("echo")])
  {
    RequestFrameOne(Ascii("echo"));
    assert Itoa(4) == [52];
  }

  /** ECHO with no argument, `*1\r\n$4\r\necho\r\n`, is answered with the
      empty array `*0\r\n`. */
  lemma EchoNoArgsSession(s: seq<byte>)
    requires s == Ascii("*1\r\n$4\r\necho\r\n")
    ensures SessionFrom(s, 0) == Transcript(Ascii("*0\r\n"), false)
  {
    var echo := Ascii("echo");
    EchoNoArgsFrame(s);
    assert ToUpper(echo) == Ascii("ECHO");
    OneRequestSession([echo]);
    RequestReply([echo]);
    assert Bulks([echo])[1..] == Bulks([]);
    EchoBulksReply([]);
    assert Itoa(0) == [48];
    assert Flatten([]) == [];
  }

  /** The frame of the word GET. */
  lemma GetWord(w: seq<byte>)
    requires w == Ascii("GET")
    ensures BulkFrame(w) == Ascii("$3\r\nGET\r\n")
  {
    assert Itoa(3) == [51];
  }

  /** The frame of the word k. */
  lemma KeyWord(w: seq<byte>)
    requires w == Ascii("k")
    ensures BulkFrame(w) == Ascii("$1\r\nk\r\n")
  {
    assert Itoa(1) == [49];
  }

  /** The GET k request literal, split into header and word frames. */
  lemma GetLiteral()
    ensures Ascii("*2\r\n$3\r\nGET\r\n$1\r\nk\r\n") == Ascii("*2\r\n") + (Ascii("$3\r\nGET\r\n") + Ascii("$1\r\nk\r\n"))
  {
    assert "*2\r\n$3\r\nGET\r\n$1\r\nk\r\n" == "*2\r\n" + ("$3\r\nGET\r\n" + "$1\r\nk\r\n");
    AsciiAppend("$3\r\nGET\r\n", "$1\r\nk\r\n");
    AsciiAppend("*2\r\n", "$3\r\nGET\r\n" + "$1\r\nk\r\n");
  }

  /** The wire form of GET k. */
  lemma GetFrame(s: seq<byte>)
    requires s == Ascii("*2\r\n$3\r\nGET\r\n$1\r\nk\r\n")
    ensures s == RequestFrame([Ascii("GET"), Ascii("k")])
  {
    GetLiteral();
    GetWord(Ascii("GET"));
    KeyWord(Ascii("k"));
    TwoHeader();
    RequestFrameTwo(Ascii("GET"), Ascii("k"));
  }

  /** A command with no handler, `*2\r\n$3\r\nGET\r\n$1\r\nk\r\n`, gets no
      reply at all. */
  lemma UnknownCommandSession(s: seq<byte>)
    requires s == Ascii("*2\r\n$3\r\nGET\r\n$1\r\nk\r\n")
    ensures SessionFrom(s, 0) == Transcript([], false)
  {
    var get, k := Ascii("GET"), Ascii("k");
    GetFrame(s);
    ToUpperFixed(get);
    OneRequestSession([get, k]);
    RequestReply([get, k]);
  }
}
