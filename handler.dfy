/** The command table of app/handler.go. */
module Handler {
  import opened Wrappers
  import opened Bytes
  import opened Strconv
  import opened RespValue

  /** `ping` (app/handler.go:8-10). */
  function Ping(args: seq<Value>): (v: Value)
    ensures Marshallable(v.typ) && v.typ == "string" && v.str == Ascii("PONG")
  {
    Value("string", Ascii("PONG"), 0, [], [])
  }

  /** `echo` (app/handler.go:12-14): the arguments, as they are, in an array. */
  function Echo(args: seq<Value>): (v: Value)
    ensures Marshallable(v.typ) && v.typ == "array"
    ensures |v.elems| == |args| && forall i :: 0 <= i < |args| ==> v.elems[i] == args[i]
  {
    Value("array", [], 0, [], args)
  }

  /** `Handlers` (app/handler.go:3-6): upper-case command names to handlers. */
  const Handlers: map<seq<byte>, seq<Value> -> Value> := map[Ascii("PING") := Ping, Ascii("ECHO") := Echo]

  /** The table holds exactly PING and ECHO, each name is already upper case
      (so `strings.ToUpper` of a command can find it), and each name selects
      its handler. */
  lemma HandlersTable()
    ensures Handlers.Keys == {Ascii("PING"), Ascii("ECHO")}
    ensures forall name :: name in Handlers ==> ToUpper(name) == name
    ensures forall args :: Handlers[Ascii("PING")](args) == Ping(args)
    ensures forall args :: Handlers[Ascii("ECHO")](args) == Echo(args)
  {
    assert Ascii("PING") == [80, 73, 78, 71];
    assert Ascii("ECHO") == [69, 67, 72, 79];
    ToUpperFixed(Ascii("PING"));
    ToUpperFixed(Ascii("ECHO"));
  }

  /** Whatever the arguments, PING is answered with `+PONG\r\n`. */
  lemma PingReply(args: seq<Value>)
    ensures Marshal(Ping(args)) == Ok(Ascii("+PONG\r\n"))
  {
    MarshalTextShape(Ping(args));
    assert Ascii("+PONG\r\n") == [StringByte] + Ascii("PONG") + CRLF;
  }

  /** ECHO's reply always marshals: '*', the argument count, CR LF, then each
      argument's encoding in order, an argument Marshal rejects being dropped. */
  lemma EchoReply(args: seq<Value>)
    ensures Marshal(Echo(args)) == Ok([ArrayByte] + Itoa(|args|) + CRLF + Flatten(Chunks(Echo(args), 0)))
    ensures forall i :: 0 <= i < |args| ==> Chunks(Echo(args), 0)[i] == (if Marshallable(args[i].typ) then Marshal(args[i]).value else [])
  {
    var v := Echo(args);
    MarshalArrayShape(v);
    forall i | 0 <= i < |args|
      ensures Chunks(v, 0)[i] == (if Marshallable(args[i].typ) then Marshal(args[i]).value else [])
    {
      assert Chunks(v, 0)[i] == Chunk(args[i]);
    }
  }

  /** Every handler's reply marshals, so `Write` never rejects it. */
  lemma HandlersReplyMarshals(name: seq<byte>, args: seq<Value>)
    requires name in Handlers
    ensures Marshal(Handlers[name](args)).Ok?
  {
    HandlersTable();
    if name == Ascii("PING") {
      PingReply(args);
    } else {
      EchoReply(args);
    }
  }
}
