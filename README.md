# RESP2 codec and request loop of a small Redis-compatible server

This project is a Dafny model of the core of a tiny Redis-compatible server written in Go. That core is:

- the RESP2 (REdis Serialization Protocol, version 2) value type, its encoder and its decoder (`app/resp.go`);
- the command table with its two handlers, PING and ECHO (`app/handler.go`);
- the per-request decision of the connection loop `HandleClient` (`app/main.go`).

The model is written in the program's own terms:

- Go's `Value` struct is a datatype with all five fields (`typ`, `str`, `num`, `bulk`, and `array`, here called `elems`). Its tag is a free string, as in Go.
- The `Marshal` family is a set of pure functions.
- The decoder is imperative. Class `RespReader.Resp` holds the connection's input, a read cursor and the bytes written back. Its methods `ReadLine`, `ReadInteger`, `ReadArray`, `ReadBulk` and `Read` advance the cursor the way the Go methods do, and `Write` appends to the bytes written back and leaves the cursor alone. Each method is proved to agree with a specification function (`LineAt`, `IntegerAt`, `ArrayAt`, `BulkAt`, `ValueAt`). These functions give the outcome and the cursor left behind for a read started at any cursor.
- The outcome of a read is a value, an error, or a Go runtime panic. A panic is what `make` raises for a negative array length or a bulk length below -1; it ends the process.
- `HandleClient` is a loop over the connection. It is proved to write exactly the transcript that `Server.SessionFrom` gives, and to stop only at the end of the input or at a panic.

The model follows the Go code as written. Where the code departs from RESP2 as published on redis.io, the model does what the code does:

- `marshalBulk` writes no CR LF between the length and the payload (`app/resp.go:64-65`).
- `Marshal` has no case for `"integer"`, so integers are rejected (`app/resp.go:27-40`).
- `marshalArray` drops a child that fails to marshal but still counts it (`app/resp.go:49`).
- `$-1` decodes to an empty `"bulk"`, not to a null (`app/resp.go:147-149`).
- The line after a bulk payload is read and its outcome thrown away (`app/resp.go:159`).
- An unknown type byte gives the zero `Value` with no error. Only that one byte is consumed (`app/resp.go:186-188`).
- `echo` returns its arguments as an array, not as a bulk string (`app/handler.go:13`).
- An unknown command, a non-array request and an empty array get no reply at all (`app/main.go:68-84`).

Proved consequences of these deviations:

- The whole round trip holds, wherever the encoding sits and whatever follows it, for strings, errors and arrays of them, provided no text holds an LF (`RoundTrip.DecodeMarshal`, `RoundTrip.RoundTrip`). A text with an LF does not come back: `+a\n\r\n` is read as an InvalidLineEnding error (`RoundTrip.LfStringUnreadable`).
- The encoder's non-empty bulk strings whose payload starts with a non-digit and holds no LF cannot be decoded (`RoundTrip.MarshalBulkUnreadable`, `RoundTrip.MarshalBulkPong`). A payload holding LF can escape this: for the payload CR LF the count line ends at the payload's own CR LF, and `$2\r\n\r\n` reads back exactly (`RoundTrip.CrLfBulkRoundTrip`).
- The empty bulk string `$0\r\n` has no payload to run into its count line. On its own it reads back exactly (`RoundTrip.EmptyBulkRoundTrip`). But `readBulk` then reads and discards the next line, so a following `+A\r\n` is swallowed (`RoundTrip.MarshalEmptyBulkReads`, `RoundTrip.EmptyBulkSwallowsNextLine`).
- So the ECHO reply to `ECHO hello` is `*1\r\n$5hello\r\n` (`Server.EchoSession`).

Modules:

- `Wrappers`: Option, Result.
- `Bytes`: bytes, CR LF, ASCII literals, `strings.ToUpper`.
- `Strconv`: `strconv.Itoa`, `strconv.ParseInt`.
- `RespValue`: `Value` and the encoder.
- `RespReader`: the decoder.
- `RoundTrip`: the encoder's output as the decoder reads it, and client frames.
- `Handler`: the command table.
- `Server`: `HandleClient`.

## Model

| member | source | states |
|---|---|---|
| Bytes.ToUpper | app/main.go:78 | upper-casing keeps the length, leaves no lower-case ASCII letter, changes exactly the lower-case letters and moves each down by 32 |
| Bytes.ToUpperIdempotent | app/main.go:78 | upper-casing an already upper-cased command changes nothing |
| Bytes.ToUpperFixed | app/main.go:78 | a name is its own upper-cased form exactly when it has no lower-case letter |
| Strconv.Itoa | app/resp.go:46 | `strconv.Itoa` of the element or byte count is never empty; its sign and digits are stated by `ItoaSpec` and `ParseIntItoa` inverts it |
| Strconv.ItoaSpec | app/resp.go:46 | `strconv.Itoa` starts with '-' exactly for negative numbers, is all digits otherwise, and never holds CR or LF |
| Strconv.ParseInt | app/resp.go:108 | a parsed line is an optional sign followed by digits only, and a negative result comes from a leading '-' |
| Strconv.ParseIntItoa | app/resp.go:108 | `ParseInt(s, 10, 64)` gives back every int64 that `Itoa` rendered |
| Strconv.ParseIntRejects | app/resp.go:108-112 | a non-digit anywhere after the first byte makes the parse fail |
| RespValue.Value | app/resp.go:18-24 | the Go struct with all five fields and a free string tag, so tags outside the marshal cases ("integer", the empty tag) can be held |
| RespValue.ZeroValue | app/resp.go:169 | Go's zero `Value{}`: `Marshal` rejects it (`MarshalRejects`) and `Read` gives it for an unknown type byte (`ValueAtUnknownType`) |
| RespValue.Marshal | app/resp.go:26-41 | Marshal succeeds exactly for the tags array, bulk, string, null and error; it fails with the tag's name otherwise; every encoding starts with its tag's type byte and ends with CR LF |
| RespValue.Chunk | app/resp.go:49-50 | a child contributes its encoding or, when Marshal rejects it, nothing |
| RespValue.MarshalArray | app/resp.go:43-53 | an array's encoding starts with '*' and ends with CR LF |
| RespValue.MarshalItems | app/resp.go:48-51 | the children's part of an array encoding is empty or ends with CR LF |
| RespValue.MarshalString | app/resp.go:54-60 | the encoding is '+', then exactly the text, then CR LF, three bytes longer than the text |
| RespValue.MarshalBulk | app/resp.go:61-68 | the encoding is '$', then the byte count run straight into the payload, then CR LF |
| RespValue.MarshalError | app/resp.go:69-76 | the encoding is '-', then exactly the text, then CR LF, three bytes longer than the text |
| RespValue.MarshalTextShape | app/resp.go:54-76 | a "string" encodes as '+', its text, CR LF and an "error" as '-', its text, CR LF, whatever the other fields hold |
| RespValue.MarshalNullShape | app/resp.go:78-80 | a "null" encodes as exactly the five bytes `$-1\r\n`, whatever its fields hold |
| RespValue.MarshalBulkShape | app/resp.go:61-68 | a "bulk" encodes as '$', the byte count of its payload, the payload and CR LF, with no CR LF after the count |
| RespValue.MarshalItemsFlatten | app/resp.go:48-51 | the loop over the children appends their chunks in order |
| RespValue.MarshalArrayShape | app/resp.go:43-53 | an "array" encodes as '*', its element count, CR LF and the children's encodings in order; a child's chunk is empty exactly when Marshal rejects its tag, and the array still succeeds |
| RespValue.MarshalArrayFlat | app/resp.go:43-53 | the bytes of an "array" are its header followed by the concatenation of its children's chunks |
| RespValue.MarshalRejects | app/resp.go:38-39 | every other tag is rejected with an error naming it and no bytes, in particular "integer" and the empty tag of the zero Value |
| RespReader.StringAt | app/resp.go:92 | `ReadString('\n')` never moves the cursor back and never panics |
| RespReader.StringAtSpec | app/resp.go:92-95 | `ReadString('\n')` succeeds exactly when a LF is left, returning the bytes through the first LF; otherwise it drains the input with EOF |
| RespReader.LineAt | app/resp.go:91-100 | a line read never panics, and a successful one consumes at least its CR LF |
| RespReader.LineAtSpec | app/resp.go:91-100 | `readLine` succeeds exactly when a LF is found with at least one byte before it and that byte is CR; it returns the bytes before the CR and consumes them plus 2; each failure is InvalidLineEnding or EOF |
| RespReader.LineAtFrame | app/resp.go:91-100 | a LF-free line followed by CR LF is read back whatever follows it |
| RespReader.IntegerAt | app/resp.go:102-114 | `readInteger` never panics and always consumes at least one byte when it succeeds |
| RespReader.IntegerAtSpec | app/resp.go:102-114 | `readInteger` succeeds exactly when `readLine` does and ParseInt accepts the line; it leaves the cursor where `readLine` did; a parse failure is InvalidInteger and a line failure is passed on |
| RespReader.IntegerAtFrame | app/resp.go:102-114 | the decimal rendering of an int64 and CR LF is read back as that number |
| RespReader.FullAt | app/resp.go:153 | `io.ReadFull` never moves the cursor back |
| RespReader.BulkAt | app/resp.go:138-162 | `readBulk` never moves the cursor back |
| RespReader.BulkAtSpec | app/resp.go:138-162 | a failed length line is passed on; length -1 gives an empty "bulk" after the length line only; a length below -1 panics; otherwise the next L bytes are the payload whatever they hold, it succeeds exactly when L bytes are left, one more line is consumed with its outcome ignored, and a short read is an error, never a panic, that drains the input with EOF or UnexpectedEOF |
| RespReader.ValueAt | app/resp.go:164-189 | `Read` never moves the cursor back and consumes at least the type byte on every success |
| RespReader.ArrayAt | app/resp.go:116-136 | `readArray` never moves the cursor back |
| RespReader.ItemsFrom | app/resp.go:126-133 | the element loop never moves the cursor back |
| RespReader.ItemsFromStep | app/resp.go:126-133 | one turn of the loop reads a value, then appends it and goes on, or stops with its error |
| RespReader.ItemsFromInOrder | app/resp.go:126-133 | a successful loop reads exactly n values, keeps what came before, and reads them one after another, each value starting where the previous one ended |
| RespReader.ItemsFromCuts | app/resp.go:126-133 | conversely, n values read one after another make the loop succeed with exactly those values |
| RespReader.ItemsFromFirstError | app/resp.go:126-131 | a failed loop read some k < n values and then stopped at the first value that failed, with that value's error |
| RespReader.ValueAtDecoded | app/resp.go:116-189 | every decoded value has a tag the decoder sets, or is the zero Value; only that tag's field is non-zero; no decoded value is a "null" |
| RespReader.ItemsFromDecoded | app/resp.go:126-133 | every element `readArray` appends has the decoded shape |
| RespReader.ArrayAtSpec | app/resp.go:116-136 | a failed count line is passed on; a negative count panics; otherwise the outcome is the loop's, a failed loop's error or panic is passed on unchanged, and a success is an "array" of exactly count elements with its other fields zero |
| RespReader.ValueAtUnknownType | app/resp.go:164-189 | at the end of the input `Read` reports EOF and consumes nothing; an unknown type byte is consumed alone and gives the zero Value with no error |
| RespReader.Resp.constructor | app/resp.go:87-89 | `NewResp` starts with nothing read and nothing written |
| RespReader.Resp.ReadByte | app/resp.go:165-170 | `ReadByte` takes the next byte, or reports EOF at the end without moving |
| RespReader.Resp.ReadString | app/resp.go:92 | the scan for LF gives `StringAt`'s outcome and cursor |
| RespReader.Resp.ReadFull | app/resp.go:152-156 | `io.ReadFull` gives `FullAt`'s outcome and cursor |
| RespReader.Resp.ReadLine | app/resp.go:91-100 | `readLine` gives `LineAt`'s outcome and cursor, and its count is the line's length with CR LF (0 on error) |
| RespReader.Resp.ReadInteger | app/resp.go:102-114 | `readInteger` gives `IntegerAt`'s outcome and cursor, and its count is the line length whenever a line was read |
| RespReader.Resp.ReadArray | app/resp.go:116-136 | `readArray` gives `ArrayAt`'s outcome and cursor |
| RespReader.Resp.ReadBulk | app/resp.go:138-162 | `readBulk` gives `BulkAt`'s outcome and cursor |
| RespReader.Resp.Read | app/resp.go:164-189 | `Read` gives `ValueAt`'s outcome and cursor |
| RespReader.Resp.Write | app/resp.go:192-204 | a value Marshal rejects is not written and its error is returned; otherwise its encoding is appended to what was sent and no error is returned |
| RoundTrip.DecodeMarshal | app/resp.go:26-189 | the encoding of a string, an error or an array of such values (no LF in any text, all other fields zero) decodes back to that value wherever it sits in the input, and stops right after its encoding |
| RoundTrip.RoundTrip | app/resp.go:26-189 | reading a canonical value's own encoding gives the value back and consumes the encoding exactly |
| RoundTrip.MarshalBulkLine | app/resp.go:61-68 | in the encoding of a bulk whose payload is non-empty, starts with a non-digit and holds no LF, the first line the decoder finds is the count run together with the payload, and ParseInt rejects it |
| RoundTrip.CrLfBulkRoundTrip | app/resp.go:61-68 | the bulk with payload CR LF encodes to `$2\r\n\r\n` and is read back exactly, consuming all six bytes |
| RoundTrip.CrLfBulkBytes | app/resp.go:61-68 | the bulk with payload CR LF encodes to the six bytes `$2\r\n\r\n` |
| RoundTrip.CrLfBulkReads | app/resp.go:138-162 | `$2\r\n\r\n` is read as the bulk CR LF, the count line ending at the payload's own CR LF, and all six bytes are consumed |
| RoundTrip.LfStringUnreadable | app/resp.go:54-60 | the string "a" LF encodes to `+a\n\r\n`, which is read as an InvalidLineEnding error after three bytes |
| RoundTrip.MarshalBulkUnreadable | app/resp.go:61-68 | the encoding of a bulk whose payload starts with a non-digit and holds no LF fails to decode with InvalidInteger |
| RoundTrip.MarshalBulkPong | app/resp.go:61-68 | the bulk "PONG" encodes as `$4PONG\r\n`, and the decoder rejects those bytes |
| RoundTrip.MarshalEmptyBulkReads | app/resp.go:138-162 | the encoding of the empty bulk is `$0\r\n`; wherever it sits it is read as the empty "bulk", and the read also consumes the line after it |
| RoundTrip.EmptyBulkRoundTrip | app/resp.go:138-162 | on its own, `$0\r\n` is read back as the empty "bulk" and consumed exactly |
| RoundTrip.EmptyBulkSwallowsNextLine | app/resp.go:159 | `$0\r\n+A\r\n`, the encodings of the empty bulk and of the string "A", is consumed whole by one read that gives only the empty bulk |
| RoundTrip.MarshalNullReadsAsEmptyBulk | app/resp.go:147-149 | the encoder's null, `$-1\r\n`, is read back as an empty "bulk", not a "null" |
| RoundTrip.DecodeBulkFrame | app/resp.go:138-162 | a client's bulk frame (count, CR LF, payload, CR LF) is read as that payload, CR and LF included, and consumed exactly |
| RoundTrip.DecodeRequest | app/resp.go:116-162 | a client's command frame, an array of bulk frames, is read as an "array" of "bulk" values holding the words, and consumed exactly |
| Handler.Ping | app/handler.go:8-10 | the reply is a marshallable "string" whose text is PONG, whatever the arguments |
| Handler.Echo | app/handler.go:12-14 | the reply is a marshallable "array" whose elements are exactly the arguments, in order |
| Handler.Handlers | app/handler.go:3-6 | the command table; `HandlersTable` states its keys and bindings |
| Handler.HandlersTable | app/handler.go:3-6 | the table holds exactly PING and ECHO, both names are upper case, and each selects its handler |
| Handler.PingReply | app/handler.go:8-10 | whatever its arguments, PING's reply marshals to `+PONG\r\n` |
| Handler.EchoReply | app/handler.go:12-14 | ECHO's reply always marshals, as '*', the argument count, CR LF and each argument's encoding in order, a rejected argument being dropped |
| Handler.HandlersReplyMarshals | app/handler.go:3-14 | every handler's reply marshals, so `Write` never rejects it |
| Server.Respond | app/main.go:68-86 | a reply exists only for a request the loop dispatches, and every reply marshals; `RespondSpec` states when a reply exists and which handler gives it |
| Server.Reply | app/main.go:86-87 | nothing is written exactly when there is no reply; otherwise the bytes are the reply's encoding, which ends with CR LF |
| Server.DispatchReply | app/main.go:68-87 | the bytes written, branch by branch as the loop takes them: the handler's marshalled reply for a non-empty array naming a handler, nothing otherwise |
| Server.SessionFrom | app/main.go:60-93 | the loop's transcript over one cursor; `HandleClient` is proved to write exactly it and `SessionFromStep` unrolls it turn by turn |
| Server.ServeAt | app/main.go:61-91 | one turn of the loop never moves the cursor back |
| Server.ValueAtProgress | app/resp.go:165 | a read from before the end of the input consumes at least one byte, so the loop always makes progress |
| Server.SessionFromStep | app/main.go:60-93 | a session is its first turn followed by the session from where that turn ended; only a panic stops it |
| Server.HandleClient | app/main.go:60-93 | the loop writes exactly the session's transcript, crashes exactly when the session panics, and otherwise stops only when the input is used up |
| Server.ServeAtEnd | app/main.go:61-66 | at the end of the input a turn reads EOF, consumes nothing and writes nothing |
| Server.RespondSpec | app/main.go:68-86 | a request gets a reply exactly when it is a non-empty array whose first element's `bulk`, upper-cased, is PING or ECHO; the handler receives the other elements |
| Server.RespondCaseInsensitive | app/main.go:78-86 | command names are case-insensitive: requests that agree after upper-casing the name get the same reply |
| Server.ReplyMarshals | app/main.go:86-87 | the bytes written for a reply are exactly its encoding, and nothing is written when there is no reply |
| Server.NonBulkCommandIgnored | app/main.go:78-84 | a first element that is not a bulk string gives the empty name, which has no handler, so the request gets no reply |
| Server.ServeRequest | app/main.go:61-87 | a command frame is consumed whole in one turn and answered with the reply to its words |
| Server.PipelinedStep | app/main.go:60-93 | the first of several back-to-back commands is served in one turn, which ends where the next one starts |
| Server.SessionPipelined | app/main.go:60-93 | in the single-cursor model of the loop, commands sent back to back to the end of the input are answered in order, with nothing else written, and without a crash |
| Server.PipelinedSession | app/main.go:60-93 | in the single-cursor model of the loop, a client that sends any list of commands and closes gets their replies in order, and the server does not crash |
| Server.RequestReply | app/main.go:68-87 | a client's command gets `+PONG\r\n` for PING, the array encoding of its other words for ECHO, in any letter case, and nothing for anything else |
| Server.EchoBulksReply | app/handler.go:12-14 | ECHO answers words with '*', their count, CR LF, then each word as the encoder writes a bulk string |
| Server.OneRequestSession | app/main.go:60-93 | the whole transcript of a connection carrying one command is the reply to that command |
| Server.PingSession | app/main.go:60-93 | `*1\r\n$4\r\nping\r\n` is answered with `+PONG\r\n` |
| Server.EchoSession | app/main.go:60-93 | `*2\r\n$4\r\nECHO\r\n$5\r\nhello\r\n` is answered with `*1\r\n$5hello\r\n` |
| Server.EchoNoArgsSession | app/main.go:60-93 | ECHO with no argument is answered with the empty array `*0\r\n` |
| Server.UnknownCommandSession | app/main.go:79-84 | `GET k`, a command with no handler, gets no reply at all |

## Left out

- The listener, the accept loop, `os.Exit` and the goroutine per connection (`app/main.go:14-49`). These are network I/O and concurrency.
- Closing the connection (`app/main.go:53-58`). It is an I/O side effect.
- All `fmt.Println` and `fmt.Printf` logging. It does not change any result.
- RespReader.Resp.Write: the transport's own write error (`app/resp.go:198-201`) is not modelled. Bytes the model writes always arrive, and `HandleClient` ignores a write error anyway.
- Server.HandleClient: assumes one read cursor over the whole input. Go builds a new `bufio.Reader` on every turn (`app/main.go:61`), and that can drop bytes an earlier reader had buffered ahead. The reads a `bufio.Reader` makes on the connection, and its buffer size, are not part of this model.
- Server.SessionPipelined: a property of the single-cursor model only. In the Go program, commands that arrive in one read of the connection are buffered by that turn's `bufio.Reader` and thrown away with it (`app/main.go:61`), so only the first of them may get a reply.
- Server.PipelinedSession: a property of the single-cursor model only, for the same reason.
- Server.HandleClient: stops at the end of the input. The Go loop never ends by itself: it spins on EOF, and `Server.ServeAtEnd` shows that each such turn does nothing.
- Strconv.ParseInt: merges Go's two error kinds (syntax and range) into one failure. The decoder only checks whether there was an error.
- Bytes.ToUpper: maps only ASCII letters. Go's `strings.ToUpper` also maps non-ASCII UTF-8 text: a command name such as "pıng" with a dotless i would become "PING" in Go but not here.
- RespReader.BulkAt: allocation failure for a huge length is not modelled. `make([]byte, bulkLength)` (`app/resp.go:152`) with a length too large to allocate kills the process; here any non-negative length is treated as allocatable, and the read then fails for lack of input.
- RespReader.ArrayAt: allocation failure for a huge count is not modelled either. `make([]Value, 0, arrayLength)` (`app/resp.go:125`) allocates the whole capacity at once, and a count too large for it kills the process just as a huge bulk length does; here any non-negative count is treated as allocatable.
- RespReader.ValueAt: on an error, Go's `Read` also returns a partly filled `Value` (for example the array read so far, or the tag of a string). Only the error is modelled, because both callers, `HandleClient` (`app/main.go:62-66`) and the element loop of `readArray` (`app/resp.go:127-131`), drop the value whenever the error is not nil.
- Go's `int` is taken to be 64 bits wide, so `num` and the lengths are int64, as `ParseInt(..., 10, 64)` gives them.
