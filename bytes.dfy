/** Go byte strings and the ASCII facts the codec relies on. */
module Bytes {

  /** A Go `byte`. Go `string` values are byte strings, so they are `seq<byte>` here. */
  newtype byte = x: int | 0 <= x < 256

  const CR: byte := 13
  const LF: byte := 10
  const CRLF: seq<byte> := [CR, LF]

  /** The bytes of an ASCII literal such as "PONG". */
  function Ascii(s: string): (b: seq<byte>)
    requires forall i :: 0 <= i < |s| ==> s[i] as int < 128
    ensures |b| == |s|
    ensures forall i :: 0 <= i < |s| ==> b[i] as int == s[i] as int
  {
    seq(|s|, i requires 0 <= i < |s| => s[i] as int as byte)
  }

  /** Ascii distributes over concatenation. */
  lemma AsciiAppend(a: string, b: string)
    requires forall i :: 0 <= i < |a| ==> a[i] as int < 128
    requires forall i :: 0 <= i < |b| ==> b[i] as int < 128
    ensures forall i :: 0 <= i < |a + b| ==> (a + b)[i] as int < 128
    ensures Ascii(a + b) == Ascii(a) + Ascii(b)
  {
    assert forall i :: 0 <= i < |a + b| ==> (a + b)[i] == if i < |a| then a[i] else b[i - |a|];
  }

  predicate IsLower(b: byte) { 97 <= b <= 122 }

  /** `strings.ToUpper` on bytes: ASCII lower-case letters move to upper case,
      every other byte is kept (the Unicode path of Go is not part of this model). */
  function ToUpper(s: seq<byte>): (u: seq<byte>)
    ensures |u| == |s|
    ensures forall i :: 0 <= i < |s| ==> !IsLower(u[i])
    ensures forall i :: 0 <= i < |s| ==> (u[i] == s[i] <==> !IsLower(s[i]))
    ensures forall i :: 0 <= i < |s| ==> IsLower(s[i]) ==> u[i] as int == s[i] as int - 32
  {
    seq(|s|, i requires 0 <= i < |s| => if IsLower(s[i]) then s[i] - 32 else s[i])
  }

  /** Upper-casing twice is upper-casing once. */
  lemma ToUpperIdempotent(s: seq<byte>)
    ensures ToUpper(ToUpper(s)) == ToUpper(s)
  {
  }

  /** A byte string leaves ToUpper unchanged exactly when it has no lower-case letter. */
  lemma ToUpperFixed(s: seq<byte>)
    ensures ToUpper(s) == s <==> forall i :: 0 <= i < |s| ==> !IsLower(s[i])
  {
    if forall i :: 0 <= i < |s| ==> !IsLower(s[i]) {
      assert forall i :: 0 <= i < |s| ==> ToUpper(s)[i] == s[i];
    } else {
      var i :| 0 <= i < |s| && IsLower(s[i]);
      assert ToUpper(s)[i] != s[i];
    }
  }
}
