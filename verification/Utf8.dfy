/** Bytes, and which byte sequences a Rust `String` may hold. */
module Utf8 {

  type byte = b: int | 0 <= b < 256

  /** The bytes of a `String`. */
  type Text = seq<byte>

  predicate Continuation(b: byte) {
    0x80 <= b < 0xC0
  }

  /** Length of the well-formed scalar encoding `s` opens with (RFC 3629, section 4), or 0. */
  function ScalarLength(s: seq<byte>): (n: nat)
    requires |s| > 0
    ensures n <= 4 && n <= |s|
  {
    if s[0] < 0x80 then 1
    else if 0xC2 <= s[0] <= 0xDF && |s| >= 2 && Continuation(s[1]) then 2
    else if 0xE0 <= s[0] <= 0xEF && |s| >= 3 && Continuation(s[1]) && Continuation(s[2])
         && (s[0] == 0xE0 ==> s[1] >= 0xA0) && (s[0] == 0xED ==> s[1] < 0xA0) then 3
    else if 0xF0 <= s[0] <= 0xF4 && |s| >= 4 && Continuation(s[1]) && Continuation(s[2]) && Continuation(s[3])
         && (s[0] == 0xF0 ==> s[1] >= 0x90) && (s[0] == 0xF4 ==> s[1] < 0x90) then 4
    else 0
  }

  /** `std::str::from_utf8` accepts `s`. */
  predicate Valid(s: seq<byte>) {
    s == [] || (ScalarLength(s) > 0 && Valid(s[ScalarLength(s)..]))
  }

  lemma ScalarConcat(a: seq<byte>, b: seq<byte>)
    requires a != [] && ScalarLength(a) > 0
    ensures a + b != [] && ScalarLength(a + b) == ScalarLength(a)
  {
    assert forall i :: 0 <= i < |a| ==> (a + b)[i] == a[i];
  }

  lemma DropConcat(a: seq<byte>, b: seq<byte>, n: nat)
    requires n <= |a|
    ensures (a + b)[n..] == a[n..] + b
  {
  }

  lemma {:induction false} ValidConcat(a: seq<byte>, b: seq<byte>)
    requires Valid(a) && Valid(b)
    ensures Valid(a + b)
  {
    if a == [] {
      assert a + b == b;
    } else {
      var n := ScalarLength(a);
      ValidConcat(a[n..], b);
      ScalarConcat(a, b);
      DropConcat(a, b, n);
    }
  }

  lemma {:induction false} ValidAscii(s: seq<byte>)
    requires forall i :: 0 <= i < |s| ==> s[i] < 0x80
    ensures Valid(s)
  {
    if s != [] { ValidAscii(s[1..]); }
  }
}
