/** Well-formed UTF-8 (section 4 of RFC 3629). */
module Utf8 {
  import opened ThriftWire

  predicate Tail(b: byte) {
    0x80 <= b <= 0xBF
  }

  predicate Valid(s: bytes) {
    if s == [] then true
    else if s[0] <= 0x7F then Valid(s[1..])
    else if 0xC2 <= s[0] <= 0xDF then |s| >= 2 && Tail(s[1]) && Valid(s[2..])
    else if 0xE0 <= s[0] <= 0xEF then
      && |s| >= 3 && Tail(s[1]) && Tail(s[2])
      && (s[0] == 0xE0 ==> 0xA0 <= s[1])
      && (s[0] == 0xED ==> s[1] <= 0x9F)
      && Valid(s[3..])
    else if 0xF0 <= s[0] <= 0xF4 then
      && |s| >= 4 && Tail(s[1]) && Tail(s[2]) && Tail(s[3])
      && (s[0] == 0xF0 ==> 0x90 <= s[1])
      && (s[0] == 0xF4 ==> s[1] <= 0x8F)
      && Valid(s[4..])
    else false
  }

  lemma {:induction false} AsciiIsValid(s: bytes)
    requires forall i :: 0 <= i < |s| ==> s[i] <= 0x7F
    ensures Valid(s)
    decreases |s|
  {
    if s != [] {
      AsciiIsValid(s[1..]);
    }
  }

  /** A Rust string, as its bytes. */
  type text = s: bytes | Valid(s)

  /** The bytes of an ASCII string. */
  function Ascii(s: string): (b: text)
    requires forall i :: 0 <= i < |s| ==> s[i] <= '~'
    ensures |b| == |s|
  {
    var b: bytes := seq(|s|, i requires 0 <= i < |s| => s[i] as int);
    AsciiIsValid(b);
    b
  }
}
