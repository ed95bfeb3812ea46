/** The bytes of characters: well-formed UTF-8 is what characters are encoded as, and nothing else (section 3 of
    RFC 3629). */
module Utf8Chars {
  import opened ThriftWire
  import opened Utf8

  function Lead(base: int, high: int): (b: byte)
    requires 0 <= base + high < 256
  {
    base + high
  }

  function Trail(n: int): (b: byte)
    ensures Tail(b)
  {
    0x80 + n % 64
  }

  function EncodeChar(c: char): bytes {
    var n := c as int;
    if n < 0x80 then [n]
    else if n < 0x800 then [Lead(0xC0, n / 64), Trail(n)]
    else if n < 0x1_0000 then [Lead(0xE0, n / 4096), Trail(n / 64), Trail(n)]
    else [Lead(0xF0, n / 262144), Trail(n / 4096), Trail(n / 64), Trail(n)]
  }

  function EncodeText(cs: string): bytes {
    if cs == "" then [] else EncodeChar(cs[0]) + EncodeText(cs[1..])
  }

  lemma EncodedIsValid(c: char, rest: bytes)
    requires Valid(rest)
    ensures Valid(EncodeChar(c) + rest)
  {
    var n, s := c as int, EncodeChar(c) + rest;
    if n < 0x80 {
      assert s[1..] == rest;
    } else if n < 0x800 {
      assert s[2..] == rest;
    } else if n < 0x1_0000 {
      assert s[3..] == rest;
    } else {
      assert s[4..] == rest;
    }
  }

  lemma TwoBytes(s: bytes) returns (c: char)
    requires |s| >= 2 && 0xC2 <= s[0] <= 0xDF && Tail(s[1])
    ensures EncodeChar(c) == [s[0], s[1]]
  {
    var n := (s[0] as int - 0xC0) * 64 + (s[1] as int - 0x80);
    c := n as char;
    assert n / 64 == s[0] as int - 0xC0 && n % 64 == s[1] as int - 0x80;
  }

  lemma ThreeBytes(s: bytes) returns (c: char)
    requires |s| >= 3 && 0xE0 <= s[0] <= 0xEF && Tail(s[1]) && Tail(s[2])
    requires (s[0] == 0xE0 ==> 0xA0 <= s[1]) && (s[0] == 0xED ==> s[1] <= 0x9F)
    ensures EncodeChar(c) == [s[0], s[1], s[2]]
  {
    var a, b, d := s[0] as int - 0xE0, s[1] as int - 0x80, s[2] as int - 0x80;
    var n := (a * 64 + b) * 64 + d;
    assert n / 64 == a * 64 + b && n % 64 == d;
    assert n / 4096 == a && n / 64 % 64 == b;
    c := n as char;
  }

  lemma FourBytes(s: bytes) returns (c: char)
    requires |s| >= 4 && 0xF0 <= s[0] <= 0xF4 && Tail(s[1]) && Tail(s[2]) && Tail(s[3])
    requires (s[0] == 0xF0 ==> 0x90 <= s[1]) && (s[0] == 0xF4 ==> s[1] <= 0x8F)
    ensures EncodeChar(c) == [s[0], s[1], s[2], s[3]]
  {
    var a, b, d, e := s[0] as int - 0xF0, s[1] as int - 0x80, s[2] as int - 0x80, s[3] as int - 0x80;
    var n := ((a * 64 + b) * 64 + d) * 64 + e;
    assert n / 64 == (a * 64 + b) * 64 + d && n % 64 == e;
    assert n / 4096 == a * 64 + b && n / 64 % 64 == d;
    assert n / 262144 == a && n / 4096 % 64 == b;
    c := n as char;
  }

  lemma FirstChar(s: bytes) returns (c: char, n: nat)
    requires s != [] && Valid(s)
    ensures 1 <= n <= |s| && s[..n] == EncodeChar(c) && Valid(s[n..])
  {
    hide EncodeChar;
    if s[0] <= 0x7F {
      c, n := s[0] as char, 1;
      OneByte(s[0]);
    } else if s[0] <= 0xDF {
      c := TwoBytes(s);
      n := 2;
    } else if s[0] <= 0xEF {
      c := ThreeBytes(s);
      n := 3;
    } else {
      c := FourBytes(s);
      n := 4;
    }
  }

  lemma OneByte(b: byte)
    requires b <= 0x7F
    ensures EncodeChar(b as char) == [b]
  {
  }

  lemma {:induction false} DecodedText(s: bytes) returns (cs: string)
    requires Valid(s)
    ensures EncodeText(cs) == s
    decreases |s|
  {
    hide Valid, EncodeChar;
    if s == [] {
      cs := "";
    } else {
      var c, n := FirstChar(s);
      var more := DecodedText(s[n..]);
      cs := [c] + more;
      assert cs[1..] == more && s == s[..n] + s[n..];
    }
  }

  lemma {:induction false} EncodedText(cs: string)
    ensures Valid(EncodeText(cs))
  {
    hide EncodeChar;
    if cs != "" {
      EncodedText(cs[1..]);
      EncodedIsValid(cs[0], EncodeText(cs[1..]));
    }
  }

  /** Bytes are well-formed exactly when they are the encoding of some characters. */
  lemma ValidExactly(s: bytes)
    ensures Valid(s) <==> exists cs: string :: EncodeText(cs) == s
  {
    hide Valid, EncodeText;
    if Valid(s) {
      var cs := DecodedText(s);
    }
    if cs: string :| EncodeText(cs) == s {
      EncodedText(cs);
    }
  }
}
