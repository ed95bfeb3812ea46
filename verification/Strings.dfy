/** Strings as the sources handle them: decimal digits, trimming, ASCII case, splitting. */
module Strings {
  import opened Wrappers

  function Digit(d: nat): char
    requires d < 10
  {
    '0' + d as char
  }

  function ParseDigits(s: string): Option<nat> {
    if s == "" then Some(0)
    else
      var c := s[|s| - 1];
      match ParseDigits(s[..|s| - 1])
      case None => None
      case Some(n) => if '0' <= c <= '9' then Some(10 * n + (c - '0') as nat) else None
  }

  predicate IsSpace(c: char) {
    || '\t' <= c <= '\r' || c == ' ' || c == '\U{0085}' || c == '\U{00A0}' || c == '\U{1680}'
    || '\U{2000}' <= c <= '\U{200A}' || c == '\U{2028}' || c == '\U{2029}' || c == '\U{202F}'
    || c == '\U{205F}' || c == '\U{3000}'
  }

  function Trim(s: string): string
    decreases |s|
  {
    if s == "" then ""
    else if IsSpace(s[0]) then Trim(s[1..])
    else if IsSpace(s[|s| - 1]) then Trim(s[..|s| - 1])
    else s
  }

  function LowerChar(c: char): char {
    if 'A' <= c <= 'Z' then c - 'A' + 'a' else c
  }

  function Lower(s: string): (t: string)
    ensures |t| == |s|
  {
    seq(|s|, i requires 0 <= i < |s| => LowerChar(s[i]))
  }

  predicate StartsWith(s: string, prefix: string) {
    |prefix| <= |s| && s[..|prefix|] == prefix
  }

  /** Without its trailing slashes. */
  function TrimSlashes(s: string): (r: string)
    ensures r <= s && (r == "" || r[|r| - 1] != '/')
    ensures forall i :: |r| <= i < |s| ==> s[i] == '/'
  {
    if s != "" && s[|s| - 1] == '/' then TrimSlashes(s[..|s| - 1]) else s
  }

  function Split(s: string, sep: char): (parts: seq<string>)
    ensures parts != []
  {
    if s == "" then [""]
    else
      var rest := Split(s[1..], sep);
      if s[0] == sep then [""] + rest else [[s[0]] + rest[0]] + rest[1..]
  }

  lemma {:induction false} SplitNone(s: string, sep: char)
    requires sep !in s
    ensures Split(s, sep) == [s]
  {
    if s != "" {
      assert s[0] in s;
      SplitNone(s[1..], sep);
      assert s == [s[0]] + s[1..];
    }
  }

  lemma {:induction false} SplitFirst(a: string, b: string, sep: char)
    requires sep !in a
    ensures Split(a + [sep] + b, sep) == [a] + Split(b, sep)
  {
    if a == "" {
      assert a + [sep] + b == [sep] + b && ([sep] + b)[1..] == b;
    } else {
      assert a[0] in a;
      assert (a + [sep] + b)[1..] == a[1..] + [sep] + b;
      SplitFirst(a[1..], b, sep);
      assert a == [a[0]] + a[1..];
    }
  }

  lemma LowerIsLower(s: string)
    requires forall c <- s :: !('A' <= c <= 'Z')
    ensures Lower(s) == s
  {
    assert forall i :: 0 <= i < |s| ==> s[i] in s;
  }

  /** Before and after the first `sep`. */
  function SplitOnce(s: string, sep: char): (r: Option<(string, string)>)
    ensures r.Some? ==> sep !in r.value.0 && s == r.value.0 + [sep] + r.value.1
    ensures r.None? ==> sep !in s
  {
    if s == "" then None
    else if s[0] == sep then Some(("", s[1..]))
    else
      match SplitOnce(s[1..], sep)
      case None => None
      case Some((a, b)) => Some(([s[0]] + a, b))
  }

  lemma {:induction false} SplitOnceIs(a: string, b: string, sep: char)
    requires sep !in a
    ensures SplitOnce(a + [sep] + b, sep) == Some((a, b))
  {
    var s := a + [sep] + b;
    if a == "" {
      assert s == [sep] + b && s[1..] == b;
    } else {
      assert s[0] == a[0] && a[0] in a;
      assert s[1..] == a[1..] + [sep] + b;
      SplitOnceIs(a[1..], b, sep);
      assert a == [a[0]] + a[1..];
    }
  }

  /** Before and after the last `sep`. */
  function SplitLast(s: string, sep: char): (r: Option<(string, string)>)
    ensures r.Some? ==> sep !in r.value.1 && s == r.value.0 + [sep] + r.value.1
    ensures r.None? ==> sep !in s
  {
    if s == "" then None
    else if s[|s| - 1] == sep then Some((s[..|s| - 1], ""))
    else
      match SplitLast(s[..|s| - 1], sep)
      case None => None
      case Some((a, b)) => Some((a, b + [s[|s| - 1]]))
  }

  lemma {:induction false} SplitLastIs(a: string, b: string, sep: char)
    requires sep !in b
    ensures SplitLast(a + [sep] + b, sep) == Some((a, b))
    decreases |b|
  {
    var s := a + [sep] + b;
    if b == "" {
      assert s == a + [sep] && s[..|s| - 1] == a;
    } else {
      var b', c := b[..|b| - 1], b[|b| - 1];
      assert s[|s| - 1] == c && c in b;
      assert s[..|s| - 1] == a + [sep] + b';
      SplitLastIs(a, b', sep);
      assert b == b' + [c];
    }
  }
}
