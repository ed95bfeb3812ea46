/** Which texts are tokens, by the shape of the text alone: the longest literal, the shortest block comment, whole
    words and whole stretches of space. */
module QualifyLexing {
  import opened Qualify
  import opened QualifyText
  import opened Wrappers

  // ---- literals

  /** Quotes come in pairs. */
  predicate Paired(quote: char, s: string) {
    || s == ""
    || (s[0] != quote && Paired(quote, s[1..]))
    || (|s| >= 2 && s[0] == quote && s[1] == quote && Paired(quote, s[2..]))
  }

  predicate Closed(quote: char, s: string) {
    s != "" && s[|s| - 1] == quote && Paired(quote, s[..|s| - 1])
  }

  /** A quote, a body in which that quote is doubled, and the quote. */
  predicate IsLiteral(s: string) {
    s != "" && IsQuote(s[0]) && Closed(s[0], s[1..])
  }

  lemma ClosedAfterOther(quote: char, text: string, m: nat)
    requires text != "" && text[0] != quote && m < |text|
    ensures Closed(quote, text[..m + 1]) <==> m >= 1 && Closed(quote, text[1..][..m])
  {
    if m >= 1 {
      var s, r := text[..m + 1], text[1..][..m];
      assert s[1..] == r && s[0] == text[0];
      assert s[..m][1..] == r[..m - 1];
    }
  }

  lemma ClosedAfterPair(quote: char, text: string, m: nat)
    requires |text| >= 2 && text[0] == quote && text[1] == quote && m < |text|
    ensures Closed(quote, text[..m + 1]) <==> m == 0 || (m >= 2 && Closed(quote, text[2..][..m - 1]))
  {
    var s := text[..m + 1];
    if m == 0 {
      assert s[..0] == "";
    } else if m >= 2 {
      var r := text[2..][..m - 1];
      assert s[2..] == r && s[0] == text[0] && s[1] == text[1];
      assert s[..m][2..] == r[..m - 2];
    }
  }

  lemma ClosedAtOnce(quote: char, text: string, m: nat)
    requires text != "" && text[0] == quote && (|text| == 1 || text[1] != quote) && m < |text|
    ensures Closed(quote, text[..m + 1]) <==> m == 0
  {
    var s := text[..m + 1];
    if m == 0 {
      assert s[..0] == "";
    }
  }

  /** The literal is closed at the last place where it can be. */
  lemma {:induction false} ClosingIsLast(quote: char, text: string, m: nat)
    requires m < |text|
    ensures Closed(quote, text[..m + 1]) ==> Closing(quote, text).Some? && m <= Closing(quote, text).value
    ensures Closing(quote, text) == Some(m) ==> Closed(quote, text[..m + 1])
    decreases |text|
  {
    hide Closed;
    if text[0] != quote {
      ClosedAfterOther(quote, text, m);
      if m >= 1 {
        ClosingIsLast(quote, text[1..], m - 1);
      }
    } else if |text| >= 2 && text[1] == quote {
      ClosedAfterPair(quote, text, m);
      if m >= 2 {
        ClosingIsLast(quote, text[2..], m - 2);
      }
    } else {
      ClosedAtOnce(quote, text, m);
    }
  }

  /** The front of the text that is its first `n` characters is a literal, and no longer front is. */
  ghost predicate LongestLiteral(text: string, n: nat) {
    n <= |text| && IsLiteral(text[..n]) && forall m: nat :: n < m <= |text| ==> !IsLiteral(text[..m])
  }

  lemma LiteralFront(text: string, m: nat)
    requires text != "" && IsQuote(text[0]) && 2 <= m <= |text|
    ensures IsLiteral(text[..m]) <==> Closed(text[0], text[1..][..m - 1])
  {
    assert text[..m][1..] == text[1..][..m - 1];
  }

  lemma ShortIsNoLiteral(text: string)
    requires |text| <= 1
    ensures !IsLiteral(text)
  {
  }

  lemma LiteralsExactly(text: string, n: nat)
    requires text != "" && IsQuote(text[0])
    ensures Closing(text[0], text[1..]).Some? && n == Closing(text[0], text[1..]).value + 2 <==> LongestLiteral(text, n)
    ensures Closing(text[0], text[1..]).None? <==> forall m: nat :: m <= |text| ==> !IsLiteral(text[..m])
  {
    hide Closing, Closed, IsLiteral;
    var q, rest := text[0], text[1..];
    forall m: nat | m <= |text|
      ensures IsLiteral(text[..m]) ==> m >= 2 && Closing(q, rest).Some? && m - 2 <= Closing(q, rest).value
      ensures m >= 2 && Closing(q, rest) == Some(m - 2) ==> IsLiteral(text[..m])
    {
      if m < 2 {
        ShortIsNoLiteral(text[..m]);
      } else {
        LiteralFront(text, m);
        ClosingIsLast(q, rest, m - 2);
      }
    }
    if Closing(q, rest).Some? {
      assert IsLiteral(text[..Closing(q, rest).value + 2]);
    }
  }

  // ---- comments

  predicate EndAt(text: string, k: nat) {
    k + 2 <= |text| && text[k] == '*' && text[k + 1] == '/'
  }

  lemma {:induction false} BlockEndIsFirst(text: string, m: nat)
    ensures BlockEnd(text) == Some(m) <==> EndAt(text, m) && forall k: nat :: k < m ==> !EndAt(text, k)
    ensures BlockEnd(text).None? ==> !EndAt(text, m)
    decreases |text|
  {
    if |text| >= 2 {
      if text[0] == '*' && text[1] == '/' {
        assert EndAt(text, 0);
      } else {
        var rest := text[1..];
        assert !EndAt(text, 0);
        if m > 0 {
          BlockEndIsFirst(rest, m - 1);
          assert forall k: nat :: EndAt(rest, k) <==> EndAt(text, k + 1);
          if forall k: nat :: k < m - 1 ==> !EndAt(rest, k) {
            forall k: nat | k < m
              ensures !EndAt(text, k)
            {
              if k > 0 {
                assert !EndAt(rest, k - 1);
              }
            }
          }
          if forall k: nat :: k < m ==> !EndAt(text, k) {
            forall k: nat | k < m - 1
              ensures !EndAt(rest, k)
            {
              assert !EndAt(text, k + 1);
            }
          }
        }
      }
    }
  }

  /** A block comment that the text starts with, up to the first end that does not share its star with the start. */
  ghost predicate BlockComment(text: string, n: nat) {
    && 4 <= n <= |text| && text[0] == '/' && text[1] == '*' && EndAt(text, n - 2)
    && forall k: nat :: 2 <= k < n - 2 ==> !EndAt(text, k)
  }

  lemma BlockExactly(text: string, n: nat)
    requires |text| >= 2 && text[0] == '/' && text[1] == '*'
    ensures BlockEnd(text[2..]).Some? && n == BlockEnd(text[2..]).value + 4 <==> BlockComment(text, n)
  {
    var rest := text[2..];
    assert forall k: nat :: EndAt(rest, k) <==> EndAt(text, k + 2);
    if n >= 4 {
      BlockEndIsFirst(rest, n - 4);
      if BlockComment(text, n) {
        forall k: nat | k < n - 4
          ensures !EndAt(rest, k)
        {
          assert !EndAt(text, k + 2);
        }
      }
      if forall k: nat :: k < n - 4 ==> !EndAt(rest, k) {
        forall k: nat | 2 <= k < n - 2
          ensures !EndAt(text, k)
        {
          assert !EndAt(rest, k - 2);
        }
      }
    }
  }

  lemma NoBlock(text: string)
    requires |text| >= 2 && text[0] == '/' && text[1] == '*'
    ensures BlockEnd(text[2..]).None? <==> forall n: nat :: !BlockComment(text, n)
  {
    hide BlockComment, BlockEnd;
    forall n: nat
      ensures BlockEnd(text[2..]).Some? && n == BlockEnd(text[2..]).value + 4 <==> BlockComment(text, n)
    {
      BlockExactly(text, n);
    }
    if BlockEnd(text[2..]).Some? {
      assert BlockComment(text, BlockEnd(text[2..]).value + 4);
    }
  }

  // ---- runs

  /** The first `n` characters are all of the class and what follows them is not. */
  ghost predicate WholeRun(text: string, n: nat, class_: Class, u: Unicode) {
    && n <= |text| && (forall i :: 0 <= i < n ==> In(text[i], class_, u))
    && (n < |text| ==> !In(text[n], class_, u))
  }

  lemma RunExactly(text: string, n: nat, class_: Class, u: Unicode)
    ensures RunLen(text, class_, u) == n <==> WholeRun(text, n, class_, u)
  {
    hide In;
    if n <= |text| {
      var a, x := text[..n], text[n..];
      RunIs(a, x, class_, u);
      assert a + x == text;
      assert forall i :: 0 <= i < n ==> a[i] == text[i] && a[i] in a;
    }
  }

  // ---- tokens

  predicate LineStart(text: string) {
    |text| >= 2 && text[0] == '-' && text[1] == '-'
  }

  /** What the text starts with that comes before words, spaces and punctuation. */
  ghost predicate Opaque(text: string, kind: Kind, n: nat) {
    || (kind == Str && LongestLiteral(text, n))
    || (kind == Comment && n >= 2 && LineStart(text) && WholeLine(text, n))
    || (kind == Comment && BlockComment(text, n))
  }

  /** The first `n` characters go to the end of the line. */
  ghost predicate WholeLine(text: string, n: nat) {
    n <= |text| && (forall i :: 0 <= i < n ==> text[i] != '\n') && (n < |text| ==> text[n] == '\n')
  }

  /** The token the text starts with: a literal or a comment; else a word; else space; else one character. */
  ghost predicate Starts(text: string, kind: Kind, n: nat, u: Unicode) {
    match kind
    case Str => Opaque(text, Str, n)
    case Comment => Opaque(text, Comment, n)
    case Word => text != "" && WordStart(text[0]) && WholeRun(text, n, WordClass, u)
    case Ws => text != "" && In(text[0], SpaceClass, u) && WholeRun(text, n, SpaceClass, u)
    case Punct =>
      && text != "" && n == 1 && !WordStart(text[0]) && !In(text[0], SpaceClass, u)
      && forall k, m: nat :: !Opaque(text, k, m)
  }

  lemma StringShape(text: string, kind: Kind, n: nat, u: Unicode)
    requires text != "" && IsQuote(text[0])
    ensures Shape(text, u) == (kind, n) <==> Starts(text, kind, n, u)
  {
    hide Closing, LongestLiteral, RunLen, BlockEnd, WholeRun, WholeLine;
    LiteralsExactly(text, n);
    if Closing(text[0], text[1..]).Some? {
      var m := Closing(text[0], text[1..]).value + 2;
      LiteralsExactly(text, m);
      assert Opaque(text, Str, m);
    } else {
      forall m: nat
        ensures !LongestLiteral(text, m)
      {
        LiteralsExactly(text, m);
      }
    }
  }

  lemma LineShape(text: string, kind: Kind, n: nat, u: Unicode)
    requires LineStart(text)
    ensures Shape(text, u) == (kind, n) <==> Starts(text, kind, n, u)
  {
    hide Closing, LongestLiteral, BlockEnd, WholeRun;
    LineIs(text, n, u);
    LineIs(text, Shape(text, u).1, u);
    NoLiteral(text);
    assert Opaque(text, Comment, Shape(text, u).1);
  }

  lemma LineIs(text: string, n: nat, u: Unicode)
    requires LineStart(text)
    ensures 1 + RunLen(text[1..], LineClass, u) == n <==> n >= 2 && WholeLine(text, n)
  {
    var rest := text[1..];
    hide RunLen;
    if n >= 1 {
      RunExactly(rest, n - 1, LineClass, u);
      assert n <= |text| ==> forall i :: 0 <= i < n - 1 ==> rest[i] == text[i + 1];
      assert n < |text| ==> rest[n - 1] == text[n];
      if n >= 2 && WholeLine(text, n) {
        forall i | 0 <= i < n - 1
          ensures rest[i] != '\n'
        {
          assert rest[i] == text[i + 1];
        }
      }
      if WholeRun(rest, n - 1, LineClass, u) {
        forall i | 0 <= i < n
          ensures text[i] != '\n'
        {
          if i > 0 {
            assert text[i] == rest[i - 1];
          }
        }
      }
    }
  }

  lemma NoLiteral(text: string)
    requires text != "" && !IsQuote(text[0])
    ensures forall n: nat :: !LongestLiteral(text, n)
  {
    forall n: nat
      ensures !LongestLiteral(text, n)
    {
      if n <= |text| && n > 0 {
        assert text[..n][0] == text[0];
      }
    }
  }

  lemma BlockShape(text: string, kind: Kind, n: nat, u: Unicode)
    requires |text| >= 2 && text[0] == '/' && text[1] == '*'
    ensures Shape(text, u) == (kind, n) <==> Starts(text, kind, n, u)
  {
    hide Closing, LongestLiteral, RunLen, BlockEnd, WholeRun, WholeLine, BlockComment;
    NoLiteral(text);
    NoBlock(text);
    BlockExactly(text, n);
    assert text[1..][1..] == text[2..];
    if BlockEnd(text[2..]).Some? {
      var m := BlockEnd(text[2..]).value + 4;
      BlockExactly(text, m);
      assert Opaque(text, Comment, m);
    }
  }

  lemma PlainShape(text: string, kind: Kind, n: nat, u: Unicode)
    requires text != "" && !IsQuote(text[0]) && !LineStart(text) && !(|text| >= 2 && text[0] == '/' && text[1] == '*')
    ensures Shape(text, u) == (kind, n) <==> Starts(text, kind, n, u)
  {
    hide Closing, LongestLiteral, RunLen, BlockEnd, WholeRun, WholeLine;
    NoLiteral(text);
    RunExactly(text, n, WordClass, u);
    RunExactly(text, n, SpaceClass, u);
    assert forall k, m: nat :: !Opaque(text, k, m);
  }

  /** The tokenizer takes what the text starts with: for every text, kind and length. */
  lemma TokensExactly(text: string, kind: Kind, n: nat, u: Unicode)
    requires text != ""
    ensures Shape(text, u) == (kind, n) <==> Starts(text, kind, n, u)
  {
    hide Shape, Starts;
    if IsQuote(text[0]) {
      StringShape(text, kind, n, u);
    } else if LineStart(text) {
      LineShape(text, kind, n, u);
    } else if |text| >= 2 && text[0] == '/' && text[1] == '*' {
      BlockShape(text, kind, n, u);
    } else {
      PlainShape(text, kind, n, u);
    }
  }

  /** And word characters and spaces are, in ASCII, these. */
  lemma AsciiClasses(c: char, u: Unicode)
    requires c as int < 0x80
    ensures In(c, WordClass, u) <==>
            var n := c as int; 48 <= n <= 57 || 65 <= n <= 90 || n == 95 || 97 <= n <= 122 || n == 36
    ensures In(c, SpaceClass, u) <==> var n := c as int; 9 <= n <= 13 || 28 <= n <= 32
    ensures WordStart(c) <==> var n := c as int; 65 <= n <= 90 || n == 95 || 97 <= n <= 122
  {
  }
}
