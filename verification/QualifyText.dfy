/** The qualifier on text: how a query is cut into tokens, and that what the rewriter writes is cut into the tokens
    it wrote. */
module QualifyText {
  import opened Wrappers
  import opened Strings
  import opened Qualify
  import opened QualifyTheorems

  /** Which characters past ASCII are word characters and which are spaces: any choice will do. */
  datatype Unicode = Unicode(word: char -> bool, space: char -> bool)

  /** The characters that go on a word, a stretch of spaces, or a line comment. */
  datatype Class = WordClass | SpaceClass | LineClass

  predicate WordStart(c: char) {
    'a' <= c <= 'z' || 'A' <= c <= 'Z' || c == '_'
  }

  predicate In(c: char, class_: Class, u: Unicode) {
    match class_
    case WordClass => WordStart(c) || '0' <= c <= '9' || c == '$' || (c >= '\U{0080}' && u.word(c))
    case SpaceClass => '\t' <= c <= '\r' || '\U{001C}' <= c <= ' ' || (c >= '\U{0080}' && u.space(c))
    case LineClass => c != '\n'
  }

  function RunLen(text: string, class_: Class, u: Unicode): (n: nat)
    ensures n <= |text|
  {
    if text != "" && In(text[0], class_, u) then 1 + RunLen(text[1..], class_, u) else 0
  }

  /** Where a literal is closed: a doubled quote is part of it, unless no quote after it can close it. */
  function Closing(quote: char, text: string): (r: Option<nat>)
    ensures r.Some? ==> r.value < |text|
    decreases |text|
  {
    if text == "" then None
    else if text[0] != quote then
      match Closing(quote, text[1..])
      case None => None
      case Some(n) => Some(n + 1)
    else if |text| >= 2 && text[1] == quote then
      match Closing(quote, text[2..])
      case None => Some(0)
      case Some(n) => Some(n + 2)
    else Some(0)
  }

  /** Where the first end of a block comment is. */
  function BlockEnd(text: string): (r: Option<nat>)
    ensures r.Some? ==> r.value + 2 <= |text|
  {
    if |text| < 2 then None
    else if text[0] == '*' && text[1] == '/' then Some(0)
    else
      match BlockEnd(text[1..])
      case None => None
      case Some(n) => Some(n + 1)
  }

  predicate IsQuote(c: char) {
    c == '\'' || c == '"'
  }

  /** The kind and the length of the token at the front. */
  function Shape(text: string, u: Unicode): (r: (Kind, nat))
    requires text != ""
    ensures 1 <= r.1 <= |text|
  {
    var c, rest := text[0], text[1..];
    if IsQuote(c) && Closing(c, rest).Some? then (Str, Closing(c, rest).value + 2)
    else if c == '-' && rest != "" && rest[0] == '-' then (Comment, 1 + RunLen(rest, LineClass, u))
    else if c == '/' && rest != "" && rest[0] == '*' && BlockEnd(rest[1..]).Some? then
      (Comment, BlockEnd(rest[1..]).value + 4)
    else if WordStart(c) then (Word, RunLen(text, WordClass, u))
    else if In(c, SpaceClass, u) then (Ws, RunLen(text, SpaceClass, u))
    else (Punct, 1)
  }

  function Tokenize(text: string, u: Unicode): seq<Token> {
    if text == "" then []
    else
      var (kind, n) := Shape(text, u);
      [Token(kind, text[..n])] + Tokenize(text[n..], u)
  }

  /** The qualifier's token pass on text. */
  function QualifyBody(text: string, database: string, u: Unicode): string {
    Join(Rewrite(Tokenize(text, u), START, database))
  }

  // ---- token lists that are the tokens of their own text

  predicate Leads(t: Token, rest: string, u: Unicode) {
    t.text != "" && Shape(t.text + rest, u) == (t.kind, |t.text|)
  }

  predicate Lexed(ts: seq<Token>, u: Unicode) {
    ts == [] || (Leads(ts[0], Join(ts[1..]), u) && Lexed(ts[1..], u))
  }

  /** No character is lost, and the tokens are those of their text. */
  lemma {:induction false} TokensSpell(text: string, u: Unicode)
    ensures Join(Tokenize(text, u)) == text && Lexed(Tokenize(text, u), u)
    decreases |text|
  {
    hide Shape;
    if text != "" {
      var n := Shape(text, u).1;
      TokensSpell(text[n..], u);
      assert text[..n] + text[n..] == text;
      assert Tokenize(text, u)[1..] == Tokenize(text[n..], u);
    }
  }

  lemma {:induction false} LexedAgain(ts: seq<Token>, u: Unicode)
    requires Lexed(ts, u)
    ensures Tokenize(Join(ts), u) == ts
  {
    hide Shape;
    if ts != [] {
      var t, rest := ts[0], Join(ts[1..]);
      LexedAgain(ts[1..], u);
      assert (t.text + rest)[..|t.text|] == t.text && (t.text + rest)[|t.text|..] == rest;
    }
  }

  // ---- what may change after a token

  /** What the tokenizer looks for far ahead: a quote, or the end of a block comment. */
  predicate SameMarks(x: string, y: string) {
    && ('\'' in x <==> '\'' in y)
    && ('"' in x <==> '"' in y)
    && (BlockEnd(x).Some? <==> BlockEnd(y).Some?)
  }

  /** Two texts no token before them can tell apart. */
  predicate Alike(x: string, y: string) {
    || (x == "" && y == "")
    || (&& x != "" && y != ""
        && (x[0] == y[0] || (WordStart(x[0]) && WordStart(y[0])))
        && SameMarks(x, y) && SameMarks(x[1..], y[1..]))
  }

  lemma {:induction false} ClosingFinds(quote: char, text: string)
    ensures Closing(quote, text).Some? <==> quote in text
    decreases |text|
  {
    if text != "" && text[0] != quote {
      ClosingFinds(quote, text[1..]);
      assert text == [text[0]] + text[1..];
    }
  }

  lemma {:induction false} ClosingStays(quote: char, a: string, x: string, y: string)
    requires IsQuote(quote) && Alike(x, y) && a != "" && Closing(quote, a + x) == Some(|a| - 1)
    ensures Closing(quote, a + y) == Some(|a| - 1)
    decreases |a|
  {
    hide BlockEnd;
    if a[0] != quote {
      assert (a + x)[1..] == a[1..] + x && (a + y)[1..] == a[1..] + y;
      assert Closing(quote, a[1..] + x) == Some(|a| - 2);
      assert |a| > 1;
      ClosingStays(quote, a[1..], x, y);
    } else if |a| == 1 {
      assert a + x == [quote] + x && a + y == [quote] + y;
      if x != "" && x[0] == quote {
        assert (a + x)[2..] == x[1..] && (a + y)[2..] == y[1..];
        ClosingFinds(quote, x[1..]);
        ClosingFinds(quote, y[1..]);
      }
    } else {
      assert (a + x)[1] == a[1] && (a + y)[1] == a[1];
      assert (a + x)[2..] == a[2..] + x && (a + y)[2..] == a[2..] + y;
      assert |a| > 2;
      ClosingStays(quote, a[2..], x, y);
    }
  }

  lemma {:induction false} BlockEndStays(a: string, x: string, y: string)
    requires BlockEnd(a + x).Some? && BlockEnd(a + x).value + 2 == |a|
    ensures BlockEnd(a + y) == Some(|a| - 2)
    decreases |a|
  {
    assert (a + x)[0] == a[0] == (a + y)[0] && (a + x)[1] == a[1] == (a + y)[1];
    if !(a[0] == '*' && a[1] == '/') {
      assert (a + x)[1..] == a[1..] + x && (a + y)[1..] == a[1..] + y;
      BlockEndStays(a[1..], x, y);
    }
  }

  /** A run is as long as `a` exactly when it is all of `a` and what follows does not go on. */
  lemma {:induction false} RunIs(a: string, x: string, class_: Class, u: Unicode)
    ensures RunLen(a + x, class_, u) == |a| <==>
            (forall c <- a :: In(c, class_, u)) && (x == "" || !In(x[0], class_, u))
    decreases |a|
  {
    hide In;
    if a == "" {
      assert a + x == x;
    } else {
      assert a == [a[0]] + a[1..] && (a + x)[1..] == a[1..] + x;
      RunIs(a[1..], x, class_, u);
    }
  }

  lemma NextStays(x: string, y: string, class_: Class, u: Unicode)
    requires Alike(x, y) && (x == "" || !In(x[0], class_, u))
    ensures y == "" || !In(y[0], class_, u)
  {
    hide SameMarks;
  }

  lemma RunStays(a: string, x: string, y: string, class_: Class, u: Unicode)
    requires Alike(x, y) && RunLen(a + x, class_, u) == |a|
    ensures RunLen(a + y, class_, u) == |a|
  {
    hide In, Alike, RunLen;
    RunIs(a, x, class_, u);
    RunIs(a, y, class_, u);
    NextStays(x, y, class_, u);
  }

  lemma StringLeads(a: string, x: string, y: string, u: Unicode)
    requires a != "" && Shape(a + x, u) == (Str, |a|) && Alike(x, y)
    ensures Shape(a + y, u) == (Str, |a|)
  {
    hide Alike, BlockEnd, RunLen;
    assert (a + x)[1..] == a[1..] + x && (a + y)[1..] == a[1..] + y;
    ClosingStays(a[0], a[1..], x, y);
  }

  lemma CommentLeads(a: string, x: string, y: string, u: Unicode)
    requires a != "" && Shape(a + x, u) == (Comment, |a|) && Alike(x, y)
    ensures Shape(a + y, u) == (Comment, |a|)
  {
    hide Alike, Closing, BlockEnd, RunLen;
    var x', y' := a[1..] + x, a[1..] + y;
    assert (a + x)[1..] == x' && (a + y)[1..] == y';
    if a[0] == '-' {
      RunStays(a[1..], x, y, LineClass, u);
      LineGoesOn(x', u);
    } else {
      assert x'[1..] == a[2..] + x && y'[1..] == a[2..] + y;
      BlockEndStays(a[2..], x, y);
    }
  }

  lemma LineGoesOn(x: string, u: Unicode)
    requires x != "" && x[0] == '-'
    ensures RunLen(x, LineClass, u) >= 1
  {
  }

  lemma WordLeads(a: string, x: string, y: string, u: Unicode)
    requires a != "" && Shape(a + x, u).0 in {Word, Ws} && Shape(a + x, u).1 == |a| && Alike(x, y)
    ensures Shape(a + y, u) == Shape(a + x, u)
  {
    hide Alike, Closing, BlockEnd, RunLen;
    RunStays(a, x, y, if WordStart(a[0]) then WordClass else SpaceClass, u);
  }

  lemma PunctLeads(a: string, x: string, y: string, u: Unicode)
    requires a != "" && Shape(a + x, u) == (Punct, |a|) && Alike(x, y)
    ensures Shape(a + y, u) == (Punct, |a|)
  {
    hide Closing, BlockEnd, RunLen;
    assert a == [a[0]];
    assert (a + x)[1..] == x && (a + y)[1..] == y;
    ClosingFinds(a[0], x);
    ClosingFinds(a[0], y);
  }

  lemma LeadsStays(t: Token, x: string, y: string, u: Unicode)
    requires Leads(t, x, u) && Alike(x, y)
    ensures Leads(t, y, u)
  {
    hide Shape, Alike;
    match t.kind
    case Str => StringLeads(t.text, x, y, u);
    case Comment => CommentLeads(t.text, x, y, u);
    case Word => WordLeads(t.text, x, y, u);
    case Ws => WordLeads(t.text, x, y, u);
    case Punct => PunctLeads(t.text, x, y, u);
  }

  // ---- alike after more text

  lemma {:induction false} MarksBefore(a: string, x: string, y: string)
    requires Alike(x, y)
    ensures SameMarks(a + x, a + y)
    decreases |a|
  {
    if a == "" {
      assert a + x == x && a + y == y;
    } else {
      var a' := a[1..];
      MarksBefore(a', x, y);
      assert a + x == [a[0]] + (a' + x) && a + y == [a[0]] + (a' + y);
      OneMoreMark(a[0], a' + x, a' + y);
    }
  }

  lemma OneMoreMark(c: char, x: string, y: string)
    requires SameMarks(x, y) && (x == "" <==> y == "")
    requires x != "" ==> x[0] == y[0] || (WordStart(x[0]) && WordStart(y[0]))
    ensures SameMarks([c] + x, [c] + y)
  {
    assert ([c] + x)[1..] == x && ([c] + y)[1..] == y;
  }

  lemma AlikeBefore(a: string, x: string, y: string)
    requires Alike(x, y)
    ensures Alike(a + x, a + y)
  {
    hide SameMarks;
    if a == "" {
      assert a + x == x && a + y == y;
    } else {
      assert (a + x)[1..] == a[1..] + x && (a + y)[1..] == a[1..] + y;
      MarksBefore(a, x, y);
      MarksBefore(a[1..], x, y);
    }
  }

  /** Characters that are in no mark. */
  predicate Neutral(s: string) {
    forall c <- s :: !IsQuote(c) && c != '*' && c != '/'
  }

  lemma {:induction false} NeutralBefore(w: string, x: string)
    requires Neutral(w)
    ensures SameMarks(w + x, x)
    decreases |w|
  {
    if w == "" {
      assert w + x == x;
    } else {
      assert w == [w[0]] + w[1..];
      NeutralBefore(w[1..], x);
      assert w + x == [w[0]] + (w[1..] + x);
      NeutralMark(w[0], w[1..] + x);
    }
  }

  lemma NeutralMark(c: char, x: string)
    requires !IsQuote(c) && c != '*' && c != '/'
    ensures SameMarks([c] + x, x)
  {
    assert ([c] + x)[1..] == x;
  }

  /** One neutral word for another. */
  lemma WordForWord(v: string, w: string, x: string, y: string)
    requires Neutral(v) && Neutral(w) && v != "" && w != "" && WordStart(v[0]) && WordStart(w[0]) && Alike(x, y)
    ensures Alike(v + x, w + y)
  {
    hide SameMarks;
    assert (v + x)[1..] == v[1..] + x && (w + y)[1..] == w[1..] + y;
    assert Neutral(v[1..]) && Neutral(w[1..]);
    MarksOf(v, w, x, y);
    MarksOf(v[1..], w[1..], x, y);
  }

  lemma MarksOf(v: string, w: string, x: string, y: string)
    requires Neutral(v) && Neutral(w) && Alike(x, y)
    ensures SameMarks(v + x, w + y)
  {
    hide BlockEnd;
    NeutralBefore(v, x);
    NeutralBefore(w, y);
  }

  // ---- words

  /** A word on its own. */
  predicate IsWord(s: string, u: Unicode) {
    s != "" && WordStart(s[0]) && forall c <- s :: In(c, WordClass, u)
  }

  lemma WordLeadsExactly(s: string, x: string, u: Unicode)
    ensures Leads(Token(Word, s), x, u) <==> IsWord(s, u) && (x == "" || !In(x[0], WordClass, u))
  {
    hide In, RunLen, Closing, BlockEnd;
    if s != "" {
      RunIs(s, x, WordClass, u);
    }
  }

  lemma DotLeads(x: string, u: Unicode)
    ensures Leads(Token(Punct, "."), x, u)
  {
    hide RunLen, Closing, BlockEnd;
  }

  lemma WordIsNeutral(s: string, u: Unicode)
    requires IsWord(s, u)
    ensures Neutral(s)
  {
  }

  lemma LowerIsWord(s: string, u: Unicode)
    requires IsWord(s, u)
    ensures IsWord(Lower(s), u)
  {
    var low := Lower(s);
    forall c | c in low
      ensures In(c, WordClass, u)
    {
      var i :| 0 <= i < |low| && low[i] == c;
      assert low[i] == LowerChar(s[i]) && s[i] in s;
    }
  }

  lemma DotNext(x: string)
    ensures ("." + x)[0] == '.' && forall u :: !In('.', WordClass, u)
  {
  }

  lemma JoinCons(t: Token, ts: seq<Token>)
    ensures Join([t] + ts) == t.text + Join(ts)
  {
    assert ([t] + ts)[1..] == ts;
  }

  lemma LexedCons(t: Token, ts: seq<Token>, u: Unicode)
    ensures Lexed([t] + ts, u) <==> Leads(t, Join(ts), u) && Lexed(ts, u)
  {
    hide Leads;
    assert ([t] + ts)[1..] == ts;
  }

  lemma DottedLexed(s: string, ts: seq<Token>, u: Unicode)
    ensures Lexed([Token(Word, s), Token(Punct, ".")] + ts, u) <==> IsWord(s, u) && Lexed(ts, u)
  {
    hide Leads, IsWord, In, Lexed;
    var w, dot := Token(Word, s), Token(Punct, ".");
    LexedCons(dot, ts, u);
    DotLeads(Join(ts), u);
    LexedCons(w, [dot] + ts, u);
    JoinCons(dot, ts);
    WordLeadsExactly(s, "." + Join(ts), u);
    DotNext(Join(ts));
    assert [w] + ([dot] + ts) == [w, dot] + ts;
  }

  lemma QualifiedLexed(t: Token, database: string, rest: seq<Token>, u: Unicode)
    ensures Lexed(Qualified(t, database) + rest, u) <==>
            IsWord(database, u) && Leads(Token(Word, Lower(t.text)), Join(rest), u) && Lexed(rest, u)
  {
    hide Leads, IsWord, Lexed;
    var name := Token(Word, Lower(t.text));
    LexedCons(name, rest, u);
    DottedLexed(database, [name] + rest, u);
    var more := [Token(Word, database), Token(Punct, ".")] + ([name] + rest);
    DottedLexed("glue", more, u);
    GlueIsWord(u);
    assert [Token(Word, "glue"), Token(Punct, ".")] + more == Qualified(t, database) + rest;
  }

  lemma GlueIsWord(u: Unicode)
    ensures IsWord("glue", u)
  {
  }

  // ---- the rewriter

  lemma {:induction false} KeptStays(kept: seq<Token>, before: seq<Token>, after: seq<Token>, u: Unicode)
    requires Lexed(kept + before, u) && Lexed(after, u) && Alike(Join(before), Join(after))
    ensures Lexed(kept + after, u) && Alike(Join(kept + before), Join(kept + after))
    decreases |kept|
  {
    hide Leads, Alike, Join, Lexed;
    if kept == [] {
      assert kept + before == before && kept + after == after;
    } else {
      var t, more := kept[0], kept[1..];
      assert kept + before == [t] + (more + before) && kept + after == [t] + (more + after);
      LexedCons(t, more + before, u);
      LexedCons(t, more + after, u);
      KeptStays(more, before, after, u);
      var x, y := Join(more + before), Join(more + after);
      LeadsStays(t, x, y, u);
      JoinCons(t, more + before);
      JoinCons(t, more + after);
      AlikeBefore(t.text, x, y);
    }
  }

  lemma TableStays(t: Token, database: string, before: seq<Token>, after: seq<Token>, u: Unicode)
    requires Lexed([t] + before, u) && t.kind.Word? && IsWord(database, u)
    requires Lexed(after, u) && Alike(Join(before), Join(after))
    ensures Lexed(Qualified(t, database) + after, u)
    ensures Alike(Join([t] + before), Join(Qualified(t, database) + after))
  {
    hide Leads, Alike, Join, Lexed, IsWord, In, Qualified;
    var x, y, low := Join(before), Join(after), Lower(t.text);
    LexedCons(t, before, u);
    LeadsStays(t, x, y, u);
    WordLeadsExactly(t.text, y, u);
    LowerIsWord(t.text, u);
    WordLeadsExactly(low, y, u);
    QualifiedLexed(t, database, after, u);
    JoinCons(t, before);
    JoinSplit(Qualified(t, database), after);
    JoinQualified(t, database);
    WordIsNeutral(t.text, u);
    QualifiedIsNeutral(database, low, u);
    assert t.text[0] == (t.text + x)[0];
    WordForWord(t.text, "glue." + database + "." + low, x, y) by {
      WordStarts(t.text, u);
    }
  }

  lemma WordStarts(s: string, u: Unicode)
    requires IsWord(s, u)
    ensures s != "" && WordStart(s[0])
  {
  }

  lemma QualifiedIsNeutral(database: string, low: string, u: Unicode)
    requires IsWord(database, u) && IsWord(low, u)
    ensures Neutral("glue." + database + "." + low)
  {
    hide IsWord;
    WordIsNeutral(database, u);
    WordIsNeutral(low, u);
    assert Neutral("glue.") && Neutral(".");
  }

  lemma {:induction false} RewriteStays(ts: seq<Token>, s: State, database: string, u: Unicode)
    requires Lexed(ts, u) && IsWord(database, u)
    ensures Lexed(Rewrite(ts, s, database), u) && Alike(Join(ts), Join(Rewrite(ts, s, database)))
    decreases |ts|
  {
    hide RoleOf, Known, TailLen, Advance, Rewrite, Qualified, Lexed, Alike, IsWord, Join, Leads;
    if ts == [] {
      Nothing(s, database);
      NothingIsAlike();
    } else {
      RewriteUnfold(ts, s, database);
      var n := if InPosition(s, ts[0]) then 1 + TailLen(ts[1..]) else 1;
      var s' := if InPosition(s, ts[0]) then s.(awaiting := false) else Advance(s, ts[0]);
      var rest, out := ts[n..], Rewrite(ts[n..], s', database);
      assert ts[..n] + rest == ts && ts[..1] == [ts[0]];
      LexedSuffix(ts, n, u);
      RewriteStays(rest, s', database, u);
      if InPosition(s, ts[0]) && n == 1 && Known(ts[0]) {
        KnownIsWord(ts[0]);
        TableStays(ts[0], database, rest, out, u);
      } else {
        KeptStays(ts[..n], rest, out, u);
      }
    }
  }

  lemma KnownIsWord(t: Token)
    requires Known(t)
    ensures t.kind.Word?
  {
  }

  lemma NothingIsAlike()
    ensures Alike("", "") && Join([]) == "" && forall u :: Lexed([], u)
  {
  }

  lemma {:induction false} LexedSuffix(ts: seq<Token>, n: nat, u: Unicode)
    requires Lexed(ts, u) && n <= |ts|
    ensures Lexed(ts[n..], u)
    decreases n
  {
    if n > 0 {
      LexedSuffix(ts[1..], n - 1, u);
      assert ts[1..][n - 1..] == ts[n..];
    } else {
      assert ts[0..] == ts;
    }
  }

  /** The rewritten text of `text` is cut into the rewritten tokens. */
  ghost predicate CutsAsWritten(text: string, database: string, u: Unicode) {
    Tokenize(QualifyBody(text, database, u), u) == Rewrite(Tokenize(text, u), START, database)
  }

  /** The rewriter writes the tokens it means, in every query, exactly when the database name is a word. */
  lemma CutsAsWrittenExactly(database: string, u: Unicode)
    ensures (forall text :: CutsAsWritten(text, database, u)) <==> IsWord(database, u)
  {
    hide Tokenize, Rewrite, IsWord;
    if IsWord(database, u) {
      forall text
        ensures CutsAsWritten(text, database, u)
      {
        WordCuts(text, database, u);
      }
    }
    if forall text :: CutsAsWritten(text, database, u) {
      assert CutsAsWritten(Join(FROM_STORE), database, u);
      FromStoreCuts(database, u);
    }
  }

  lemma WordCuts(text: string, database: string, u: Unicode)
    requires IsWord(database, u)
    ensures CutsAsWritten(text, database, u)
  {
    hide Tokenize, Rewrite, IsWord, Lexed;
    var ts := Tokenize(text, u);
    TokensSpell(text, u);
    RewriteStays(ts, START, database, u);
    LexedAgain(Rewrite(ts, START, database), u);
  }

  const FROM_STORE := [Token(Word, "from"), Token(Ws, " "), Token(Word, "store")]

  lemma FromStoreLexed(u: Unicode)
    ensures Lexed(FROM_STORE, u)
  {
    hide Leads, IsWord, Lexed, In;
    var from_, space, store := FROM_STORE[0], FROM_STORE[1], FROM_STORE[2];
    assert [from_] + ([space] + ([store] + [])) == FROM_STORE;
    NothingIsAlike();
    JoinCons(store, []);
    JoinCons(space, [store] + []);
    assert "store" + "" == "store" && " " + "store" == " store";
    LexedCons(store, [], u);
    LexedCons(space, [store] + [], u);
    LexedCons(from_, [space] + ([store] + []), u);
    WordLeadsExactly("store", "", u);
    WordLeadsExactly("from", " store", u);
    LiteralsLead(u);
  }

  lemma LiteralsLead(u: Unicode)
    ensures IsWord("store", u) && IsWord("from", u) && !In(' ', WordClass, u) && Leads(Token(Ws, " "), "store", u)
  {
    hide Closing, BlockEnd;
    assert " " + "store" == " store";
    RunIs(" ", "store", SpaceClass, u);
  }

  lemma FromStoreCuts(database: string, u: Unicode)
    requires CutsAsWritten(Join(FROM_STORE), database, u)
    ensures IsWord(database, u)
  {
    hide Tokenize, Rewrite, IsWord, Lexed, Known, RoleOf, Join, Qualified, Leads;
    var from_, space, store := FROM_STORE[0], FROM_STORE[1], FROM_STORE[2];
    FromStoreLexed(u);
    LexedAgain(FROM_STORE, u);
    StoreIsKnown();
    assert [from_] + [space] + [store] == FROM_STORE;
    AfterFrom([space], store, database);
    var out := Rewrite(FROM_STORE, START, database);
    TokensSpell(Join(out), u);
    LexedSuffix(out, 2, u);
    assert out[2..] == Qualified(store, database) + [];
    QualifiedLexed(store, database, [], u);
  }

  lemma StoreIsKnown()
    ensures Known(Token(Word, "store"))
  {
    LowerIsLower("store");
  }

  /** For a database whose name is a word, the qualifier changes nothing in its own output. */
  lemma TextIdempotent(text: string, database: string, u: Unicode)
    requires IsWord(database, u)
    ensures QualifyBody(QualifyBody(text, database, u), database, u) == QualifyBody(text, database, u)
  {
    hide Tokenize, Rewrite, IsWord;
    WordCuts(text, database, u);
    Idempotent(Tokenize(text, u), START, database);
  }
}
