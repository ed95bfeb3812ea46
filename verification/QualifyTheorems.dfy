/** What the table qualifier guarantees for every token sequence. */
module QualifyTheorems {
  import opened Qualify
  import opened Strings

  // ---- nothing but table names changes

  /** The tokens the pieces were made from. */
  function Source(ps: seq<Piece>): seq<Token> {
    if ps == [] then []
    else
      (match ps[0]
       case Other(t) => [t]
       case Reference(ts) => ts
       case Table(t) => [t]) + Source(ps[1..])
  }

  lemma {:induction false} SourceIsInput(ts: seq<Token>, s: State)
    ensures Source(Plan(ts, s)) == ts
    decreases |ts|
  {
    hide RoleOf, Known, TailLen, Advance;
    if ts != [] {
      var ps := Plan(ts, s);
      if InPosition(s, ts[0]) {
        var n := TailLen(ts[1..]);
        SourceIsInput(ts[1 + n..], s.(awaiting := false));
        assert n == 0 ==> ts[..1] == [ts[0]];
        assert Source(ps) == ts[..1 + n] + Source(ps[1..]);
        assert ts == ts[..1 + n] + ts[1 + n..];
      } else {
        SourceIsInput(ts[1..], Advance(s, ts[0]));
      }
    }
  }

  lemma {:induction false} TablesAreKnown(ts: seq<Token>, s: State)
    ensures forall p <- Plan(ts, s) :: p.Table? ==> Known(p.token)
    decreases |ts|
  {
    hide RoleOf, Known, TailLen, Advance;
    if ts != [] {
      var ps := Plan(ts, s);
      if InPosition(s, ts[0]) {
        TablesAreKnown(ts[1 + TailLen(ts[1..])..], s.(awaiting := false));
      } else {
        TablesAreKnown(ts[1..], Advance(s, ts[0]));
      }
      assert forall p <- ps :: p == ps[0] || p in ps[1..];
    }
  }

  /** Erasing the inserted prefixes gives back the input, and only known words get one; what is put in a
      table's place differs from it by case alone. */
  lemma OnlyTablesChange(ts: seq<Token>, s: State)
    ensures Source(Plan(ts, s)) == ts
    ensures forall p <- Plan(ts, s) :: p.Table? ==> Known(p.token)
  {
    SourceIsInput(ts, s);
    TablesAreKnown(ts, s);
  }

  /** String literals, quoted names and comments, in order. */
  function Opaque(ts: seq<Token>): seq<Token> {
    if ts == [] then [] else OpaqueOnly(ts[0]) + Opaque(ts[1..])
  }

  function OpaqueOnly(t: Token): seq<Token> {
    if t.kind.Str? || t.kind.Comment? then [t] else []
  }

  lemma {:induction false} OpaqueSplit(a: seq<Token>, b: seq<Token>)
    ensures Opaque(a + b) == Opaque(a) + Opaque(b)
  {
    if a == [] {
      assert a + b == b;
    } else {
      hide OpaqueOnly;
      assert (a + b)[1..] == a[1..] + b;
      OpaqueSplit(a[1..], b);
      var head := OpaqueOnly(a[0]);
      assert head + (Opaque(a[1..]) + Opaque(b)) == (head + Opaque(a[1..])) + Opaque(b);
    }
  }

  lemma NoOpaque(ts: seq<Token>)
    requires forall t <- ts :: !t.kind.Str? && !t.kind.Comment?
    ensures Opaque(ts) == []
  {
  }

  lemma {:induction false} OpaqueKept(ps: seq<Piece>, database: string)
    requires forall p <- ps :: p.Table? ==> Known(p.token)
    ensures Opaque(Render(ps, database)) == Opaque(Source(ps))
  {
    hide Known;
    if ps != [] {
      OpaqueKept(ps[1..], database);
      OpaqueSplit(RenderPiece(ps[0], database), Render(ps[1..], database));
      match ps[0]
      case Other(t) => OpaqueSplit([t], Source(ps[1..]));
      case Reference(ts) => OpaqueSplit(ts, Source(ps[1..]));
      case Table(t) =>
        OpaqueSplit([t], Source(ps[1..]));
        KnownIsWord(t);
        NoOpaque([t]);
        NoOpaque(Qualified(t, database));
    }
  }

  lemma KnownIsWord(t: Token)
    requires Known(t)
    ensures t.kind.Word?
  {
  }

  /** Strings and comments come out as they went in. */
  lemma OpaqueUntouched(ts: seq<Token>, s: State, database: string)
    ensures Opaque(Rewrite(ts, s, database)) == Opaque(ts)
  {
    hide Known, Plan, Render;
    OnlyTablesChange(ts, s);
    OpaqueKept(Plan(ts, s), database);
  }

  // ---- rewriting twice is rewriting once

  lemma RewriteUnfold(ts: seq<Token>, s: State, database: string)
    requires ts != []
    ensures Rewrite(ts, s, database) ==
            if InPosition(s, ts[0]) then
              var n := TailLen(ts[1..]);
              (if n == 0 && Known(ts[0]) then Qualified(ts[0], database) else ts[..1 + n])
              + Rewrite(ts[1 + n..], s.(awaiting := false), database)
            else [ts[0]] + Rewrite(ts[1..], Advance(s, ts[0]), database)
  {
    hide RoleOf, Known, TailLen, Advance;
    var ps := Plan(ts, s);
    assert Render(ps, database) == RenderPiece(ps[0], database) + Render(ps[1..], database);
  }

  /** Out of table position the first token stays what it is. */
  lemma FirstStays(ts: seq<Token>, s: State, database: string)
    requires !s.awaiting
    ensures ts == [] <==> Rewrite(ts, s, database) == []
    ensures ts != [] ==>
              && Rewrite(ts, s, database)[0] == ts[0]
              && Rewrite(ts, s, database)[1..] == Rewrite(ts[1..], Advance(s, ts[0]), database)
  {
    hide RoleOf, Known, TailLen, Advance, Qualified;
    if ts != [] {
      RewriteUnfold(ts, s, database);
    }
  }

  lemma SilentStays(s: State, t: Token)
    requires t.kind.Ws? || t == Token(Punct, ".")
    ensures Advance(s, t) == s
  {
  }

  lemma SkipStays(ts: seq<Token>, s: State, database: string)
    requires !s.awaiting
    ensures var out := Rewrite(ts, s, database);
            SkipWs(out) == SkipWs(ts) && out[SkipWs(ts)..] == Rewrite(ts[SkipWs(ts)..], s, database)
  {
    hide Rewrite, Advance;
    FirstStays(ts, s, database);
    if SkipWs(ts) == 1 {
      SilentStays(s, ts[0]);
    }
  }

  /** A dotted tail follows in the output exactly when one follows in the input. */
  lemma DotStays(ts: seq<Token>, s: State, database: string)
    requires !s.awaiting
    ensures OneDot(Rewrite(ts, s, database)) == OneDot(ts)
  {
    hide Rewrite, Advance;
    var out, k := Rewrite(ts, s, database), SkipWs(ts);
    SkipStays(ts, s, database);
    var ts1 := ts[k..];
    FirstStays(ts1, s, database);
    if ts1 != [] && ts1[0] == Token(Punct, ".") {
      SilentStays(s, ts1[0]);
      var ts2 := ts1[1..];
      assert ts2 == ts[k + 1..] && out[k + 1..] == Rewrite(ts2, s, database);
      SkipStays(ts2, s, database);
      var n := SkipWs(ts2);
      FirstStays(ts2[n..], s, database);
    }
  }

  lemma TailEnds(ts: seq<Token>)
    ensures OneDot(ts[TailLen(ts)..]) == 0
    decreases |ts|
  {
    var n := OneDot(ts);
    if n > 0 {
      TailEnds(ts[n..]);
      assert ts[n..][TailLen(ts[n..])..] == ts[TailLen(ts)..];
    } else {
      assert ts[0..] == ts;
    }
  }

  lemma OneDotFront(a: seq<Token>, b: seq<Token>)
    requires OneDot(a) > 0
    ensures OneDot(a + b) == OneDot(a)
  {
    OneDotAt(a, 0);
    OneDotAt(a + b, 0);
    assert a[0..] == a && (a + b)[0..] == a + b;
  }

  /** A complete tail is still the tail when what follows it changes but does not start with a dot. */
  lemma {:induction false} TailStays(ts: seq<Token>, rest: seq<Token>)
    requires OneDot(rest) == 0
    ensures TailLen(ts[..TailLen(ts)] + rest) == TailLen(ts)
    decreases |ts|
  {
    hide OneDot;
    var n := OneDot(ts);
    if n == 0 {
      assert ts[..0] + rest == rest;
    } else {
      var tail := ts[..TailLen(ts)];
      OneDotCut(ts, TailLen(ts));
      OneDotFront(tail, rest);
      TailStays(ts[n..], rest);
      assert (tail + rest)[n..] == ts[n..][..TailLen(ts[n..])] + rest;
    }
  }

  lemma OneDotCut(ts: seq<Token>, n: nat)
    requires 0 < OneDot(ts) <= n <= |ts|
    ensures OneDot(ts[..n]) == OneDot(ts)
  {
    OneDotAt(ts, 0);
    OneDotAt(ts[..n], 0);
    assert ts[0..] == ts && ts[..n][0..] == ts[..n];
  }

  lemma GlueIsPlain()
    ensures RoleOf(Token(Word, "glue")) == Plain
  {
    var g := "glue";
    LowerIsLower(g);
    assert g[0] == 'g' && |g| == 4;
    assert forall w <- TABLE_REF_START + FROM_LIST_HARD_END + FROM_LIST_SOFT_END :: |w| != 4 || w[0] != 'g';
  }

  lemma QualifiedTail(t: Token, database: string, rest: seq<Token>)
    requires OneDot(rest) == 0
    ensures TailLen(Qualified(t, database)[1..] + rest) == 4
  {
    var tail := Qualified(t, database)[1..];
    var all := tail + rest;
    OneDotAt(all, 0);
    OneDotAt(all, 2);
    assert all[0..] == all;
    assert all[2..][2..] == rest;
  }

  /** The rewriter's output passes through it unchanged. */
  lemma {:induction false} Idempotent(ts: seq<Token>, s: State, database: string)
    ensures Rewrite(Rewrite(ts, s, database), s, database) == Rewrite(ts, s, database)
    decreases |ts|
  {
    hide RoleOf, Known, TailLen, Advance, Rewrite, Qualified, OneDot;
    if ts == [] {
      Nothing(s, database);
    } else if InPosition(s, ts[0]) {
      var s' := s.(awaiting := false);
      var n := TailLen(ts[1..]);
      var rest := Rewrite(ts[1 + n..], s', database);
      RewriteUnfold(ts, s, database);
      Idempotent(ts[1 + n..], s', database);
      TailEnds(ts[1..]);
      assert ts[1..][n..] == ts[1 + n..];
      DotStays(ts[1 + n..], s', database);
      if n == 0 && Known(ts[0]) {
        QualifiedAgain(ts[0], s, database, rest);
      } else {
        ReferenceAgain(ts, s, database, rest);
      }
    } else {
      RewriteUnfold(ts, s, database);
      Idempotent(ts[1..], Advance(s, ts[0]), database);
      var out := Rewrite(ts, s, database);
      RewriteUnfold(out, s, database);
      assert out[1..] == Rewrite(ts[1..], Advance(s, ts[0]), database);
    }
  }

  lemma QualifiedAgain(t: Token, s: State, database: string, rest: seq<Token>)
    requires s.awaiting && OneDot(rest) == 0
    requires Rewrite(rest, s.(awaiting := false), database) == rest
    ensures Rewrite(Qualified(t, database) + rest, s, database) == Qualified(t, database) + rest
  {
    hide RoleOf, Known, TailLen, Advance, Rewrite, OneDot;
    var out := Qualified(t, database) + rest;
    GlueIsPlain();
    QualifiedTail(t, database, rest);
    assert out[1..] == Qualified(t, database)[1..] + rest;
    RewriteUnfold(out, s, database);
    assert out[..5] == Qualified(t, database) && out[5..] == rest;
  }

  lemma ReferenceAgain(ts: seq<Token>, s: State, database: string, rest: seq<Token>)
    requires ts != [] && InPosition(s, ts[0]) && OneDot(rest) == 0
    requires TailLen(ts[1..]) != 0 || !Known(ts[0])
    requires Rewrite(rest, s.(awaiting := false), database) == rest
    ensures var n := TailLen(ts[1..]);
            Rewrite(ts[..1 + n] + rest, s, database) == ts[..1 + n] + rest
  {
    hide RoleOf, Known, TailLen, Advance, Rewrite, OneDot;
    var n := TailLen(ts[1..]);
    var out := ts[..1 + n] + rest;
    TailStays(ts[1..], rest);
    assert out[1..] == ts[1..][..n] + rest;
    RewriteUnfold(out, s, database);
    assert out[..1 + n] == ts[..1 + n] && out[1 + n..] == rest;
  }

  // ---- quoted names

  /** A quoted name does not end the table position: its alias, if it is a known table's name, is
      rewritten. */
  lemma AliasOfQuotedNameIsRewritten(quoted: Token, space: Token, alias: Token, database: string)
    requires quoted.kind.Str? && space.kind.Ws? && Known(alias)
    ensures var from_ := Token(Word, "from");
            Rewrite([from_, space, quoted, space, alias], START, database) ==
            [from_, space, quoted, space] + Qualified(alias, database)
  {
    AfterFrom([space, quoted, space], alias, database);
    var from_ := Token(Word, "from");
    assert [from_] + [space, quoted, space] + [alias] == [from_, space, quoted, space, alias];
    assert [from_] + [space, quoted, space] == [from_, space, quoted, space];
  }

  /** Nor does a quoted database name: the table after its dot is rewritten too. */
  lemma TableOfQuotedDatabaseIsRewritten(quoted: Token, space: Token, table: Token, database: string)
    requires quoted.kind.Str? && space.kind.Ws? && Known(table)
    ensures var from_, dot := Token(Word, "from"), Token(Punct, ".");
            Rewrite([from_, space, quoted, dot, table], START, database) ==
            [from_, space, quoted, dot] + Qualified(table, database)
  {
    var from_, dot := Token(Word, "from"), Token(Punct, ".");
    AfterFrom([space, quoted, dot], table, database);
    assert [from_] + [space, quoted, dot] + [table] == [from_, space, quoted, dot, table];
    assert [from_] + [space, quoted, dot] == [from_, space, quoted, dot];
  }

  /** Nor is a table with a quoted name after its dot taken for qualified. */
  lemma DatabaseOfQuotedTableIsRewritten(quoted: Token, space: Token, table: Token, database: string)
    requires quoted.kind.Str? && space.kind.Ws? && Known(table)
    ensures var from_, dot := Token(Word, "from"), Token(Punct, ".");
            Rewrite([from_, space, table, dot, quoted], START, database) ==
            [from_, space] + Qualified(table, database) + [dot, quoted]
  {
    var from_, dot := Token(Word, "from"), Token(Punct, ".");
    AfterFromThen([space], table, [dot, quoted], database);
    OneDotAt([dot, quoted], 0);
    assert [dot, quoted][0..] == [dot, quoted];
    var s := START.(inFrom := true);
    hide RoleOf, Known, Qualified, Rewrite, Plan;
    SilentRoles(dot);
    SilentRoles(quoted);
    OneMore(dot, [quoted], s, database);
    OneMore(quoted, [], s, database);
    Nothing(s, database);
    assert [dot] + [quoted] == [dot, quoted] && [quoted] + [] == [quoted];
    assert [from_] + [space] + [table] + [dot, quoted] == [from_, space, table, dot, quoted];
    assert [from_] + [space] == [from_, space];
  }

  lemma AfterFrom(between: seq<Token>, table: Token, database: string)
    requires (forall t <- between :: t.kind.Str? || t.kind.Ws? || t == Token(Punct, ".")) && Known(table)
    ensures var from_ := [Token(Word, "from")];
            Rewrite(from_ + between + [table], START, database) == from_ + between + Qualified(table, database)
  {
    hide RoleOf, Known, Qualified, Rewrite, Plan;
    AfterFromThen(between, table, [], database);
    Nothing(START.(inFrom := true), database);
    var from_ := [Token(Word, "from")];
    assert from_ + between + [table] + [] == from_ + between + [table];
    assert from_ + between + Qualified(table, database) + [] == from_ + between + Qualified(table, database);
  }

  lemma AfterFromThen(between: seq<Token>, table: Token, rest: seq<Token>, database: string)
    requires (forall t <- between :: t.kind.Str? || t.kind.Ws? || t == Token(Punct, ".")) && Known(table)
    requires OneDot(rest) == 0
    ensures var from_ := [Token(Word, "from")];
            Rewrite(from_ + between + [table] + rest, START, database) ==
            from_ + between + Qualified(table, database) + Rewrite(rest, START.(inFrom := true), database)
  {
    hide RoleOf, Known, Qualified, Rewrite, Plan, OneDot;
    var from_ := Token(Word, "from");
    var s, q := START.(awaiting := true, inFrom := true), Qualified(table, database);
    FromStarts();
    OneMore(from_, between + [table] + rest, START, database);
    StillAwaiting(between, table, rest, s, database);
    var tail := Rewrite(rest, START.(inFrom := true), database);
    assert s.(awaiting := false) == START.(inFrom := true);
    assert [from_] + between + [table] + rest == [from_] + (between + [table] + rest);
    assert [from_] + between + q + tail == [from_] + (between + q + tail);
  }

  lemma {:induction false} StillAwaiting(between: seq<Token>, table: Token, rest: seq<Token>, s: State, database: string)
    requires forall t <- between :: t.kind.Str? || t.kind.Ws? || t == Token(Punct, ".")
    requires Known(table) && s.awaiting && OneDot(rest) == 0
    ensures Rewrite(between + [table] + rest, s, database) ==
            between + Qualified(table, database) + Rewrite(rest, s.(awaiting := false), database)
    decreases |between|
  {
    hide RoleOf, Known, Qualified, Rewrite, Plan, OneDot;
    var q, tail := Qualified(table, database), Rewrite(rest, s.(awaiting := false), database);
    if between == [] {
      assert between + [table] + rest == [table] + rest && ([table] + rest)[1..] == rest;
      assert between + q + tail == q + tail;
      KnownIsPlain(table);
      RewriteUnfold([table] + rest, s, database);
    } else {
      var t, more := between[0], between[1..];
      assert t in between;
      SilentRoles(t);
      assert between + [table] + rest == [t] + (more + [table] + rest);
      OneMore(t, more + [table] + rest, s, database);
      StillAwaiting(more, table, rest, s, database);
      assert [t] + (more + q + tail) == between + q + tail;
    }
  }

  /** No table has the name of a keyword. */
  lemma KnownIsPlain(t: Token)
    requires Known(t)
    ensures RoleOf(t).Plain?
  {
  }

  lemma OneMore(t: Token, rest: seq<Token>, s: State, database: string)
    requires !InPosition(s, t)
    ensures Rewrite([t] + rest, s, database) == [t] + Rewrite(rest, Advance(s, t), database)
  {
    hide RoleOf, Known, Qualified, Rewrite, Plan, Advance;
    RewriteUnfold([t] + rest, s, database);
    assert ([t] + rest)[1..] == rest;
  }

  lemma SilentRoles(t: Token)
    requires t.kind.Str? || t.kind.Ws? || t == Token(Punct, ".")
    ensures RoleOf(t).Silent?
  {
  }

  lemma FromStarts()
    ensures RoleOf(Token(Word, "from")).Start?
  {
    LowerIsLower("from");
  }
}
