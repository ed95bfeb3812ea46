/** Which names the qualifier rewrites, read off the tokens before and after each of them, without its flags and
    its stack. */
module QualifyPositions {
  import opened Qualify
  import opened QualifyTheorems
  import opened Strings

  // ---- reading back

  const DOT := Token(Punct, ".")

  function DropWs(ts: seq<Token>): (r: seq<Token>)
    ensures |r| <= |ts|
  {
    if ts != [] && ts[|ts| - 1].kind.Ws? then ts[..|ts| - 1] else ts
  }

  /** A word here would be in the dotted tail of a name in table position. */
  predicate InTail(before: seq<Token>)
    decreases |before|, 0
  {
    var a := DropWs(before);
    && a != [] && a[|a| - 1] == DOT
    && var b := DropWs(a[..|a| - 1]);
       b != [] && b[|b| - 1].kind.Word? && IsName(b[..|b| - 1], b[|b| - 1])
  }

  /** The word `t` is a name in table position, or in the dotted tail of one. */
  predicate IsName(before: seq<Token>, t: Token)
    decreases |before|, 2
  {
    InTail(before) || (RoleOf(t).Plain? && Awaits(before))
  }

  /** In such a tail even a keyword is just a word. */
  function RoleAfter(before: seq<Token>, t: Token): Role
    decreases |before|, 1
  {
    if t.kind.Word? && InTail(before) then Plain else RoleOf(t)
  }

  /** Is what follows inside a FROM list, once `closed` more brackets are closed? Brackets already closed are
      stepped over whole; an open one, or a clause keyword, ends the list. */
  predicate InFrom(before: seq<Token>, closed: nat)
    decreases |before|, 0
  {
    if before == [] then false
    else
      var front := before[..|before| - 1];
      match RoleAfter(front, before[|before| - 1])
      case Close => InFrom(front, closed + 1)
      case Open => closed > 0 && InFrom(front, closed - 1)
      case Start => closed == 0 || InFrom(front, closed)
      case HardEnd => closed > 0 && InFrom(front, closed)
      case _ => InFrom(front, closed)
  }

  /** And is it in table position: after FROM, JOIN or INTO or a comma of the FROM list, with only spaces,
      literals, comments and other punctuation in between? */
  predicate Awaits(before: seq<Token>)
    decreases |before|, 0
  {
    if before == [] then false
    else
      var front := before[..|before| - 1];
      match RoleAfter(front, before[|before| - 1])
      case Silent => Awaits(front)
      case Start => true
      case Comma => InFrom(front, 0)
      case _ => false
  }

  // ---- one token on

  lemma InFromSnoc(before: seq<Token>, t: Token, closed: nat)
    ensures InFrom(before + [t], closed) ==
            match RoleAfter(before, t)
            case Close => InFrom(before, closed + 1)
            case Open => closed > 0 && InFrom(before, closed - 1)
            case Start => closed == 0 || InFrom(before, closed)
            case HardEnd => closed > 0 && InFrom(before, closed)
            case _ => InFrom(before, closed)
  {
    hide RoleAfter;
    var all := before + [t];
    assert all[..|all| - 1] == before;
  }

  lemma AwaitsSnoc(before: seq<Token>, t: Token)
    ensures Awaits(before + [t]) ==
            match RoleAfter(before, t)
            case Silent => Awaits(before)
            case Start => true
            case Comma => InFrom(before, 0)
            case _ => false
  {
    hide RoleAfter, InFrom;
    var all := before + [t];
    assert all[..|all| - 1] == before;
  }

  // ---- the flags and the stack hold what reading back finds

  ghost predicate Level(before: seq<Token>, stack: seq<(bool, bool)>, d: nat) {
    d >= 1 ==> (InFrom(before, d) <==> d <= |stack| && stack[|stack| - d].1)
  }

  ghost predicate Holds(before: seq<Token>, s: State) {
    && (s.awaiting <==> Awaits(before))
    && (s.inFrom <==> InFrom(before, 0))
    && (s.awaiting ==> s.inFrom)
    && forall d: nat :: Level(before, s.stack, d)
  }

  lemma AdvanceLevel(before: seq<Token>, s: State, t: Token, d: nat)
    requires Holds(before, s) && RoleAfter(before, t) == RoleOf(t)
    ensures Level(before + [t], Advance(s, t).stack, d)
  {
    hide RoleOf, RoleAfter, Awaits, InFrom;
    InFromSnoc(before, t, d);
    assert Level(before, s.stack, d) && Level(before, s.stack, d + 1);
    assert d >= 1 ==> Level(before, s.stack, d - 1);
  }

  lemma AdvanceHolds(before: seq<Token>, s: State, t: Token)
    requires Holds(before, s) && !InPosition(s, t) && RoleAfter(before, t) == RoleOf(t)
    ensures Holds(before + [t], Advance(s, t))
  {
    hide RoleOf, RoleAfter, Awaits, InFrom;
    InFromSnoc(before, t, 0);
    AwaitsSnoc(before, t);
    assert Level(before, s.stack, 1);
    forall d: nat
      ensures Level(before + [t], Advance(s, t).stack, d)
    {
      AdvanceLevel(before, s, t, d);
    }
  }

  // ---- a name and its tail

  /** The last token is a word that is a name. */
  predicate EndsInName(ts: seq<Token>) {
    ts != [] && ts[|ts| - 1].kind.Word? && IsName(ts[..|ts| - 1], ts[|ts| - 1])
  }

  lemma NameThen(before: seq<Token>, t: Token)
    requires t.kind.Word? && IsName(before, t)
    ensures EndsInName(before + [t])
  {
    hide IsName;
    assert (before + [t])[..|before|] == before;
  }

  /** Spaces and dots change nothing. */
  lemma SilentSnoc(before: seq<Token>, t: Token, closed: nat)
    requires t.kind.Ws? || t == DOT
    ensures InFrom(before + [t], closed) == InFrom(before, closed)
  {
    hide InFrom;
    SilentRoles(t);
    InFromSnoc(before, t, closed);
  }

  lemma PlainSnoc(before: seq<Token>, t: Token, closed: nat)
    requires RoleAfter(before, t).Plain?
    ensures InFrom(before + [t], closed) == InFrom(before, closed) && !Awaits(before + [t])
  {
    hide InFrom, RoleAfter, Awaits;
    InFromSnoc(before, t, closed);
    AwaitsSnoc(before, t);
  }

  /** What comes before the word of one `. word`. */
  lemma UnitShape(ts: seq<Token>) returns (w1: seq<Token>, w2: seq<Token>)
    requires OneDot(ts) > 0
    ensures |w1| <= 1 && |w2| <= 1 && (forall t <- w1 :: t.kind.Ws?) && (forall t <- w2 :: t.kind.Ws?)
    ensures var n := OneDot(ts); ts[..n - 1] == w1 + [DOT] + w2 && ts[n - 1].kind.Word? && n == |w1| + |w2| + 2
  {
    OneDotAt(ts, 0);
    assert ts[0..] == ts;
    var k := SkipWs(ts);
    w1 := ts[..k];
    w2 := if ts[k + 1].kind.Ws? then [ts[k + 1]] else [];
  }

  lemma DropLastWs(x: seq<Token>, w: seq<Token>)
    requires x != [] && !x[|x| - 1].kind.Ws? && |w| <= 1 && forall t <- w :: t.kind.Ws?
    ensures DropWs(x + w) == x
  {
    if w == [] {
      assert x + w == x;
    } else {
      assert (x + w)[|x + w| - 1] == w[0] && (x + w)[..|x|] == x;
    }
  }

  lemma WsAfter(x: seq<Token>, w: seq<Token>, closed: nat)
    requires |w| <= 1 && forall t <- w :: t.kind.Ws?
    ensures InFrom(x + w, closed) == InFrom(x, closed)
  {
    hide InFrom;
    if w == [] {
      assert x + w == x;
    } else {
      assert w == [w[0]];
      SilentSnoc(x, w[0], closed);
    }
  }

  /** After a name, a dot with its spaces leads into the tail and leaves the FROM list as it is. */
  lemma DotAfterName(x: seq<Token>, w1: seq<Token>, w2: seq<Token>, closed: nat)
    requires EndsInName(x) && |w1| <= 1 && |w2| <= 1 && (forall t <- w1 :: t.kind.Ws?) && (forall t <- w2 :: t.kind.Ws?)
    ensures InTail(x + w1 + [DOT] + w2)
    ensures InFrom(x + w1 + [DOT] + w2, closed) == InFrom(x, closed)
  {
    hide IsName, InFrom, DropWs;
    var a := x + w1 + [DOT];
    DropLastWs(x, w1);
    DropLastWs(a, w2);
    assert a[..|a| - 1] == x + w1;
    WsAfter(x, w1, closed);
    SilentSnoc(x + w1, DOT, closed);
    WsAfter(a, w2, closed);
  }

  /** And the word there is a name again, out of position. */
  lemma UnitAfterName(x: seq<Token>, ts: seq<Token>, closed: nat)
    requires EndsInName(x) && OneDot(ts) > 0
    ensures var n := OneDot(ts); var y := x + ts[..n];
            InTail(x + ts[..n - 1]) && EndsInName(y) && InFrom(y, closed) == InFrom(x, closed) && !Awaits(y)
  {
    hide OneDot, InFrom, Awaits, EndsInName, InTail;
    var n := OneDot(ts);
    var w1, w2 := UnitShape(ts);
    var front, word := x + ts[..n - 1], ts[n - 1];
    assert front == x + w1 + [DOT] + w2;
    DotAfterName(x, w1, w2, closed);
    PlainSnoc(front, word, closed);
    NameThen(front, word);
    assert front + [word] == x + ts[..n];
  }

  lemma TakeOn(x: seq<Token>, ts: seq<Token>, n: nat, i: nat)
    requires n <= i <= |ts|
    ensures x + ts[..n] + ts[n..][..i - n] == x + ts[..i]
  {
    assert ts[..n] + ts[n..][..i - n] == ts[..i];
    assert x + ts[..n] + ts[n..][..i - n] == x + (ts[..n] + ts[n..][..i - n]);
  }

  lemma UnfoldTail(ts: seq<Token>)
    requires OneDot(ts) > 0
    ensures TailLen(ts) == OneDot(ts) + TailLen(ts[OneDot(ts)..])
  {
    hide OneDot;
  }

  /** A whole tail after a name: it ends in a name again, out of position, in the same FROM list. */
  lemma {:induction false} TailAfterName(x: seq<Token>, ts: seq<Token>, closed: nat)
    requires EndsInName(x)
    ensures var y := x + ts[..TailLen(ts)];
            EndsInName(y) && InFrom(y, closed) == InFrom(x, closed) && (TailLen(ts) > 0 ==> !Awaits(y))
    decreases |ts|
  {
    hide OneDot, InFrom, Awaits, EndsInName, InTail, TailLen;
    var n := OneDot(ts);
    if n == 0 {
      assert x + ts[..0] == x;
    } else {
      UnitAfterName(x, ts, closed);
      UnfoldTail(ts);
      TakeOn(x, ts, n, TailLen(ts));
      TailAfterName(x + ts[..n], ts[n..], closed);
    }
  }

  lemma ReferenceHolds(before: seq<Token>, s: State, ts: seq<Token>)
    requires Holds(before, s) && ts != [] && InPosition(s, ts[0])
    ensures Holds(before + ts[..1 + TailLen(ts[1..])], s.(awaiting := false))
  {
    hide InFrom, Awaits, RoleOf, TailLen, EndsInName;
    var t, n := ts[0], TailLen(ts[1..]);
    var x, y := before + [t], before + ts[..1 + n];
    PlainIsWord(t);
    NameThen(before, t);
    assert y == x + ts[1..][..n];
    forall d: nat
      ensures InFrom(y, d) == InFrom(before, d) && !Awaits(y)
    {
      PlainSnoc(before, t, d);
      TailAfterName(x, ts[1..], d);
      assert n == 0 ==> y == x;
    }
    forall d: nat
      ensures Level(y, s.stack, d)
    {
      assert Level(before, s.stack, d);
    }
  }

  lemma PlainIsWord(t: Token)
    requires RoleOf(t).Plain?
    ensures t.kind.Word?
  {
  }

  // ---- no tail is cut in two

  /** The `. word` after a name before here, if there is one, is before here too. */
  ghost predicate Whole(before: seq<Token>, ts: seq<Token>) {
    forall k: nat | k < |before| :: WholeAt(before, ts, k)
  }

  ghost predicate WholeAt(before: seq<Token>, ts: seq<Token>, k: nat)
    requires k < |before|
  {
    EndsInName(before[..k + 1]) ==> OneDot(before[k + 1..] + ts) <= |before| - k - 1
  }

  /** So the next word is in no tail. */
  lemma NextIsFree(before: seq<Token>, ts: seq<Token>)
    requires Whole(before, ts) && ts != [] && ts[0].kind.Word?
    ensures !InTail(before)
  {
    if InTail(before) {
      var a := DropWs(before);
      var b := DropWs(a[..|a| - 1]);
      var k := |b| - 1;
      assert b == before[..k + 1];
      assert EndsInName(before[..k + 1]);
      assert WholeAt(before, ts, k);
      CrossingDot(before, ts, k);
      assert false;
    }
  }

  lemma CrossingDot(before: seq<Token>, ts: seq<Token>, k: nat)
    requires ts != [] && ts[0].kind.Word?
    requires var a := DropWs(before);
             a != [] && a[|a| - 1] == DOT && k < |before| && before[..k + 1] == DropWs(a[..|a| - 1])
    requires before[k].kind.Word?
    ensures OneDot(before[k + 1..] + ts) == |before| - k
  {
    var a, g := DropWs(before), before[k + 1..];
    OneDotAt(g + ts, 0);
    assert (g + ts)[0..] == g + ts;
    assert before[|a| - 1] == DOT;
  }

  lemma OtherIsWhole(before: seq<Token>, ts: seq<Token>)
    requires Whole(before, ts) && ts != [] && !(ts[0].kind.Word? && IsName(before, ts[0]))
    ensures Whole(before + [ts[0]], ts[1..])
  {
    hide IsName, OneDot;
    var before', ts' := before + [ts[0]], ts[1..];
    forall k: nat | k < |before'|
      ensures WholeAt(before', ts', k)
    {
      if k < |before| {
        assert WholeAt(before, ts, k);
        assert before'[..k + 1] == before[..k + 1];
        assert before'[k + 1..] + ts' == before[k + 1..] + ts;
      } else {
        assert before'[..k + 1] == before' && before'[..|before'| - 1] == before;
      }
    }
  }

  lemma OnlyWord(ts: seq<Token>, i: nat)
    requires i < OneDot(ts) && ts[i].kind.Word?
    ensures i == OneDot(ts) - 1
  {
  }

  /** After a word of a tail the next `. word` is within the tail, or there is none. */
  lemma {:induction false} TailWords(ts: seq<Token>, i: nat)
    requires i < TailLen(ts) && ts[i].kind.Word?
    ensures i + 1 + OneDot(ts[i + 1..]) <= TailLen(ts)
    decreases |ts|
  {
    hide OneDot, TailLen;
    var n := OneDot(ts);
    UnfoldTail(ts);
    if i < n {
      OnlyWord(ts, i);
      DotWithinTail(ts[n..]);
    } else {
      TailWords(ts[n..], i - n);
      assert ts[n..][i - n + 1..] == ts[i + 1..];
    }
  }

  lemma ReferenceIsWhole(before: seq<Token>, ts: seq<Token>)
    requires Whole(before, ts) && ts != []
    ensures var m := 1 + TailLen(ts[1..]); Whole(before + ts[..m], ts[m..])
  {
    hide IsName, OneDot, TailLen;
    var m := 1 + TailLen(ts[1..]);
    var before', ts' := before + ts[..m], ts[m..];
    forall k: nat | k < |before'|
      ensures WholeAt(before', ts', k)
    {
      if k < |before| {
        assert WholeAt(before, ts, k);
        assert before'[..k + 1] == before[..k + 1];
        assert before'[k + 1..] + ts' == before[k + 1..] + ts;
      } else {
        var i := k - |before|;
        assert before'[k + 1..] + ts' == ts[i + 1..] && before'[..k + 1][k] == ts[i];
        if i == 0 {
          DotWithinTail(ts[1..]);
        } else if ts[i].kind.Word? {
          TailWords(ts[1..], i - 1);
          assert ts[1..][i - 1 + 1..] == ts[i + 1..];
        }
      }
    }
  }

  lemma DotWithinTail(ts: seq<Token>)
    ensures OneDot(ts) <= TailLen(ts)
  {
  }

  // ---- the theorem

  /** Token `n` of the pieces' source is one that is rewritten. */
  ghost predicate RewrittenAt(ps: seq<Piece>, n: nat) {
    exists k: nat :: k < |ps| && |Source(ps[..k])| == n && ps[k].Table?
  }

  lemma {:induction false} SourceSplit(a: seq<Piece>, b: seq<Piece>)
    ensures Source(a + b) == Source(a) + Source(b)
  {
    if a == [] {
      assert a + b == b;
    } else {
      assert (a + b)[1..] == a[1..] + b;
      SourceSplit(a[1..], b);
    }
  }

  lemma FirstPiece(p: Piece, ps: seq<Piece>, n: nat)
    requires |Source([p])| > 0
    ensures n == 0 ==> (RewrittenAt([p] + ps, n) <==> p.Table?)
    ensures 0 < n < |Source([p])| ==> !RewrittenAt([p] + ps, n)
    ensures n >= |Source([p])| ==> (RewrittenAt([p] + ps, n) <==> RewrittenAt(ps, n - |Source([p])|))
  {
    var all := [p] + ps;
    forall k: nat | 0 < k <= |all|
      ensures |Source(all[..k])| == |Source([p])| + |Source(ps[..k - 1])|
    {
      assert all[..k] == [p] + ps[..k - 1];
      SourceSplit([p], ps[..k - 1]);
    }
    assert all[..0] == [] && Source([]) == [];
    if n == 0 && p.Table? {
      assert all[0] == p;
    }
    if n >= |Source([p])| {
      if k: nat :| k < |ps| && |Source(ps[..k])| == n - |Source([p])| && ps[k].Table? {
        assert all[k + 1] == ps[k] && |Source(all[..k + 1])| == n;
      }
      if k: nat :| k < |all| && |Source(all[..k])| == n && all[k].Table? {
        assert k > 0 && ps[k - 1] == all[k];
      }
    }
  }

  /** The word is a known table's name in table position, not in another name's tail, and no dot with a word
      follows it. */
  predicate Bare(before: seq<Token>, t: Token, rest: seq<Token>) {
    Awaits(before) && !InTail(before) && RoleOf(t).Plain? && Known(t) && OneDot(rest) == 0
  }

  lemma {:induction false} PlanRewrites(before: seq<Token>, ts: seq<Token>, s: State, n: nat)
    requires Holds(before, s) && Whole(before, ts) && n < |ts|
    ensures RewrittenAt(Plan(ts, s), n) <==> Bare(before + ts[..n], ts[n], ts[n + 1..])
    decreases |ts|
  {
    hide RoleOf, Known, TailLen, Advance, OneDot, Holds, Awaits, InTail, Whole, RewrittenAt;
    var t := ts[0];
    assert before + ts[..0] == before;
    HoldsAwaits(before, s);
    if t.kind.Word? {
      NextIsFree(before, ts);
    }
    if InPosition(s, t) {
      var m := 1 + TailLen(ts[1..]);
      PlainIsWord(t);
      ReferencePiece(before, ts, s, n);
      ReferenceHolds(before, s, ts);
      ReferenceIsWhole(before, ts);
      if n >= m {
        PlanRewrites(before + ts[..m], ts[m..], s.(awaiting := false), n - m);
        assert before + ts[..m] + ts[m..][..n - m] == before + ts[..n];
        assert ts[m..][n - m + 1..] == ts[n + 1..];
      }
    } else {
      OtherPiece(ts, s, n);
      NotAName(before, s, t);
      OtherIsWhole(before, ts);
      AdvanceHolds(before, s, t);
      if n > 0 {
        PlanRewrites(before + [t], ts[1..], Advance(s, t), n - 1);
        assert before + [t] + ts[1..][..n - 1] == before + ts[..n];
        assert ts[1..][n - 1 + 1..] == ts[n + 1..];
      }
    }
  }

  lemma HoldsAwaits(before: seq<Token>, s: State)
    requires Holds(before, s)
    ensures s.awaiting <==> Awaits(before)
  {
  }

  lemma NotAName(before: seq<Token>, s: State, t: Token)
    requires Holds(before, s) && !InPosition(s, t) && (t.kind.Word? ==> !InTail(before))
    ensures RoleAfter(before, t) == RoleOf(t) && !(t.kind.Word? && IsName(before, t))
  {
  }

  lemma OtherPiece(ts: seq<Token>, s: State, n: nat)
    requires ts != [] && !InPosition(s, ts[0])
    ensures RewrittenAt(Plan(ts, s), n) <==> n > 0 && RewrittenAt(Plan(ts[1..], Advance(s, ts[0])), n - 1)
  {
    hide RoleOf, Known, TailLen, Advance, RewrittenAt;
    var p := Other(ts[0]);
    assert Source([p]) == [ts[0]] + Source([]);
    FirstPiece(p, Plan(ts[1..], Advance(s, ts[0])), n);
  }

  lemma ReferencePiece(before: seq<Token>, ts: seq<Token>, s: State, n: nat)
    requires Holds(before, s) && Whole(before, ts) && n < |ts| && InPosition(s, ts[0]) && !InTail(before)
    ensures var m := 1 + TailLen(ts[1..]);
            if n < m then RewrittenAt(Plan(ts, s), n) <==> Bare(before + ts[..n], ts[n], ts[n + 1..])
            else RewrittenAt(Plan(ts, s), n) <==> RewrittenAt(Plan(ts[m..], s.(awaiting := false)), n - m)
  {
    hide RoleOf, Known, TailLen, Advance, Whole, InTail, Awaits, OneDot, RewrittenAt;
    var m := 1 + TailLen(ts[1..]);
    var p := if m == 1 && Known(ts[0]) then Table(ts[0]) else Reference(ts[..m]);
    assert Source([p]) == (if p.Table? then [ts[0]] else ts[..m]) + Source([]);
    FirstPiece(p, Plan(ts[m..], s.(awaiting := false)), n);
    HoldsAwaits(before, s);
    if n == 0 {
      assert before + ts[..0] == before;
      TailIsDot(ts[1..]);
    } else if n < m {
      TailIsNotBare(before, ts, n);
    }
  }

  lemma TailIsDot(ts: seq<Token>)
    ensures TailLen(ts) == 0 <==> OneDot(ts) == 0
  {
  }

  /** Every word of a tail is in the tail. */
  lemma TailIsNotBare(before: seq<Token>, ts: seq<Token>, n: nat)
    requires ts != [] && RoleOf(ts[0]).Plain? && Awaits(before) && 0 < n < 1 + TailLen(ts[1..])
    ensures !Bare(before + ts[..n], ts[n], ts[n + 1..])
  {
    hide Awaits, InTail, TailLen, Known, OneDot, RoleOf;
    PlainIsWord(ts[0]);
    NameThen(before, ts[0]);
    if RoleOf(ts[n]).Plain? {
      PlainIsWord(ts[n]);
      WordInTail(before + [ts[0]], ts[1..], n - 1);
      assert before + [ts[0]] + ts[1..][..n - 1] == before + ts[..n];
    }
  }

  lemma {:induction false} WordInTail(x: seq<Token>, ts: seq<Token>, i: nat)
    requires EndsInName(x) && i < TailLen(ts) && ts[i].kind.Word?
    ensures InTail(x + ts[..i])
    decreases |ts|
  {
    hide InTail, EndsInName, Awaits, InFrom, OneDot, TailLen;
    var n := OneDot(ts);
    UnitAfterName(x, ts, 0);
    UnfoldTail(ts);
    if i < n {
      OnlyWord(ts, i);
    } else {
      WordInTail(x + ts[..n], ts[n..], i - n);
      TakeOn(x, ts, n, i);
    }
  }

  /** In every query a token is rewritten exactly when it is a known table's name, bare and in table position,
      as read off the tokens around it. */
  lemma PositionsAreExact(before: seq<Token>, t: Token, rest: seq<Token>)
    ensures RewrittenAt(Plan(before + [t] + rest, START), |before|) <==> Bare(before, t, rest)
  {
    var ts := before + [t] + rest;
    PlanRewrites([], ts, START, |before|);
    assert [] + ts[..|before|] == before && ts[|before|] == t && ts[|before| + 1..] == rest;
  }

  // ---- the words

  /** The words that mean something to the scan, whatever their case, and the punctuation. */
  lemma WordsExactly(t: Token)
    ensures RoleOf(t).Start? <==> t.kind.Word? && Lower(t.text) in ["from", "join", "into"]
    ensures RoleOf(t).SoftEnd? <==> t.kind.Word? && Lower(t.text) in ["on", "using", "as"]
    ensures RoleOf(t).Open? <==> t.kind.Punct? && t.text == "("
    ensures RoleOf(t).Close? <==> t.kind.Punct? && t.text == ")"
    ensures RoleOf(t).Comma? <==> t.kind.Punct? && t.text == ","
  {
  }

  lemma EndingsExactly(t: Token)
    ensures RoleOf(t).HardEnd? <==>
            && t.kind.Word?
            && var low := Lower(t.text);
               || low in ["where", "group", "order", "having", "limit", "offset", "union", "intersect", "except", "minus"]
               || low in ["window", "qualify", "select", "with", "values", "set", "returning", "sort", "cluster"]
               || low in ["distribute", "lateral", "pivot", "unpivot", "tablesample"]
  {
  }

  /** The tables of TPC-DS. */
  lemma TablesExactly(t: Token)
    ensures Known(t) <==>
            && t.kind.Word?
            && var low := Lower(t.text);
               || low in ["call_center", "catalog_page", "catalog_returns", "catalog_sales", "customer", "customer_address"]
               || low in ["customer_demographics", "date_dim", "household_demographics", "income_band", "inventory", "item"]
               || low in ["promotion", "reason", "ship_mode", "store", "store_returns", "store_sales", "time_dim", "warehouse"]
               || low in ["web_page", "web_returns", "web_sales", "web_site"]
  {
  }
}
