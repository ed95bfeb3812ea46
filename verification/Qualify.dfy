/** The rewriter that qualifies bare table names in a query, from its token sequence on. */
module Qualify {
  import opened Strings

  datatype Kind = Str | Comment | Word | Ws | Punct
  datatype Token = Token(kind: Kind, text: string)

  const TABLES := {
    "call_center", "catalog_page", "catalog_returns", "catalog_sales", "customer", "customer_address",
    "customer_demographics", "date_dim", "household_demographics", "income_band", "inventory", "item",
    "promotion", "reason", "ship_mode", "store", "store_returns", "store_sales", "time_dim", "warehouse",
    "web_page", "web_returns", "web_sales", "web_site"
  }
  const TABLE_REF_START := {"from", "join", "into"}
  const FROM_LIST_HARD_END := {
    "where", "group", "order", "having", "limit", "offset", "union", "intersect", "except", "minus",
    "window", "qualify", "select", "with", "values", "set", "returning", "sort", "cluster", "distribute",
    "lateral", "pivot", "unpivot", "tablesample"
  }
  const FROM_LIST_SOFT_END := {"on", "using", "as"}

  /** What a token means to the scan. `Silent` tokens change nothing. */
  datatype Role = Silent | Open | Close | Comma | Start | HardEnd | SoftEnd | Plain

  function RoleOf(t: Token): Role {
    if t.kind.Word? then
      var low := Lower(t.text);
      if low in TABLE_REF_START then Start
      else if low in FROM_LIST_HARD_END then HardEnd
      else if low in FROM_LIST_SOFT_END then SoftEnd
      else Plain
    else if t == Token(Punct, "(") then Open
    else if t == Token(Punct, ")") then Close
    else if t == Token(Punct, ",") then Comma
    else Silent
  }

  predicate Known(t: Token) {
    t.kind.Word? && Lower(t.text) in TABLES
  }

  datatype State = State(awaiting: bool, inFrom: bool, stack: seq<(bool, bool)>)

  const START := State(false, false, [])

  /** The state after a token that is not a name in table position. */
  function Advance(s: State, t: Token): State {
    match RoleOf(t)
    case Open => State(false, false, s.stack + [(s.awaiting, s.inFrom)])
    case Close =>
      if s.stack == [] then State(false, false, [])
      else State(false, s.stack[|s.stack| - 1].1, s.stack[..|s.stack| - 1])
    case Comma => if s.inFrom then s.(awaiting := true) else s
    case Start => s.(awaiting := true, inFrom := true)
    case HardEnd => s.(awaiting := false, inFrom := false)
    case SoftEnd => s.(awaiting := false)
    case _ => s
  }

  function SkipWs(ts: seq<Token>): nat {
    if ts != [] && ts[0].kind.Ws? then 1 else 0
  }

  /** The length of one `. word` at the front, spaces allowed around the dot; 0 if there is none. */
  function OneDot(ts: seq<Token>): (n: nat)
    ensures n <= |ts|
    ensures n > 0 ==> n >= 2
  {
    var k := SkipWs(ts);
    if k < |ts| && ts[k] == Token(Punct, ".") then
      var m := k + 1 + SkipWs(ts[k + 1..]);
      if m < |ts| && ts[m].kind.Word? then m + 1 else 0
    else 0
  }

  /** The length of the dotted tail at the front. */
  function TailLen(ts: seq<Token>): (n: nat)
    ensures n <= |ts|
    ensures n == 0 <==> OneDot(ts) == 0
    decreases |ts|
  {
    var n := OneDot(ts);
    if n == 0 then 0 else n + TailLen(ts[n..])
  }

  /** What the rewriter makes of a query: a token on its own, a reference it leaves alone (a name in table
      position, with its dotted tail), or a bare known table. */
  datatype Piece = Other(token: Token) | Reference(tokens: seq<Token>) | Table(token: Token)

  predicate InPosition(s: State, t: Token) {
    s.awaiting && RoleOf(t).Plain?
  }

  function Plan(ts: seq<Token>, s: State): (ps: seq<Piece>)
    decreases |ts|
  {
    if ts == [] then []
    else if InPosition(s, ts[0]) then
      var n := TailLen(ts[1..]);
      [if n == 0 && Known(ts[0]) then Table(ts[0]) else Reference(ts[..1 + n])]
      + Plan(ts[1 + n..], s.(awaiting := false))
    else [Other(ts[0])] + Plan(ts[1..], Advance(s, ts[0]))
  }

  function Qualified(t: Token, database: string): seq<Token> {
    [Token(Word, "glue"), Token(Punct, "."), Token(Word, database), Token(Punct, "."), Token(Word, Lower(t.text))]
  }

  function RenderPiece(p: Piece, database: string): seq<Token> {
    match p
    case Other(t) => [t]
    case Reference(ts) => ts
    case Table(t) => Qualified(t, database)
  }

  function Render(ps: seq<Piece>, database: string): seq<Token> {
    if ps == [] then [] else RenderPiece(ps[0], database) + Render(ps[1..], database)
  }

  function Rewrite(ts: seq<Token>, s: State, database: string): seq<Token> {
    Render(Plan(ts, s), database)
  }

  function Join(ts: seq<Token>): string {
    if ts == [] then "" else ts[0].text + Join(ts[1..])
  }

  // ---- the loop

  lemma {:induction false} JoinSplit(a: seq<Token>, b: seq<Token>)
    ensures Join(a + b) == Join(a) + Join(b)
  {
    if a == [] {
      assert a + b == b;
    } else {
      assert (a + b)[1..] == a[1..] + b;
      JoinSplit(a[1..], b);
    }
  }

  lemma JoinQualified(t: Token, database: string)
    ensures Join(Qualified(t, database)) == "glue." + database + "." + Lower(t.text)
  {
    var q := Qualified(t, database);
    assert Join(q) == "glue" + Join(q[1..]);
    assert Join(q[1..]) == "." + Join(q[2..]);
    assert Join(q[2..]) == database + Join(q[3..]);
    assert Join(q[3..]) == "." + Join(q[4..]);
    assert Join(q[4..]) == Lower(t.text) + Join(q[5..]) && q[5..] == [];
  }

  lemma RewriteStep(ts: seq<Token>, s: State, database: string)
    requires ts != []
    ensures if InPosition(s, ts[0]) then
              var n := TailLen(ts[1..]);
              Join(Rewrite(ts, s, database)) ==
              (if n == 0 && Known(ts[0]) then "glue." + database + "." + Lower(ts[0].text) else Join(ts[..1 + n]))
              + Join(Rewrite(ts[1 + n..], s.(awaiting := false), database))
            else
              Join(Rewrite(ts, s, database)) == ts[0].text + Join(Rewrite(ts[1..], Advance(s, ts[0]), database))
  {
    var ps := Plan(ts, s);
    JoinSplit(RenderPiece(ps[0], database), Render(ps[1..], database));
    if InPosition(s, ts[0]) {
      JoinQualified(ts[0], database);
    } else {
      assert Join([ts[0]]) == ts[0].text + Join([]);
    }
  }

  lemma OneDotAt(ts: seq<Token>, j: nat)
    requires j <= |ts|
    ensures var k := if j < |ts| && ts[j].kind.Ws? then j + 1 else j;
            var m := if k + 1 < |ts| && ts[k + 1].kind.Ws? then k + 2 else k + 1;
            OneDot(ts[j..]) ==
            if k < |ts| && ts[k] == Token(Punct, ".") && m < |ts| && ts[m].kind.Word? then m + 1 - j else 0
  {
    var k := if j < |ts| && ts[j].kind.Ws? then j + 1 else j;
    if k < |ts| {
      assert ts[j..][k + 1 - j..] == ts[k + 1..];
    }
  }

  /** Where one `. word` from `j` on ends, or `j`. */
  method ScanDot(tokens: seq<Token>, j: nat) returns (end: nat)
    requires j <= |tokens|
    ensures end == j + OneDot(tokens[j..])
  {
    OneDotAt(tokens, j);
    hide OneDot;
    var k := j;
    if k < |tokens| && tokens[k].kind.Ws? {
      k := k + 1;
    }
    var m := k + 1;
    if k < |tokens| && tokens[k] == Token(Punct, ".") {
      if m < |tokens| && tokens[m].kind.Ws? {
        m := m + 1;
      }
      if m < |tokens| && tokens[m].kind.Word? {
        return m + 1;
      }
    }
    return j;
  }

  /** The dotted tail from `start` on, by the lookahead loop. */
  method ScanTail(tokens: seq<Token>, start: nat) returns (tail: string, j: nat)
    requires start <= |tokens|
    ensures j == start + TailLen(tokens[start..])
    ensures tail == Join(tokens[start..j])
  {
    hide OneDot, Join;
    j, tail := start, "";
    var end := ScanDot(tokens, j);
    assert tokens[start..start] == [];
    Nothing(START, "");
    while end != j
      invariant start <= j <= |tokens|
      invariant end == j + OneDot(tokens[j..])
      invariant start + TailLen(tokens[start..]) == j + TailLen(tokens[j..])
      invariant tail == Join(tokens[start..j])
      decreases |tokens| - j
    {
      assert tokens[j..][end - j..] == tokens[end..];
      JoinSplit(tokens[start..j], tokens[j..end]);
      assert tokens[start..j] + tokens[j..end] == tokens[start..end];
      tail := tail + Join(tokens[j..end]);
      j := end;
      end := ScanDot(tokens, j);
    }
  }

  /** What a token that is not a name in table position does to the flags and the stack. */
  method Scan(t: Token, awaiting: bool, inFrom: bool, stack: seq<(bool, bool)>)
    returns (awaiting': bool, inFrom': bool, stack': seq<(bool, bool)>)
    ensures State(awaiting', inFrom', stack') == Advance(State(awaiting, inFrom, stack), t)
  {
    hide RoleOf;
    awaiting', inFrom', stack' := awaiting, inFrom, stack;
    match RoleOf(t)
    case Open =>
      stack' := stack + [(awaiting, inFrom)];
      awaiting', inFrom' := false, false;
    case Close =>
      inFrom' := false;
      if stack != [] {
        inFrom' := stack[|stack| - 1].1;
        stack' := stack[..|stack| - 1];
      }
      awaiting' := false;
    case Comma =>
      if inFrom {
        awaiting' := true;
      }
    case Start =>
      awaiting', inFrom' := true, true;
    case HardEnd =>
      awaiting', inFrom' := false, false;
    case SoftEnd =>
      awaiting' := false;
    case Silent =>
    case Plain =>
  }

  /** The rewriter: one pass over the tokens. */
  method QualifyTokens(tokens: seq<Token>, database: string) returns (out: string)
    ensures out == Join(Rewrite(tokens, START, database))
  {
    hide RoleOf, Known, Rewrite, TailLen, Join, Advance;
    out := "";
    var awaiting, inFrom, stack: seq<(bool, bool)> := false, false, [];
    var i := 0;
    ghost var rest := Join(Rewrite(tokens, START, database));
    assert tokens[0..] == tokens;
    while i < |tokens|
      invariant i <= |tokens|
      invariant rest == Join(Rewrite(tokens[i..], State(awaiting, inFrom, stack), database))
      invariant out + rest == Join(Rewrite(tokens, START, database))
      decreases |tokens| - i
    {
      RewriteAt(tokens, i, State(awaiting, inFrom, stack), database);
      var t := tokens[i];
      var more := t.text;
      var next := i + 1;
      if RoleOf(t).Plain? && awaiting {
        var tail, j := ScanTail(tokens, i + 1);
        if j == i + 1 && Known(t) {
          more := "glue." + database + "." + Lower(t.text);
        } else {
          more := t.text + tail;
        }
        next := j;
        awaiting := false;
      } else {
        awaiting, inFrom, stack := Scan(t, awaiting, inFrom, stack);
      }
      ghost var rest' := Join(Rewrite(tokens[next..], State(awaiting, inFrom, stack), database));
      Regroup(out, more, rest');
      out, i, rest := out + more, next, rest';
    }
    assert tokens[i..] == [];
    Nothing(State(awaiting, inFrom, stack), database);
  }

  lemma Nothing(s: State, database: string)
    ensures Join([]) == "" && Rewrite([], s, database) == []
  {
  }

  lemma Regroup(a: string, b: string, c: string)
    ensures a + (b + c) == a + b + c
  {
  }

  lemma RewriteAt(tokens: seq<Token>, i: nat, s: State, database: string)
    requires i < |tokens|
    ensures if InPosition(s, tokens[i]) then
              var j := i + 1 + TailLen(tokens[i + 1..]);
              Join(Rewrite(tokens[i..], s, database)) ==
              (if j == i + 1 && Known(tokens[i]) then "glue." + database + "." + Lower(tokens[i].text)
               else tokens[i].text + Join(tokens[i + 1..j]))
              + Join(Rewrite(tokens[j..], s.(awaiting := false), database))
            else
              Join(Rewrite(tokens[i..], s, database)) ==
              tokens[i].text + Join(Rewrite(tokens[i + 1..], Advance(s, tokens[i]), database))
  {
    hide RoleOf, Known, Rewrite, TailLen, Advance, Join;
    RewriteStep(tokens[i..], s, database);
    assert tokens[i..][1..] == tokens[i + 1..];
    var j := i + 1 + TailLen(tokens[i + 1..]);
    assert tokens[i..][j - i..] == tokens[j..] && tokens[i..][..j - i] == tokens[i..j];
    JoinFront(tokens, i, j);
  }

  lemma JoinFront(tokens: seq<Token>, i: nat, j: nat)
    requires i < j <= |tokens|
    ensures Join(tokens[i..j]) == tokens[i].text + Join(tokens[i + 1..j])
  {
    assert tokens[i..j][1..] == tokens[i + 1..j];
  }
}
