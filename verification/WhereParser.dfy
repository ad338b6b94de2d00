/** The WHERE parser as it runs, on a token stream and a virtual machine instance. Every parsing
    method accepts any tokens; the ghost arguments say what it does when they spell a clause. */
module WhereParser {
  import opened Basics
  import opened Lvm
  import opened WhereCompiler

  const OK: nat := 2
  const SYNTAX_ERROR: nat := 3

  /** part stands in tokens at a position. */
  ghost predicate TokensAt(tokens: seq<Token>, at: nat, part: seq<Token>) {
    at + |part| <= |tokens| && tokens[at..at + |part|] == part
  }

  lemma TokensAtParts(tokens: seq<Token>, at: nat, a: seq<Token>, b: seq<Token>)
    ensures TokensAt(tokens, at, a + b) <==> TokensAt(tokens, at, a) && TokensAt(tokens, at + |a|, b)
  {
    if TokensAt(tokens, at, a + b) {
      assert tokens[at..at + |a|] == tokens[at..at + |a + b|][..|a|];
      assert tokens[at + |a|..at + |a| + |b|] == tokens[at..at + |a + b|][|a|..];
    }
  }

  lemma TokenAt(tokens: seq<Token>, at: nat, t: Token, rest: seq<Token>)
    requires TokensAt(tokens, at, [t] + rest)
    ensures at < |tokens| && tokens[at] == t && TokensAt(tokens, at + 1, rest)
  {
    TokensAtParts(tokens, at, [t], rest);
    assert tokens[at] == tokens[at..at + 1][0];
  }

  function TokenOr(tokens: seq<Token>, at: nat): Token {
    if at < |tokens| then tokens[at] else NoToken
  }

  /** A token that ends a side outside parentheses. */
  predicate EndsSide(t: Token) {
    !t.ArithToken? && !t.RightParen?
  }

  /** A token that parse_operand takes. */
  predicate IsOperand(t: Token) {
    t.Identifier? || t.StringValue? || t.FloatValue? || t.Integer?
  }

  // ----- what the parser accepts, for any tokens -----

  /** Whether parsing succeeds, and the token at which it stops in either case. */
  datatype End = End(ok: bool, at: nat)

  function Past(tokens: seq<Token>, at: nat): nat {
    if at < |tokens| then at + 1 else at
  }

  /** parse_expr. */
  function ExprEnd(tokens: seq<Token>, at: nat): (r: End)
    requires at <= |tokens|
    ensures at <= r.at <= |tokens| && (r.ok ==> at < r.at)
    decreases |tokens| - at, 1
  {
    if at == |tokens| then End(false, at)
    else if tokens[at].LeftParen? then
      var e := ExprEnd(tokens, at + 1);
      if !e.ok then e
      else if !TokenOr(tokens, e.at).RightParen? then End(false, Past(tokens, e.at))
      else OpsEnd(tokens, e.at + 1)
    else if IsOperand(tokens[at]) then OpsEnd(tokens, at + 1)
    else End(false, at + 1)
  }

  /** The loop of parse_expr: up to a token that ends the side, or behind a closing parenthesis. */
  function OpsEnd(tokens: seq<Token>, at: nat): (r: End)
    requires at <= |tokens|
    ensures at <= r.at <= |tokens|
    decreases |tokens| - at, 0
  {
    var t := TokenOr(tokens, at);
    if EndsSide(t) then End(true, at)
    else if t.RightParen? then End(true, at + 1)
    else
      var e := ArgEnd(tokens, at + 1);
      if e.ok then OpsEnd(tokens, e.at) else e
  }

  /** The operand behind an operator: parse_operand, or parse_expr from the next token on. */
  function ArgEnd(tokens: seq<Token>, at: nat): (r: End)
    requires at <= |tokens|
    ensures at <= r.at <= |tokens|
    decreases |tokens| - at, 2
  {
    if IsOperand(TokenOr(tokens, at)) then End(true, at + 1) else ExprEnd(tokens, Past(tokens, at))
  }

  /** parse_comparison. */
  function ComparisonEnd(tokens: seq<Token>, at: nat): (r: End)
    requires at <= |tokens|
    ensures at <= r.at <= |tokens| && (r.ok ==> at < r.at)
  {
    var left := ExprEnd(tokens, at);
    if !left.ok then left
    else if !TokenOr(tokens, left.at).CmpToken? then End(false, Past(tokens, left.at))
    else ExprEnd(tokens, left.at + 1)
  }

  /** The status of parse_where, and the token at which it stops. */
  datatype Outcome = Outcome(status: nat, at: nat)

  /** parse_where. */
  function WhereEnd(tokens: seq<Token>, at: nat): (r: Outcome)
    requires at <= |tokens|
    ensures at <= r.at <= |tokens| && (r.status == 0 || r.status == OK || r.status == SYNTAX_ERROR)
    decreases |tokens| - at, 0
  {
    var c := ComparisonEnd(tokens, at);
    if c.ok then LinksEnd(tokens, c.at) else Outcome(SYNTAX_ERROR, c.at)
  }

  /** The loop of parse_where. */
  function LinksEnd(tokens: seq<Token>, at: nat): (r: Outcome)
    requires at <= |tokens|
    ensures at <= r.at <= |tokens| && (r.status == 0 || r.status == OK || r.status == SYNTAX_ERROR)
    decreases |tokens| - at, 1
  {
    var t := TokenOr(tokens, at);
    if t != AndToken && t != OrToken then Outcome(OK, at)
    else
      var p := PropositionEnd(tokens, at + 1);
      if p.status == OK then LinksEnd(tokens, p.at) else p
  }

  /** What follows a connective: a clause in parentheses, or a comparison, whose failure gives 0. A
      clause in parentheses that gives 0 counts as parsed. */
  function PropositionEnd(tokens: seq<Token>, at: nat): (r: Outcome)
    requires at <= |tokens|
    ensures at <= r.at <= |tokens| && (r.status == 0 || r.status == OK || r.status == SYNTAX_ERROR)
    decreases |tokens| - at, 2
  {
    if TokenOr(tokens, at).LeftParen? then
      var w := WhereEnd(tokens, at + 1);
      if w.status >= SYNTAX_ERROR then w
      else if TokenOr(tokens, w.at).RightParen? then Outcome(OK, w.at + 1)
      else Outcome(SYNTAX_ERROR, Past(tokens, w.at))
    else
      var c := ComparisonEnd(tokens, at);
      Outcome(if c.ok then OK else 0, c.at)
  }

  lemma ExprEndStep(tokens: seq<Token>, at: nat)
    requires at <= |tokens|
    ensures var t := TokenOr(tokens, at);
      ExprEnd(tokens, at) ==
      if t.LeftParen? then
        var e := ExprEnd(tokens, at + 1);
        if !e.ok then e
        else if !TokenOr(tokens, e.at).RightParen? then End(false, Past(tokens, e.at))
        else OpsEnd(tokens, e.at + 1)
      else if IsOperand(t) then OpsEnd(tokens, at + 1)
      else End(false, Past(tokens, at))
  {
    hide OpsEnd;
  }

  lemma OpsEndStep(tokens: seq<Token>, at: nat)
    requires at <= |tokens|
    ensures var t := TokenOr(tokens, at);
      OpsEnd(tokens, at) ==
      if EndsSide(t) then End(true, at)
      else if t.RightParen? then End(true, at + 1)
      else
        var e := ArgEnd(tokens, at + 1);
        if e.ok then OpsEnd(tokens, e.at) else e
  {
    hide ArgEnd;
  }

  lemma LinksEndStep(tokens: seq<Token>, at: nat)
    requires at <= |tokens|
    ensures var t := TokenOr(tokens, at);
      LinksEnd(tokens, at) ==
      if t != AndToken && t != OrToken then Outcome(OK, at)
      else
        var p := PropositionEnd(tokens, at + 1);
        if p.status == OK then LinksEnd(tokens, p.at) else p
  {
    hide PropositionEnd;
  }

  /** The positions behind the connectives that the loop of parse_where reaches. */
  function Links(tokens: seq<Token>, at: nat): seq<nat>
    requires at <= |tokens|
    decreases |tokens| - at
  {
    var t := TokenOr(tokens, at);
    if t != AndToken && t != OrToken then []
    else
      var p := PropositionEnd(tokens, at + 1);
      [at + 1] + if p.status == OK then Links(tokens, p.at) else []
  }

  predicate LastFails(tokens: seq<Token>, links: seq<nat>) {
    && links != []
    && var last := links[|links| - 1];
      last <= |tokens| && !TokenOr(tokens, last).LeftParen? && !ComparisonEnd(tokens, last).ok
  }

  lemma {:induction false} LinksZeroIff(tokens: seq<Token>, at: nat)
    requires at <= |tokens|
    ensures LinksEnd(tokens, at).status == 0 <==> LastFails(tokens, Links(tokens, at))
    decreases |tokens| - at
  {
    hide ComparisonEnd, WhereEnd, LinksEnd;
    LinksEndStep(tokens, at);
    var t := TokenOr(tokens, at);
    if t == AndToken || t == OrToken {
      var p := PropositionEnd(tokens, at + 1);
      if p.status == OK {
        LinksZeroIff(tokens, p.at);
        LastOf(tokens, at + 1, Links(tokens, p.at));
        LinksEndStep(tokens, p.at);
      }
    }
  }

  lemma LastOf(tokens: seq<Token>, first: nat, rest: seq<nat>)
    ensures rest != [] ==> (LastFails(tokens, [first] + rest) <==> LastFails(tokens, rest))
    ensures [first] + [] == [first]
  {
    hide ComparisonEnd;
  }

  /** For any tokens, parse_where gives 0 exactly if the last connective that it reaches is followed by
      something else than a parenthesis, and that is not a comparison. */
  lemma ZeroIff(tokens: seq<Token>, at: nat)
    requires at <= |tokens|
    ensures WhereEnd(tokens, at).status == 0 <==>
      ComparisonEnd(tokens, at).ok && LastFails(tokens, Links(tokens, ComparisonEnd(tokens, at).at))
  {
    hide ComparisonEnd, LinksEnd, Links, LastFails;
    if ComparisonEnd(tokens, at).ok { LinksZeroIff(tokens, ComparisonEnd(tokens, at).at); }
  }

  /** Between an operator and its operand, one token that is no operand is swallowed: a + ? b > 3 is
      accepted as a whole exactly if ? is no operand. So a + AND b > 3 is, and a + ( b > 3 with its open
      parenthesis. */
  lemma SwallowedToken(a: string, t: Token, b: string)
    ensures var tokens := [Identifier(a), ArithToken(ADD), t, Identifier(b), CmpToken(GE), Integer(3)];
      WhereEnd(tokens, 0) == Outcome(OK, |tokens|) <==> !IsOperand(t)
  {
    hide ExprEnd, OpsEnd, LinksEnd;
    var tokens := [Identifier(a), ArithToken(ADD), t, Identifier(b), CmpToken(GE), Integer(3)];
    ExprEndStep(tokens, 0);
    OpsEndStep(tokens, 1);
    ExprEndStep(tokens, 3);
    OpsEndStep(tokens, 3);
    OpsEndStep(tokens, 4);
    ExprEndStep(tokens, 5);
    OpsEndStep(tokens, 6);
    LinksEndStep(tokens, 6);
  }

  /** Behind a connective, an operator without an operand gives 0, which counts as success. */
  lemma CutOffComparison(a: string, l: int, b: string)
    ensures var tokens := [Identifier(a), CmpToken(GE), Integer(l), AndToken, Identifier(b), ArithToken(ADD)];
      WhereEnd(tokens, 0) == Outcome(0, |tokens|)
  {
    hide ExprEnd, OpsEnd, LinksEnd;
    var tokens := [Identifier(a), CmpToken(GE), Integer(l), AndToken, Identifier(b), ArithToken(ADD)];
    ExprEndStep(tokens, 0);
    OpsEndStep(tokens, 1);
    ExprEndStep(tokens, 2);
    OpsEndStep(tokens, 3);
    LinksEndStep(tokens, 3);
    ExprEndStep(tokens, 4);
    OpsEndStep(tokens, 5);
    ExprEndStep(tokens, 6);
  }

  // ----- the variable table only grows -----

  lemma {:induction false} TableGrows(names: seq<string>, r: Rest)
    ensures names <= RegisterRest(names, r)
    decreases r
  {
    if r.More? {
      var names' := RegisterArg(names, r.arg);
      ArgTableGrows(names, r.arg);
      TableGrows(names', r.rest);
      assert names <= names' <= RegisterRest(names', r.rest);
    }
  }

  lemma {:induction false} ArgTableGrows(names: seq<string>, arg: Arg)
    ensures names <= RegisterArg(names, arg)
    decreases arg
  {
    match arg
    case Plain(a) =>
    case Paren(s) =>
      var names' := RegisterAtom(names, s.first);
      TableGrows(names', s.rest);
      assert names <= names' <= RegisterRest(names', s.rest);
  }

  lemma {:induction false} ClauseTableGrows(names: seq<string>, w: Clause)
    ensures var names' := RegisterSide(names, w.c.left);
      names <= names' <= RegisterSide(names', w.c.right) <= RegisterClause(names, w)
    decreases w
  {
    TableGrows(RegisterAtom(names, w.c.left.first), w.c.left.rest);
    var names' := RegisterSide(names, w.c.left);
    TableGrows(RegisterAtom(names', w.c.right.first), w.c.right.rest);
    if w.Link? {
      ClauseTableGrows(RegisterSide(names', w.c.right), w.rest);
    }
  }

  lemma LookupInPrefix(names: seq<string>, all: seq<string>, name: string)
    requires names <= all && name in names
    ensures Lookup(names, name) == Lookup(all, name)
  {
    if names[0] != name {
      LookupInPrefix(names[1..], all[1..], name);
    }
  }

  /** The operand that is written is the one the final table gives. */
  lemma AtomCodeInPrefix(names: Names, all: Names, a: Atom)
    requires RegisterAtom(names, a) <= all && AtomOk(a, all)
    ensures |RegisterAtom(names, a)| <= MAX_VARIABLE_ID
    ensures a.AVar? ==> VariableCode(RegisterAtom(names, a), a.name) == ExprCode(AtomExpr(a, all))
  {
    if a.AVar? {
      assert |names| == MAX_VARIABLE_ID ==> names == all;
      LookupInPrefix(RegisterAtom(names, a), all, a.name);
    }
  }

  lemma StartOfSide(tokens: seq<Token>, at: nat, s: Side, closing: seq<Token>, names: seq<string>, all: Names)
    requires TokensAt(tokens, at, SideTokens(s) + closing) && SideOk(s, all) && RegisterSide(names, s) <= all
    ensures TokensAt(tokens, at, [AtomToken(s.first)]) && TokensAt(tokens, at + 1, RestTokens(s.rest) + closing)
    ensures at < |tokens| && tokens[at] == AtomToken(s.first) && |SideTokens(s)| == 1 + |RestTokens(s.rest)|
    ensures AtomOk(s.first, all) && RestOk(s.rest, all)
    ensures RegisterAtom(names, s.first) <= all
    ensures RegisterSide(names, s) == RegisterRest(RegisterAtom(names, s.first), s.rest)
    ensures SideCode(s, all) == RestCode(ExprCode(AtomExpr(s.first, all)), s.rest, true, all)
    ensures |ExprCode(AtomExpr(s.first, all))| <= |SideCode(s, all)|
  {
    hide ExprCode, RestCode;
    assert SideTokens(s) + closing == [AtomToken(s.first)] + (RestTokens(s.rest) + closing);
    TokenAt(tokens, at, AtomToken(s.first), RestTokens(s.rest) + closing);
    TokensAtParts(tokens, at, [AtomToken(s.first)], RestTokens(s.rest) + closing);
    TableGrows(RegisterAtom(names, s.first), s.rest);
  }

  lemma NextOperator(tokens: seq<Token>, at: nat, r: Rest, inner: bool, done: seq<byte>, first: bool,
                     names: seq<string>, all: Names)
    requires TokensAt(tokens, at, RestTokens(r) + (if inner then [RightParen] else []))
    requires RestOk(r, all) && RegisterRest(names, r) <= all
    ensures r.Stop? ==>
      && RestTokens(r) == [] && RestCode(done, r, first, all) == done && RegisterRest(names, r) == names
      && (inner ==> at < |tokens| && tokens[at].RightParen?)
    ensures r.More? ==>
      && at < |tokens| && tokens[at] == ArithToken(r.op)
      && ArgOk(r.arg, all) && RestOk(r.rest, all)
      && TokensAt(tokens, at + 1, ArgTokens(r.arg))
      && TokensAt(tokens, at + 1 + |ArgTokens(r.arg)|, RestTokens(r.rest) + (if inner then [RightParen] else []))
      && |RestTokens(r)| == 1 + |ArgTokens(r.arg)| + |RestTokens(r.rest)|
      && RegisterArg(names, r.arg) <= all
      && RegisterRest(names, r) == RegisterRest(RegisterArg(names, r.arg), r.rest)
      && RestCode(done, r, first, all) ==
           RestCode(WithOperator(done, first, r.op, ArgCode(r.arg, all)), r.rest, false, all)
      && |done| + 2 + |ArgCode(r.arg, all)| <= |RestCode(done, r, first, all)|
  {
    hide ExprCode;
    var closing: seq<Token> := if inner then [RightParen] else [];
    match r
    case Stop =>
      assert RestTokens(r) + closing == closing + [];
      if inner { TokenAt(tokens, at, RightParen, []); }
    case More(op, arg, rest) =>
      assert RestTokens(r) + closing == [ArithToken(op)] + (ArgTokens(arg) + (RestTokens(rest) + closing));
      TokenAt(tokens, at, ArithToken(op), ArgTokens(arg) + (RestTokens(rest) + closing));
      TokensAtParts(tokens, at + 1, ArgTokens(arg), RestTokens(rest) + closing);
      TableGrows(RegisterArg(names, arg), rest);
  }

  function WithOperator(done: seq<byte>, first: bool, op: byte, arg: seq<byte>): seq<byte> {
    if first then [ARITH_OP, op] + done + arg else done + [ARITH_OP, op] + arg
  }

  lemma OperatorInserted(base: seq<byte>, done: seq<byte>, arg: seq<byte>, first: bool, op: byte,
                         before: seq<byte>, after: seq<byte>, end: nat)
    requires |base + done + arg| <= |before| && before[..|base + done + arg|] == base + done + arg
    requires var at := if first then |base| else |base + done|;
      end <= |after| && after[..end] == before[..at] + [ARITH_OP, op] + before[at..|base + done + arg|]
    ensures after[..end] == base + WithOperator(done, first, op, arg)
  {
    if first {
      assert base + (done + arg) == base + done + arg;
      Inserted(base, [], done + arg, [ARITH_OP, op], before, after, end);
      assert [] + [ARITH_OP, op] + (done + arg) == WithOperator(done, first, op, arg);
    } else {
      Inserted(base, done, arg, [ARITH_OP, op], before, after, end);
    }
  }

  lemma SideCodeNonempty(s: Side, all: Names)
    requires SideOk(s, all)
    ensures SideCode(s, all) != []
  {
  }

  lemma ParenArgument(tokens: seq<Token>, at: nat, s: Side)
    requires TokensAt(tokens, at, ArgTokens(Paren(s)))
    ensures at < |tokens| && tokens[at].LeftParen? && TokensAt(tokens, at + 1, SideTokens(s) + [RightParen])
    ensures |ArgTokens(Paren(s))| == |SideTokens(s)| + 2
  {
    assert ArgTokens(Paren(s)) == [LeftParen] + (SideTokens(s) + [RightParen]);
    TokenAt(tokens, at, LeftParen, SideTokens(s) + [RightParen]);
  }

  lemma Inserted(base: seq<byte>, x: seq<byte>, y: seq<byte>, op: seq<byte>, before: seq<byte>, after: seq<byte>,
                 end: nat)
    requires |base + x + y| <= |before| && before[..|base + x + y|] == base + x + y
    requires end <= |after| && after[..end] == before[..|base + x|] + op + before[|base + x|..|base + x + y|]
    ensures after[..end] == base + (x + op + y)
  {
    assert before[..|base + x|] == before[..|base + x + y|][..|base + x|] == base + x;
    assert before[|base + x|..|base + x + y|] == before[..|base + x + y|][|base + x|..] == y;
  }

  function Conjunction(conj: bool): Token {
    if conj then AndToken else OrToken
  }

  predicate IsAndOr(t: Token) {
    t == AndToken || t == OrToken
  }

  predicate EndsClause(t: Token) {
    EndsSide(t) && t != AndToken && t != OrToken
  }

  lemma ComparisonParts(tokens: seq<Token>, at: nat, c: Comparison, names: seq<string>, all: Names)
    requires TokensAt(tokens, at, ComparisonTokens(c)) && ComparisonOk(c, all)
    requires RegisterSide(RegisterSide(names, c.left), c.right) <= all
    ensures TokensAt(tokens, at, SideTokens(c.left) + [])
    ensures var mid := at + |SideTokens(c.left)|;
      && TokenOr(tokens, mid) == CmpToken(c.op) && mid < |tokens|
      && TokensAt(tokens, mid + 1, SideTokens(c.right) + [])
    ensures |ComparisonTokens(c)| == |SideTokens(c.left)| + 1 + |SideTokens(c.right)|
    ensures RegisterSide(names, c.left) <= all
    ensures ComparisonCode(c, all) == [CMP_OP, c.op] + SideCode(c.left, all) + SideCode(c.right, all)
  {
    hide SideTokens, SideCode;
    assert SideTokens(c.left) + [] == SideTokens(c.left) && SideTokens(c.right) + [] == SideTokens(c.right);
    assert ComparisonTokens(c) == SideTokens(c.left) + ([CmpToken(c.op)] + SideTokens(c.right));
    TokensAtParts(tokens, at, SideTokens(c.left), [CmpToken(c.op)] + SideTokens(c.right));
    TokenAt(tokens, at + |SideTokens(c.left)|, CmpToken(c.op), SideTokens(c.right));
    var names' := RegisterSide(names, c.left);
    TableGrows(RegisterAtom(names', c.right.first), c.right.rest);
    RegisterGrows(names', c.right.first);
  }

  lemma RegisterGrows(names: seq<string>, a: Atom)
    ensures names <= RegisterAtom(names, a)
  {
  }

  lemma ClauseParts(tokens: seq<Token>, at: nat, w: Clause, names: seq<string>, all: Names)
    requires TokensAt(tokens, at, ClauseTokens(w)) && ClauseOk(w, all) && RegisterClause(names, w) <= all
    ensures TokensAt(tokens, at, ComparisonTokens(w.c))
    ensures RegisterSide(RegisterSide(names, w.c.left), w.c.right) <= all
    ensures at < |tokens| && !tokens[at].LeftParen?
    ensures w.Link? ==>
      && TokensAt(tokens, at + |ComparisonTokens(w.c)|, [Conjunction(w.conj)] + ClauseTokens(w.rest))
      && TokenOr(tokens, at + |ComparisonTokens(w.c)|) == Conjunction(w.conj)
      && |ClauseTokens(w)| == |ComparisonTokens(w.c)| + 1 + |ClauseTokens(w.rest)|
    ensures w.Last? ==> ClauseTokens(w) == ComparisonTokens(w.c)
    ensures ComparisonOk(w.c, all) && |ComparisonCode(w.c, all)| <= |ClauseCode(w, all)|
    ensures RegisterClause(names, w) ==
      (var names' := RegisterSide(RegisterSide(names, w.c.left), w.c.right);
       if w.Link? then RegisterClause(names', w.rest) else names')
  {
    hide ComparisonTokens, ComparisonCode, TokensAt, RegisterSide, ComparisonOk;
    ClauseTableGrows(names, w);
    var names' := RegisterSide(RegisterSide(names, w.c.left), w.c.right);
    assert names' <= RegisterClause(names, w) <= all;
    var tail := if w.Link? then [Conjunction(w.conj)] + ClauseTokens(w.rest) else [];
    assert ClauseTokens(w) == ComparisonTokens(w.c) + tail;
    TokensAtParts(tokens, at, ComparisonTokens(w.c), tail);
    if w.Link? {
      TokenAt(tokens, at + |ComparisonTokens(w.c)|, Conjunction(w.conj), ClauseTokens(w.rest));
    }
    StartOfComparison(tokens, at, w.c);
  }

  /** How many tokens of a clause lie behind its first comparison. */
  function Remaining(w: Clause): nat {
    if w.Link? then 1 + |ClauseTokens(w.rest)| else 0
  }

  /** What the clause parser finds behind a comparison. */
  lemma LinkParts(tokens: seq<Token>, at: nat, w: Clause, done: seq<byte>, names: seq<string>, all: Names)
    requires ClauseOk(w, all)
    requires w.Link? ==>
      TokensAt(tokens, at, [Conjunction(w.conj)] + ClauseTokens(w.rest)) && RegisterClause(names, w.rest) <= all
    ensures w.Last? ==> ClauseCode(w, all) == ComparisonCode(w.c, all)
    ensures w.Link? ==>
      && TokenOr(tokens, at) == Conjunction(w.conj) && at + 1 < |tokens| && !tokens[at + 1].LeftParen?
      && ClauseOk(w.rest, all) && TokensAt(tokens, at + 1, ComparisonTokens(w.rest.c))
      && ComparisonOk(w.rest.c, all)
      && RegisterSide(RegisterSide(names, w.rest.c.left), w.rest.c.right) <= all
      && |ClauseTokens(w.rest)|
        == |ComparisonTokens(w.rest.c)| + (if w.rest.Link? then 1 + |ClauseTokens(w.rest.rest)| else 0)
      && EndsOrContinues(tokens, at + 1, w.rest)
      && RegisterClause(names, w.rest) ==
           (var names' := RegisterSide(RegisterSide(names, w.rest.c.left), w.rest.c.right);
            if w.rest.Link? then RegisterClause(names', w.rest.rest) else names')
      && |ComparisonCode(w.rest.c, all)| <= |ClauseCode(w.rest, all)|
      && done + ClauseCode(w, all)
         == done + [CMP_OP, if w.conj then AND else OR] + ComparisonCode(w.c, all) + ClauseCode(w.rest, all)
  {
    hide ComparisonTokens, ComparisonCode, ComparisonOk, TokensAt;
    if w.Link? {
      TokenAt(tokens, at, Conjunction(w.conj), ClauseTokens(w.rest));
      ClauseParts(tokens, at + 1, w.rest, names, all);
      var head: seq<byte> := [CMP_OP, if w.conj then AND else OR];
      var c, r := ComparisonCode(w.c, all), ClauseCode(w.rest, all);
      assert done + (head + c + r) == done + head + c + r;
    }
  }

  ghost predicate EndsOrContinues(tokens: seq<Token>, at: nat, w: Clause) {
    w.Link? ==>
      && TokensAt(tokens, at + |ComparisonTokens(w.c)|, [Conjunction(w.conj)] + ClauseTokens(w.rest))
      && TokenOr(tokens, at + |ComparisonTokens(w.c)|) == Conjunction(w.conj)
  }

  lemma StartOfComparison(tokens: seq<Token>, at: nat, c: Comparison)
    requires TokensAt(tokens, at, ComparisonTokens(c))
    ensures at < |tokens| && !tokens[at].LeftParen?
  {
    assert ComparisonTokens(c)
      == [AtomToken(c.left.first)] + (RestTokens(c.left.rest) + [CmpToken(c.op)] + SideTokens(c.right));
    TokenAt(tokens, at, AtomToken(c.left.first), RestTokens(c.left.rest) + [CmpToken(c.op)] + SideTokens(c.right));
  }

  lemma FilledGap(base: seq<byte>, op: seq<byte>, side: seq<byte>, before: seq<byte>, after: seq<byte>, end: nat)
    requires |op| == 2 && |base| + 2 + |side| == end <= |before| == |after|
    requires before[..end][..|base|] == base && before[..end][|base| + 2..] == side
    requires after[..|base| + 2] == before[..|base|] + op && after[|base| + 2..] == before[|base| + 2..]
    ensures after[..end] == base + (op + side)
  {
    assert after[|base| + 2..end] == after[|base| + 2..][..|side|] == before[|base| + 2..][..|side|]
      == before[..end][|base| + 2..];
    assert after[..end] == after[..|base| + 2] + after[|base| + 2..end];
  }

  class Parser {
    const tokens: seq<Token>
    const vm: Instance
    var pos: nat
    var prev: nat

    constructor (tokens: seq<Token>, vm: Instance)
      ensures this.tokens == tokens && this.vm == vm && pos == 0 && prev == 0
    {
      this.tokens, this.vm := tokens, vm;
      pos, prev := 0, 0;
    }

    ghost predicate Valid()
      reads this, vm
    {
      && prev <= pos <= |tokens| && |vm.names| <= MAX_VARIABLE_ID
      && forall t :: t in tokens ==> TokenOk(t)
    }

    /** The machine is sound, and so many bytes still fit. */
    ghost predicate Room(bytes: nat)
      reads vm
    {
      !vm.error && !vm.overrun && vm.end + bytes < vm.code.Length
    }

    /** Since a state with this code and end, exactly bytes have been written. */
    ghost predicate Written(code0: seq<byte>, end0: nat, bytes: seq<byte>)
      requires end0 <= |code0|
      reads vm, vm.code
    {
      && !vm.error && !vm.overrun
      && vm.end == end0 + |bytes| <= vm.code.Length
      && vm.code[..vm.end] == code0[..end0] + bytes
    }

    method Next() returns (t: Token)
      requires Valid()
      modifies this
      ensures Valid() && prev == old(pos) && t == TokenOr(tokens, old(pos)) && TokenOk(t)
      ensures pos == if old(pos) < |tokens| then old(pos) + 1 else old(pos)
    {
      prev := pos;
      if pos < |tokens| {
        t := tokens[pos];
        pos := pos + 1;
      } else {
        t := NoToken;
      }
    }

    method Rewind()
      requires Valid()
      modifies this
      ensures Valid() && pos == old(prev) && prev == old(prev)
    {
      pos := prev;
    }

    /** parse_operand. */
    method ParseOperand(ghost good: bool, ghost a: Atom, ghost all: Names) returns (status: nat)
      requires Valid()
      requires good ==>
        && TokensAt(tokens, pos, [AtomToken(a)]) && AtomOk(a, all) && RegisterAtom(vm.names, a) <= all
        && Room(|ExprCode(AtomExpr(a, all))|)
      modifies this, vm`end, vm`overrun, vm`names, vm.code
      ensures Valid() && pos == old(if pos < |tokens| then pos + 1 else pos)
      ensures good ==>
        && status == OK && vm.names == RegisterAtom(old(vm.names), a)
        && Written(old(vm.code[..]), old(vm.end), ExprCode(AtomExpr(a, all)))
      ensures status == if IsOperand(TokenOr(tokens, old(pos))) then OK else SYNTAX_ERROR
      ensures status == SYNTAX_ERROR ==>
        && vm.names == old(vm.names) && vm.end == old(vm.end)
        && vm.overrun == old(vm.overrun) && vm.code[..] == old(vm.code[..])
    {
      hide ExprCode;
      var t := Next();
      if good {
        assert t == AtomToken(a) by { TokenAt(tokens, prev, AtomToken(a), []); }
        AtomCodeInPrefix(vm.names, all, a);
      }
      match t {
        case Identifier(name) =>
          vm.RegisterVariable(name);
          vm.SetVariable(name);
        case StringValue =>
        case FloatValue =>
        case Integer(l) =>
          vm.SetLong(l);
        case _ =>
          return SYNTAX_ERROR;
      }
      status := OK;
    }

    /** A side that starts with a parenthesis: ( s ), and if another closing parenthesis follows, then
        behind it the operators r of the side. */
    ghost predicate LeadingParen(s: Side, r: Rest, all: Names)
      reads this, vm
    {
      && TokensAt(tokens, pos, ArgTokens(Paren(s))) && SideOk(s, all)
      && RegisterSide(vm.names, s) <= all && Room(|SideCode(s, all)|)
      && (TokenOr(tokens, pos + |ArgTokens(Paren(s))|).RightParen? ==>
           var at := pos + |ArgTokens(Paren(s))| + 1;
           && TokensAt(tokens, at, RestTokens(r)) && EndsSide(TokenOr(tokens, at + |RestTokens(r)|)) && RestOk(r, all)
           && RegisterRest(RegisterSide(vm.names, s), r) <= all && Room(|RestCode(SideCode(s, all), r, true, all)|))
    }

    /** parse_expr. Inside parentheses it also consumes the closing one; that is why a side ( s ) is
        accepted exactly if a second closing parenthesis follows. */
    method ParseExpr(ghost good: bool, ghost s: Side, ghost inner: bool, ghost all: Names,
                     ghost lead: bool := false, ghost r: Rest := Stop) returns (status: nat)
      requires Valid() && (lead ==> !good && !inner && LeadingParen(s, r, all))
      requires good ==>
        && TokensAt(tokens, pos, SideTokens(s) + (if inner then [RightParen] else []))
        && (!inner ==> EndsSide(TokenOr(tokens, pos + |SideTokens(s)|)))
        && SideOk(s, all) && RegisterSide(vm.names, s) <= all && Room(|SideCode(s, all)|)
      modifies this, vm`end, vm`error, vm`overrun, vm`names, vm.code
      ensures Valid() && pos >= old(pos)
      ensures good ==>
        && status == OK && pos == old(pos) + |SideTokens(s)| + (if inner then 1 else 0)
        && vm.names == RegisterSide(old(vm.names), s)
        && Written(old(vm.code[..]), old(vm.end), SideCode(s, all))
      ensures lead ==>
        var end := old(pos) + |ArgTokens(Paren(s))|;
        && status == (if TokenOr(tokens, end).RightParen? then OK else SYNTAX_ERROR)
        && (status == OK ==>
             && pos == end + 1 + |RestTokens(r)| && vm.names == RegisterRest(RegisterSide(old(vm.names), s), r)
             && Written(old(vm.code[..]), old(vm.end), RestCode(SideCode(s, all), r, true, all)))
      ensures End(status == OK, pos) == ExprEnd(tokens, old(pos)) && (status == OK || status == SYNTAX_ERROR)
      decreases |tokens| - pos, 2
    {
      hide SideCode, RestCode, ExprCode, SideTokens, RestTokens, ArgTokens, TokensAt, RegisterRest, ExprEnd, OpsEnd,
        ArgEnd;
      ExprEndStep(tokens, pos);
      ghost var code0, end0, names0, closing := vm.code[..], vm.end, vm.names, if inner then [RightParen] else [];
      ghost var done, goal, table, rest := [], [], [], if lead then r else s.rest;
      var savedEnd := vm.end;
      if good {
        StartOfSide(tokens, pos, s, closing, names0, all);
        done, goal, table := ExprCode(AtomExpr(s.first, all)), SideCode(s, all), RegisterSide(names0, s);
      }
      if lead {
        ParenArgument(tokens, pos, s);
        SideCodeNonempty(s, all);
        done, goal := SideCode(s, all), if RestOk(r, all) then RestCode(SideCode(s, all), r, true, all) else [];
        table := RegisterRest(RegisterSide(names0, s), r);
      }
      var t := Next();
      if t.LeftParen? {
        status := ParseExpr(lead, s, lead, all);
        if status >= 3 {
          return SYNTAX_ERROR;
        }
        t := Next();
        if !t.RightParen? {
          return SYNTAX_ERROR;
        }
      } else {
        Rewind();
        status := ParseOperand(good, s.first, all);
        if status >= 3 {
          return SYNTAX_ERROR;
        }
      }
      if lead { assert RestTokens(r) + [] == RestTokens(r); }
      status := ParseOperators(good || lead, rest, inner, all, savedEnd, table, code0, end0, done, goal);
    }

    /** The operand behind an operator: a plain one, or what parse_expr makes of the tokens when
        parse_operand has failed on an opening parenthesis and thereby consumed it. */
    method ParseArgument(ghost good: bool, ghost arg: Arg, ghost all: Names) returns (status: nat)
      requires Valid()
      requires good ==>
        && TokensAt(tokens, pos, ArgTokens(arg)) && ArgOk(arg, all) && RegisterArg(vm.names, arg) <= all
        && Room(|ArgCode(arg, all)|)
      modifies this, vm`end, vm`error, vm`overrun, vm`names, vm.code
      ensures Valid() && pos >= old(pos)
      ensures good ==>
        && status < 3 && pos == old(pos) + |ArgTokens(arg)|
        && vm.names == RegisterArg(old(vm.names), arg)
        && Written(old(vm.code[..]), old(vm.end), ArgCode(arg, all))
      ensures End(status == OK, pos) == ArgEnd(tokens, old(pos)) && (status == OK || status == SYNTAX_ERROR)
      decreases |tokens| - pos, 3
    {
      hide ExprEnd, OpsEnd, SideCode, ExprCode, SideTokens, TokensAt, RegisterSide;
      if good && arg.Paren? { ParenArgument(tokens, pos, arg.s); }
      if good && arg.Plain? {
        assert ArgTokens(arg) == [AtomToken(arg.a)] + [];
        TokenAt(tokens, pos, AtomToken(arg.a), []);
      }
      status := ParseOperand(good && arg.Plain?, if good && arg.Plain? then arg.a else AInt(0), all);
      if status >= 3 {
        status := ParseExpr(good, if good && arg.Paren? then arg.s else Side(AInt(0), Stop), true, all);
      }
    }

    /** Somewhere in the loop of parse_expr: done has been written since (code0, end0), rest is
        still to come, and the whole will be goal. */
    ghost predicate AtOperator(at: nat, rest: Rest, inner: bool, all: Names, table: seq<string>, code0: seq<byte>,
                               end0: nat, done: seq<byte>, first: bool, savedEnd: nat, goal: seq<byte>)
      reads vm, vm.code
    {
      && TokensAt(tokens, at, RestTokens(rest) + (if inner then [RightParen] else []))
      && (!inner ==> EndsSide(TokenOr(tokens, at + |RestTokens(rest)|)))
      && RestOk(rest, all) && RegisterRest(vm.names, rest) == table <= all
      && end0 <= |code0| && Written(code0, end0, done) && done != []
      && savedEnd == (if first then end0 else vm.end)
      && RestCode(done, rest, first, all) == goal && end0 + |goal| < vm.code.Length
    }

    /** One turn of the loop of parse_expr. */
    method ParseOneOperator(ghost good: bool, ghost rest: Rest, ghost inner: bool, ghost all: Names, savedEnd: nat,
                            ghost table: seq<string>, ghost code0: seq<byte>, ghost end0: nat, ghost done: seq<byte>,
                            ghost first: bool, ghost goal: seq<byte>)
      returns (more: bool, status: nat, newEnd: nat, ghost done': seq<byte>)
      requires Valid() && (good ==> AtOperator(pos, rest, inner, all, table, code0, end0, done, first, savedEnd, goal))
      modifies this, vm`end, vm`error, vm`overrun, vm`names, vm.code
      ensures Valid() && pos >= old(pos) && (more ==> pos > old(pos))
      ensures good ==> status == OK && more == rest.More?
      ensures good && more ==>
        && AtOperator(pos, rest.rest, inner, all, table, code0, end0, done', false, newEnd, goal)
        && pos + |RestTokens(rest.rest)| == old(pos) + |RestTokens(rest)|
      ensures good && !more ==>
        end0 <= |code0| && pos == old(pos) + (if inner then 1 else 0) && vm.names == table && Written(code0, end0, goal)
      ensures OpsEnd(tokens, old(pos)) == if more then OpsEnd(tokens, pos) else End(status == OK, pos)
      ensures (status == OK || status == SYNTAX_ERROR) && (more ==> status == OK)
      decreases |tokens| - pos, 0
    {
      OpsEndStep(tokens, pos);
      hide OpsEnd, ArgEnd, RestCode, TokensAt, RegisterRest, RestOk, RestTokens, AtOperator;
      newEnd, done' := savedEnd, done;
      if good { OperatorNext(pos, rest, inner, all, table, code0, end0, done, first, savedEnd, goal); }
      var t := Next();
      if EndsSide(t) {
        Rewind();
        return false, OK, vm.end, done;
      } else if t.RightParen? {
        return false, OK, savedEnd, done;
      }
      status, newEnd, done' :=
        ParseOperation(good, rest, inner, all, savedEnd, table, code0, end0, done, first, goal, t.op);
      more := status < 3;
    }

    lemma OperatorNext(at: nat, rest: Rest, inner: bool, all: Names, table: seq<string>, code0: seq<byte>, end0: nat,
                       done: seq<byte>, first: bool, savedEnd: nat, goal: seq<byte>)
      requires AtOperator(at, rest, inner, all, table, code0, end0, done, first, savedEnd, goal)
      ensures rest.Stop? ==>
        && RestTokens(rest) == [] && end0 <= |code0| && vm.names == table && Written(code0, end0, goal)
        && (if inner then TokenOr(tokens, at).RightParen? else EndsSide(TokenOr(tokens, at)))
      ensures rest.More? ==> at < |tokens| && tokens[at] == ArithToken(rest.op)
    {
      hide RestCode, TokensAt, RegisterRest, RestOk, RestTokens;
      NextOperator(tokens, at, rest, inner, done, first, vm.names, all);
    }

    /** Behind an operator: its operand, and the operator in its place. */
    method ParseOperation(ghost good: bool, ghost rest: Rest, ghost inner: bool, ghost all: Names, savedEnd: nat,
                          ghost table: seq<string>, ghost code0: seq<byte>, ghost end0: nat, ghost done: seq<byte>,
                          ghost first: bool, ghost goal: seq<byte>, op: byte)
      returns (status: nat, newEnd: nat, ghost done': seq<byte>)
      requires Valid() && pos > 0
      requires good ==>
        && rest.More? && rest.op == op
        && AtOperator(pos - 1, rest, inner, all, table, code0, end0, done, first, savedEnd, goal)
      modifies this, vm`end, vm`error, vm`overrun, vm`names, vm.code
      ensures Valid() && pos >= old(pos)
      ensures good ==>
        && status == OK
        && AtOperator(pos, rest.rest, inner, all, table, code0, end0, done', false, newEnd, goal)
        && pos + |RestTokens(rest.rest)| == old(pos) - 1 + |RestTokens(rest)|
      ensures End(status == OK, pos) == ArgEnd(tokens, old(pos)) && (status == OK || status == SYNTAX_ERROR)
      decreases |tokens| - pos, 4
    {
      hide ArgEnd, RestCode, ArgCode, ArgTokens, RegisterArg, RestTokens, TokensAt, RegisterRest, ArgOk, RestOk;
      newEnd, done' := savedEnd, done;
      if good { NextOperator(tokens, pos - 1, rest, inner, done, first, vm.names, all); }
      ghost var code1 := vm.code[..];
      ghost var arg := if good then rest.arg else Plain(AInt(0));
      status := ParseArgument(good, arg, all);
      if status >= 3 {
        return;
      }
      newEnd := InsertArithmetic(good, code0, end0, code1, done, if good then ArgCode(arg, all) else [],
                                 first, savedEnd, op);
      if good {
        done' := WithOperator(done, first, op, ArgCode(arg, all));
      }
    }

    /** The operator goes in front of the first operand, or, later, in front of its own. */
    method InsertArithmetic(ghost good: bool, ghost code0: seq<byte>, ghost end0: nat, ghost code1: seq<byte>,
                            ghost done: seq<byte>, ghost arg: seq<byte>, ghost first: bool, savedEnd: nat, op: byte)
      returns (newEnd: nat)
      requires good ==>
        && end0 <= |code0| && end0 + |done| <= |code1| && code1[..end0 + |done|] == code0[..end0] + done
        && Written(code1, end0 + |done|, arg) && done != [] && arg != []
        && savedEnd == (if first then end0 else end0 + |done|) && end0 + |done| + |arg| + 2 < vm.code.Length
      modifies vm`end, vm`error, vm`overrun, vm.code
      ensures good ==> newEnd == vm.end && end0 <= |code0| && Written(code0, end0, WithOperator(done, first, op, arg))
    {
      ghost var code2, end2 := vm.code[..], vm.end;
      if good {
        assert code2[..end2] == code0[..end0] + done + arg;
      }
      newEnd := vm.InsertOperator(savedEnd, ARITH_OP, op);
      if good {
        OperatorInserted(code0[..end0], done, arg, first, op, code2, vm.code[..], vm.end);
      }
    }

    /** The loop of parse_expr: the operators of one side and the operands behind them. */
    method ParseOperators(ghost good: bool, ghost rest0: Rest, ghost inner: bool, ghost all: Names, savedEnd0: nat,
                          ghost table: seq<string>, ghost code0: seq<byte>, ghost end0: nat, ghost done0: seq<byte>,
                          ghost goal: seq<byte>)
      returns (status: nat)
      requires Valid()
        && (good ==> AtOperator(pos, rest0, inner, all, table, code0, end0, done0, true, savedEnd0, goal))
      modifies this, vm`end, vm`error, vm`overrun, vm`names, vm.code
      ensures Valid() && pos >= old(pos)
      ensures good ==>
        && status == OK && pos == old(pos) + |RestTokens(rest0)| + (if inner then 1 else 0)
        && vm.names == table && end0 <= |code0| && Written(code0, end0, goal)
      ensures End(status == OK, pos) == OpsEnd(tokens, old(pos)) && (status == OK || status == SYNTAX_ERROR)
      decreases |tokens| - pos, 1
    {
      hide AtOperator, Written, OpsEnd;
      ghost var rest, first, stop := rest0, true, pos + |RestTokens(rest0)|;
      ghost var done := done0;
      var savedEnd, more := savedEnd0, true;
      status := OK;
      while more
        invariant Valid() && pos >= old(pos) && (status == OK || status == SYNTAX_ERROR)
        invariant OpsEnd(tokens, old(pos)) == if more then OpsEnd(tokens, pos) else End(status == OK, pos)
        invariant good ==> status == OK
        invariant good && more ==>
          AtOperator(pos, rest, inner, all, table, code0, end0, done, first, savedEnd, goal)
            && pos + |RestTokens(rest)| == stop
        invariant good && !more ==>
          end0 <= |code0| && pos == stop + (if inner then 1 else 0) && vm.names == table && Written(code0, end0, goal)
        decreases more, |tokens| - pos
      {
        more, status, savedEnd, done :=
          ParseOneOperator(good, rest, inner, all, savedEnd, table, code0, end0, done, first, goal);
        if good && more {
          rest, first := rest.rest, false;
        }
      }
    }

    /** Writes the operator into the gap in front of a side and goes back behind the side. */
    method FillGap(ghost good: bool, ghost code0: seq<byte>, ghost end0: nat, op: byte, ghost side: seq<byte>,
                   savedEnd: nat)
      requires good ==>
        && end0 <= |code0| && !vm.error && !vm.overrun && vm.end == end0
        && savedEnd == end0 + 2 + |side| < vm.code.Length
        && vm.code[..savedEnd][..end0] == code0[..end0] && vm.code[..savedEnd][end0 + 2..] == side
      modifies vm`end, vm`error, vm`overrun, vm.code
      ensures good ==> end0 <= |code0| && Written(code0, end0, [CMP_OP, op] + side)
    {
      ghost var code1 := vm.code[..];
      vm.Put([CMP_OP, op]);
      ghost var code2 := vm.code[..];
      var _ := vm.SetEnd(savedEnd);
      if good {
        FilledGap(code0[..end0], [CMP_OP, op], side, code1, code2, savedEnd);
      }
    }

    /** parse_comparison. */
    method ParseComparison(ghost good: bool, ghost c: Comparison, ghost all: Names) returns (status: nat)
      requires Valid()
      requires good ==>
        && TokensAt(tokens, pos, ComparisonTokens(c)) && EndsSide(TokenOr(tokens, pos + |ComparisonTokens(c)|))
        && ComparisonOk(c, all) && RegisterSide(RegisterSide(vm.names, c.left), c.right) <= all
        && Room(|ComparisonCode(c, all)|)
      modifies this, vm`end, vm`error, vm`overrun, vm`names, vm.code
      ensures Valid() && pos >= old(pos)
      ensures good ==>
        && status == OK && pos == old(pos) + |ComparisonTokens(c)|
        && vm.names == RegisterSide(RegisterSide(old(vm.names), c.left), c.right)
        && Written(old(vm.code[..]), old(vm.end), ComparisonCode(c, all))
      ensures End(status == OK, pos) == ComparisonEnd(tokens, old(pos)) && (status == OK || status == SYNTAX_ERROR)
    {
      hide ExprEnd, SideCode, SideTokens, TokensAt, RegisterSide, ComparisonTokens, ComparisonCode, SideOk, PredCode,
        ExprCode;
      ghost var code0, end0, pos0, names0 := vm.code[..], vm.end, pos, vm.names;
      if good { ComparisonParts(tokens, pos, c, vm.names, all); }
      var savedEnd := vm.JumpToOperand();
      status := ParseExpr(good, c.left, false, all);
      if status >= 3 {
        return SYNTAX_ERROR;
      }
      savedEnd := vm.SetEnd(savedEnd);
      var t := Next();
      if !t.CmpToken? {
        return SYNTAX_ERROR;
      }
      FillGap(good, code0, end0, t.op, if good then SideCode(c.left, all) else [], savedEnd);
      status := ParseExpr(good, c.right, false, all);
      if status >= 3 {
        return SYNTAX_ERROR;
      }
      status := OK;
    }

    /** What stands behind a clause: its end, or a connective and tokens that are no comparison. */
    predicate ClauseEnd(at: nat, broken: bool)
    {
      if broken then
        && at < |tokens| && IsAndOr(tokens[at])
        && !TokenOr(tokens, at + 1).LeftParen? && !ComparisonEnd(tokens, at + 1).ok
      else EndsClause(TokenOr(tokens, at))
    }

    /** Somewhere in the loop of parse_where: done and the code of the comparison rest.c have been
        written, the links behind it are still to come, and the whole will be goal. */
    ghost predicate AtConnective(at: nat, rest: Clause, broken: bool, all: Names, table: seq<string>,
                                 done: seq<byte>, savedEnd: nat, goal: seq<byte>)
      reads vm, vm.code
    {
      && ClauseOk(rest, all) && ComparisonOk(rest.c, all)
      && (rest.Link? ==> TokensAt(tokens, at, [Conjunction(rest.conj)] + ClauseTokens(rest.rest)))
      && ClauseEnd(at + Remaining(rest), broken)
      && table <= all && table == (if rest.Link? then RegisterClause(vm.names, rest.rest) else vm.names)
      && savedEnd == |done| && Written([], 0, done + ComparisonCode(rest.c, all))
      && goal == done + ClauseCode(rest, all) && |goal| < vm.code.Length
    }

    /** The operator goes in front of the comparison that has just been written. */
    method InsertConnective(ghost good: bool, ghost done: seq<byte>, ghost c: seq<byte>, savedEnd: nat, op: byte)
      returns (newEnd: nat)
      requires good ==> savedEnd == |done| && c != [] && Written([], 0, done + c) && |done + c| + 2 < vm.code.Length
      modifies vm`end, vm`error, vm`overrun, vm.code
      ensures good ==> newEnd == vm.end == |done + c| + 2 && Written([], 0, done + [CMP_OP, op] + c)
    {
      ghost var code0 := vm.code[..];
      newEnd := vm.InsertOperator(savedEnd, CMP_OP, op);
      if good {
        assert code0[..|[] + done + c|] == [] + done + c;
        Inserted([], done, c, [CMP_OP, op], code0, vm.code[..], vm.end);
      }
    }

    lemma ClauseEndFacts(at: nat, broken: bool)
      requires ClauseEnd(at, broken)
      ensures EndsSide(TokenOr(tokens, at)) && (broken <==> IsAndOr(TokenOr(tokens, at)))
      ensures broken ==>
        at < |tokens| && !TokenOr(tokens, at + 1).LeftParen? && !ComparisonEnd(tokens, at + 1).ok
    {
    }

    lemma WrittenTwice(code1: seq<byte>, end1: nat, a: seq<byte>, b: seq<byte>)
      requires end1 == |a| <= |code1| && code1[..end1] == a && Written(code1, end1, b)
      ensures Written([], 0, a + b)
    {
    }

    lemma WrittenBytes(a: seq<byte>)
      requires Written([], 0, a)
      ensures vm.end == |a| <= vm.code.Length && vm.code[..][..vm.end] == a && !vm.error && !vm.overrun
    {
    }

    /** One turn of the loop of parse_where. */
    method ParseOneConnective(ghost good: bool, ghost rest: Clause, ghost broken: bool, ghost all: Names,
                              ghost table: seq<string>, ghost done: seq<byte>, savedEnd: nat, ghost goal: seq<byte>)
      returns (more: bool, status: nat, newEnd: nat, ghost done': seq<byte>)
      requires Valid() && (good ==> AtConnective(pos, rest, broken, all, table, done, savedEnd, goal))
      modifies this, vm`end, vm`error, vm`overrun, vm`names, vm.code
      ensures Valid() && pos >= old(pos) && (more ==> pos > old(pos))
      ensures good ==> more == rest.Link? && status == (if broken && rest.Last? then 0 else OK)
      ensures good && more ==>
        && AtConnective(pos, rest.rest, broken, all, table, done', newEnd, goal)
        && pos + Remaining(rest.rest) == old(pos) + Remaining(rest)
      ensures good && !more && !broken ==> pos == old(pos) && vm.names == table && Written([], 0, goal)
      ensures LinksEnd(tokens, old(pos)) == if more then LinksEnd(tokens, pos) else Outcome(status, pos)
      ensures more ==> status == OK
      decreases |tokens| - pos, 0
    {
      LinksEndStep(tokens, pos);
      hide LinksEnd, PropositionEnd, AtConnective, Written, Remaining, ClauseTokens, EndsSide, ClauseEnd,
        RegisterClause, ClauseOk;
      newEnd, done' := savedEnd, done;
      if good { ConnectiveNext(pos, rest, broken, all, table, done, savedEnd, goal); }
      var t := Next();
      if t != AndToken && t != OrToken {
        Rewind();
        return false, OK, savedEnd, done;
      }
      status, newEnd, done' :=
        ParseLink(good && rest.Link?, rest, broken, all, table, done, savedEnd, goal, t == AndToken);
      more := status == OK;
    }

    lemma ConnectiveNext(at: nat, rest: Clause, broken: bool, all: Names, table: seq<string>, done: seq<byte>,
                         savedEnd: nat, goal: seq<byte>)
      requires AtConnective(at, rest, broken, all, table, done, savedEnd, goal)
      ensures rest.Link? ==> TokenOr(tokens, at) == Conjunction(rest.conj)
      ensures rest.Last? ==> Remaining(rest) == 0 && (broken <==> IsAndOr(TokenOr(tokens, at)))
      ensures rest.Last? && broken ==> PropositionEnd(tokens, at + 1).status == 0
      ensures rest.Last? ==> vm.names == table && Written([], 0, goal)
    {
      hide ComparisonEnd, ComparisonCode, ComparisonTokens, ClauseTokens, TokensAt, RegisterSide, RegisterClause,
        ClauseOk, ComparisonOk;
      LinkParts(tokens, at, rest, done, vm.names, all);
    }

    /** Behind a connective: the connective goes to its place, and a comparison follows. */
    method ParseLink(ghost good: bool, ghost rest: Clause, ghost broken: bool, ghost all: Names,
                     ghost table: seq<string>, ghost done: seq<byte>, savedEnd: nat, ghost goal: seq<byte>, conj: bool)
      returns (status: nat, newEnd: nat, ghost done': seq<byte>)
      requires Valid() && pos > 0
      requires good ==>
        rest.Link? && rest.conj == conj && AtConnective(pos - 1, rest, broken, all, table, done, savedEnd, goal)
      modifies this, vm`end, vm`error, vm`overrun, vm`names, vm.code
      ensures Valid() && pos >= old(pos)
      ensures good ==>
        && status == OK && AtConnective(pos, rest.rest, broken, all, table, done', newEnd, goal)
        && pos + Remaining(rest.rest) == old(pos) - 1 + Remaining(rest)
      ensures Outcome(status, pos) == PropositionEnd(tokens, old(pos))
      decreases |tokens| - pos, 4
    {
      hide ComparisonEnd, PropositionEnd, ClauseEnd, ComparisonCode, ClauseCode, ComparisonTokens, ClauseTokens,
        TokensAt, RegisterSide, RegisterClause, ClauseOk, ComparisonOk, Written;
      if good {
        ClauseEndFacts(pos - 1 + Remaining(rest), broken);
        LinkParts(tokens, pos - 1, rest, done, vm.names, all);
      }
      newEnd := InsertConnective(good, done, if good then ComparisonCode(rest.c, all) else [], savedEnd,
                                 if conj then AND else OR);
      done' := if good then done + [CMP_OP, if conj then AND else OR] + ComparisonCode(rest.c, all) else done;
      ghost var code1, end1 := vm.code[..], vm.end;
      if good { WrittenBytes(done'); }
      status := ParseProposition(good, if good then rest.rest.c else rest.c, all);
      if good {
        WrittenTwice(code1, end1, done', ComparisonCode(rest.rest.c, all));
      }
    }

    /** What follows a connective: a nested clause in parentheses, or a comparison. */
    method ParseProposition(ghost good: bool, ghost c: Comparison, ghost all: Names) returns (status: nat)
      requires Valid()
      requires good ==>
        && TokensAt(tokens, pos, ComparisonTokens(c)) && EndsSide(TokenOr(tokens, pos + |ComparisonTokens(c)|))
        && pos < |tokens| && !tokens[pos].LeftParen?
        && ComparisonOk(c, all) && RegisterSide(RegisterSide(vm.names, c.left), c.right) <= all
        && Room(|ComparisonCode(c, all)|)
      modifies this, vm`end, vm`error, vm`overrun, vm`names, vm.code
      ensures Valid() && pos >= old(pos)
      ensures good ==>
        && status == OK && pos == old(pos) + |ComparisonTokens(c)|
        && vm.names == RegisterSide(RegisterSide(old(vm.names), c.left), c.right)
        && Written(old(vm.code[..]), old(vm.end), ComparisonCode(c, all))
      ensures Outcome(status, pos) == PropositionEnd(tokens, old(pos))
      ensures status == 0 <==> !TokenOr(tokens, old(pos)).LeftParen? && !ComparisonEnd(tokens, old(pos)).ok
      decreases |tokens| - pos, 3
    {
      hide ComparisonEnd, WhereEnd, ComparisonCode, ComparisonTokens, TokensAt, RegisterSide, ComparisonOk;
      var t := Next();
      if t.LeftParen? {
        status := ParseWhere(false, Last(c), false, all);
        if status >= 3 {
          return SYNTAX_ERROR;
        }
        t := Next();
        return if t.RightParen? then OK else SYNTAX_ERROR;
      }
      Rewind();
      status := ParseComparison(good, c, all);
      status := if status >= 3 then 0 else OK;
    }

    /** parse_where. If a connective and a token that starts no comparison follow the clause, it returns
        0, which its callers take for success, because only numbers from SYNTAX_ERROR on are errors. */
    method ParseWhere(ghost good: bool, ghost w: Clause, ghost broken: bool, ghost all: Names) returns (status: nat)
      requires Valid()
      requires good ==>
        && TokensAt(tokens, pos, ClauseTokens(w)) && ClauseEnd(pos + |ClauseTokens(w)|, broken)
        && ClauseOk(w, all) && RegisterClause(vm.names, w) <= all
        && vm.end == 0 && Room(|ClauseCode(w, all)|)
      modifies this, vm`end, vm`error, vm`overrun, vm`names, vm.code
      ensures Valid() && pos >= old(pos)
      ensures good ==> status == if broken then 0 else OK
      ensures good && !broken ==>
        && pos == old(pos) + |ClauseTokens(w)|
        && vm.names == RegisterClause(old(vm.names), w)
        && Written([], 0, ClauseCode(w, all))
      ensures Outcome(status, pos) == WhereEnd(tokens, old(pos))
      decreases |tokens| - pos, 2
    {
      hide ComparisonEnd, LinksEnd, ComparisonCode, ClauseCode, ComparisonTokens, ClauseTokens, TokensAt,
        RegisterSide, RegisterClause, ClauseOk, ComparisonOk, AtConnective, ClauseEnd, Remaining;
      ghost var table := if good then RegisterClause(vm.names, w) else [];
      ghost var goal := if good then ClauseCode(w, all) else [];
      ghost var start, names0 := pos, vm.names;
      if good { FirstComparison(pos, w, broken, names0, all); }
      status := ParseComparison(good, w.c, all);
      if status >= 3 {
        return SYNTAX_ERROR;
      }
      if good { FirstConnective(start, w, broken, names0, all); }
      status := ParseConnectives(good, w, broken, all, table, goal);
    }

    lemma FirstComparison(at: nat, w: Clause, broken: bool, names: seq<string>, all: Names)
      requires TokensAt(tokens, at, ClauseTokens(w)) && ClauseEnd(at + |ClauseTokens(w)|, broken)
      requires ClauseOk(w, all) && RegisterClause(names, w) <= all
      ensures TokensAt(tokens, at, ComparisonTokens(w.c)) && EndsSide(TokenOr(tokens, at + |ComparisonTokens(w.c)|))
      ensures ComparisonOk(w.c, all) && RegisterSide(RegisterSide(names, w.c.left), w.c.right) <= all
      ensures |ComparisonCode(w.c, all)| <= |ClauseCode(w, all)|
      ensures |ClauseTokens(w)| == |ComparisonTokens(w.c)| + Remaining(w)
    {
      hide ComparisonEnd, ComparisonCode, ComparisonTokens, ClauseTokens, ClauseCode, TokensAt, RegisterSide,
        RegisterClause, ClauseOk, ComparisonOk;
      ClauseParts(tokens, at, w, names, all);
    }

    lemma FirstConnective(at: nat, w: Clause, broken: bool, names: seq<string>, all: Names)
      requires TokensAt(tokens, at, ClauseTokens(w)) && ClauseEnd(at + |ClauseTokens(w)|, broken)
      requires ClauseOk(w, all) && ComparisonOk(w.c, all) && RegisterClause(names, w) <= all
      requires pos == at + |ComparisonTokens(w.c)| && Written([], 0, ComparisonCode(w.c, all))
      requires vm.names == RegisterSide(RegisterSide(names, w.c.left), w.c.right)
        && |ClauseCode(w, all)| < vm.code.Length
      ensures AtConnective(pos, w, broken, all, RegisterClause(names, w), [], 0, ClauseCode(w, all))
    {
      hide ComparisonEnd, ComparisonCode, ComparisonTokens, ClauseTokens, ClauseCode, TokensAt, RegisterSide,
        RegisterClause, ClauseOk, ComparisonOk, ClauseEnd, Written;
      ClauseParts(tokens, at, w, names, all);
      assert [] + ComparisonCode(w.c, all) == ComparisonCode(w.c, all) && [] + ClauseCode(w, all) == ClauseCode(w, all);
    }

    /** The loop of parse_where. */
    method ParseConnectives(ghost good: bool, ghost w: Clause, ghost broken: bool, ghost all: Names,
                            ghost table: seq<string>, ghost goal: seq<byte>)
      returns (status: nat)
      requires Valid() && (good ==> AtConnective(pos, w, broken, all, table, [], 0, goal))
      modifies this, vm`end, vm`error, vm`overrun, vm`names, vm.code
      ensures Valid() && pos >= old(pos)
      ensures good ==> status == if broken then 0 else OK
      ensures good && !broken ==> pos == old(pos) + Remaining(w) && vm.names == table && Written([], 0, goal)
      ensures Outcome(status, pos) == LinksEnd(tokens, old(pos))
      decreases |tokens| - pos, 1
    {
      hide AtConnective, Written, LinksEnd;
      ghost var rest, stop := w, pos + Remaining(w);
      ghost var done: seq<byte> := [];
      var savedEnd, more := 0, true;
      status := OK;
      while more
        invariant Valid() && pos >= old(pos) && (more ==> status == OK)
        invariant LinksEnd(tokens, old(pos)) == if more then LinksEnd(tokens, pos) else Outcome(status, pos)
        invariant good ==> status == if broken && !more then 0 else OK
        invariant good && more ==>
          AtConnective(pos, rest, broken, all, table, done, savedEnd, goal) && pos + Remaining(rest) == stop
        invariant good && !more && !broken ==> pos == stop && vm.names == table && Written([], 0, goal)
        decreases more, |tokens| - pos
      {
        more, status, savedEnd, done := ParseOneConnective(good, rest, broken, all, table, done, savedEnd, goal);
        if good && more {
          rest := rest.rest;
        }
      }
    }
  }
}
