/** Antelope's WHERE clauses: the recursive-descent parser that compiles them to prefix code while
    it reads, by shifting code that is already written. */
module WhereCompiler {
  import opened Basics
  import opened Lvm

  // ----- tokens and clauses -----

  datatype Token =
    | Identifier(name: string) | Integer(l: int) | StringValue | FloatValue
    | ArithToken(op: byte) | CmpToken(op: byte) | AndToken | OrToken
    | LeftParen | RightParen | Other | NoToken

  /** What the lexer can deliver. */
  predicate TokenOk(t: Token) {
    && (t.Integer? ==> IsLong(t.l))
    && (t.ArithToken? ==> ADD <= t.op <= DIV)
    && (t.CmpToken? ==> EQ <= t.op <= LEQ)
  }

  datatype Atom = AVar(name: string) | AInt(l: int)

  /** One side of a comparison: operands joined by arithmetic operators. An operand behind an
      operator may be a parenthesized side. */
  datatype Side = Side(first: Atom, rest: Rest)
  datatype Rest = Stop | More(op: byte, arg: Arg, rest: Rest)
  datatype Arg = Plain(a: Atom) | Paren(s: Side)

  datatype Comparison = Comparison(left: Side, op: byte, right: Side)
  datatype Clause = Last(c: Comparison) | Link(c: Comparison, conj: bool, rest: Clause)

  function AtomToken(a: Atom): Token {
    match a
    case AVar(name) => Identifier(name)
    case AInt(l) => Integer(l)
  }

  function SideTokens(s: Side): (ts: seq<Token>)
    ensures |ts| >= 1
  {
    [AtomToken(s.first)] + RestTokens(s.rest)
  }

  function RestTokens(r: Rest): seq<Token> {
    match r
    case Stop => []
    case More(op, arg, rest) => [ArithToken(op)] + ArgTokens(arg) + RestTokens(rest)
  }

  function ArgTokens(arg: Arg): (ts: seq<Token>)
    ensures |ts| >= 1
  {
    match arg
    case Plain(a) => [AtomToken(a)]
    case Paren(s) => [LeftParen] + SideTokens(s) + [RightParen]
  }

  function ComparisonTokens(c: Comparison): (ts: seq<Token>)
    ensures |ts| >= 3
  {
    SideTokens(c.left) + [CmpToken(c.op)] + SideTokens(c.right)
  }

  function ClauseTokens(w: Clause): (ts: seq<Token>)
    ensures |ts| >= 3
  {
    match w
    case Last(c) => ComparisonTokens(c)
    case Link(c, conj, rest) => ComparisonTokens(c) + [if conj then AndToken else OrToken] + ClauseTokens(rest)
  }

  // ----- the variable table after reading -----

  function RegisterAtom(names: seq<string>, a: Atom): seq<string> {
    if a.AVar? then Register(names, a.name) else names
  }

  function RegisterSide(names: seq<string>, s: Side): seq<string>
    decreases s
  {
    RegisterRest(RegisterAtom(names, s.first), s.rest)
  }

  function RegisterRest(names: seq<string>, r: Rest): seq<string>
    decreases r
  {
    match r
    case Stop => names
    case More(_, arg, rest) => RegisterRest(RegisterArg(names, arg), rest)
  }

  function RegisterArg(names: seq<string>, arg: Arg): seq<string>
    decreases arg
  {
    match arg
    case Plain(a) => RegisterAtom(names, a)
    case Paren(s) => RegisterSide(names, s)
  }

  function RegisterClause(names: seq<string>, w: Clause): seq<string>
    decreases w
  {
    var names' := RegisterSide(RegisterSide(names, w.c.left), w.c.right);
    match w
    case Last(_) => names'
    case Link(_, _, rest) => RegisterClause(names', rest)
  }

  /** All variables found room in the table, and all constants and operators are in range. */
  predicate AtomOk(a: Atom, names: seq<string>) {
    match a
    case AVar(name) => name in names
    case AInt(l) => IsLong(l)
  }

  predicate SideOk(s: Side, names: seq<string>) {
    AtomOk(s.first, names) && RestOk(s.rest, names)
  }

  predicate RestOk(r: Rest, names: seq<string>) {
    match r
    case Stop => true
    case More(op, arg, rest) => ADD <= op <= DIV && ArgOk(arg, names) && RestOk(rest, names)
  }

  predicate ArgOk(arg: Arg, names: seq<string>) {
    match arg
    case Plain(a) => AtomOk(a, names)
    case Paren(s) => SideOk(s, names)
  }

  predicate ComparisonOk(c: Comparison, names: seq<string>) {
    SideOk(c.left, names) && EQ <= c.op <= LEQ && SideOk(c.right, names)
  }

  predicate ClauseOk(w: Clause, names: seq<string>) {
    ComparisonOk(w.c, names) && (w.Link? ==> ClauseOk(w.rest, names))
  }

  // ----- the code that comes out -----

  type Names = names: seq<string> | |names| <= MAX_VARIABLE_ID

  function AtomExpr(a: Atom, names: Names): (e: Expr)
    requires AtomOk(a, names)
    ensures ExprOk(e, MAX_VARIABLE_ID) && !e.Bin?
  {
    match a
    case AVar(name) => Var(Lookup(names, name))
    case AInt(l) => Const(l)
  }

  /** The first operator of a side goes in front of the operand before it; every later one goes
      in front of the operand behind it, because by then the saved position has moved. */
  function SideCode(s: Side, names: Names): (code: seq<byte>)
    requires SideOk(s, names)
    ensures |code| >= 2
    decreases s
  {
    RestCode(ExprCode(AtomExpr(s.first, names)), s.rest, true, names)
  }

  function RestCode(done: seq<byte>, r: Rest, first: bool, names: Names): (code: seq<byte>)
    requires RestOk(r, names)
    ensures |code| >= |done|
    decreases r
  {
    match r
    case Stop => done
    case More(op, arg, rest) =>
      RestCode(if first then [ARITH_OP, op] + done + ArgCode(arg, names)
               else done + [ARITH_OP, op] + ArgCode(arg, names), rest, false, names)
  }

  function ArgCode(arg: Arg, names: Names): (code: seq<byte>)
    requires ArgOk(arg, names)
    ensures |code| >= 2
    decreases arg
  {
    match arg
    case Plain(a) => ExprCode(AtomExpr(a, names))
    case Paren(s) => SideCode(s, names)
  }

  function ComparisonCode(c: Comparison, names: Names): (code: seq<byte>)
    requires ComparisonOk(c, names)
    ensures |code| >= 6
  {
    [CMP_OP, c.op] + SideCode(c.left, names) + SideCode(c.right, names)
  }

  function ClauseCode(w: Clause, names: Names): (code: seq<byte>)
    requires ClauseOk(w, names)
    ensures |code| >= 6
  {
    match w
    case Last(c) => ComparisonCode(c, names)
    case Link(c, conj, rest) =>
      [CMP_OP, if conj then AND else OR] + ComparisonCode(c, names) + ClauseCode(rest, names)
  }

  // ----- the meaning the clause should have -----

  /** Operators of one side associate to the left. */
  function SideExpr(s: Side, names: Names): (e: Expr)
    requires SideOk(s, names)
    ensures ExprOk(e, MAX_VARIABLE_ID)
    decreases s
  {
    RestExpr(AtomExpr(s.first, names), s.rest, names)
  }

  function RestExpr(e: Expr, r: Rest, names: Names): (e': Expr)
    requires ExprOk(e, MAX_VARIABLE_ID) && RestOk(r, names)
    ensures ExprOk(e', MAX_VARIABLE_ID)
    decreases r
  {
    match r
    case Stop => e
    case More(op, arg, rest) => RestExpr(Bin(op, e, ArgExpr(arg, names)), rest, names)
  }

  function ArgExpr(arg: Arg, names: Names): (e: Expr)
    requires ArgOk(arg, names)
    ensures ExprOk(e, MAX_VARIABLE_ID)
    decreases arg
  {
    match arg
    case Plain(a) => AtomExpr(a, names)
    case Paren(s) => SideExpr(s, names)
  }

  /** Connectives group to the right, with equal precedence. */
  function ClausePred(w: Clause, names: Names): (t: Pred)
    requires ClauseOk(w, names)
    ensures PredOk(t, MAX_VARIABLE_ID)
  {
    var t := Cmp(w.c.op, SideExpr(w.c.left, names), SideExpr(w.c.right, names));
    match w
    case Last(_) => t
    case Link(_, conj, rest) =>
      if conj then And(t, ClausePred(rest, names)) else Or(t, ClausePred(rest, names))
  }

  /** At most one operator in a row, inside parentheses too. */
  predicate Unchained(s: Side) {
    s.rest.Stop? || (s.rest.rest.Stop? && (s.rest.arg.Paren? ==> Unchained(s.rest.arg.s)))
  }

  predicate ClauseUnchained(w: Clause) {
    Unchained(w.c.left) && Unchained(w.c.right) && (w.Link? ==> ClauseUnchained(w.rest))
  }

  // ----- when the code means what it should -----

  /** Prefix code can be read in one way only. */
  lemma {:induction false} UniqueReading(e: Expr, f: Expr, t: seq<byte>, u: seq<byte>)
    requires ExprOk(e, MAX_VARIABLE_ID) && ExprOk(f, MAX_VARIABLE_ID)
    requires ExprCode(e) + t == ExprCode(f) + u
    ensures e == f && t == u
    decreases e
  {
    hide ExprCode;
    FirstByte(e);
    FirstByte(f);
    assert (ExprCode(e) + t)[0] == ExprCode(e)[0] && (ExprCode(f) + u)[0] == ExprCode(f)[0];
    if e.Bin? {
      NodeCode(e, t);
      NodeCode(f, u);
      var d: seq<byte>, d': seq<byte> := [ARITH_OP, e.op], [ARITH_OP, f.op];
      SplitEqual(d, d', ExprCode(e.left) + (ExprCode(e.right) + t), ExprCode(f.left) + (ExprCode(f.right) + u));
      assert e.op == d[1] == d'[1] == f.op;
      UniqueReading(e.left, f.left, ExprCode(e.right) + t, ExprCode(f.right) + u);
      UniqueReading(e.right, f.right, t, u);
    } else {
      SplitEqual(ExprCode(e), ExprCode(f), t, u);
      UniqueOperand(e, f);
    }
  }

  lemma FirstByte(e: Expr)
    requires ExprOk(e, MAX_VARIABLE_ID)
    ensures ExprCode(e)[0] == if e.Bin? then ARITH_OP else OPERAND
    ensures !e.Bin? ==> |ExprCode(e)| == 1 + OPERAND_SIZE
  {
  }

  lemma NodeCode(e: Expr, t: seq<byte>)
    requires ExprOk(e, MAX_VARIABLE_ID) && e.Bin?
    ensures ExprCode(e) + t == [ARITH_OP, e.op] + (ExprCode(e.left) + (ExprCode(e.right) + t))
  {
  }

  lemma SplitEqual(a: seq<byte>, b: seq<byte>, t: seq<byte>, u: seq<byte>)
    requires |a| == |b| && a + t == b + u
    ensures a == b && t == u
  {
    assert a == (a + t)[..|a|] == b;
    assert t == (a + t)[|a|..] == u;
  }

  lemma UniqueOperand(e: Expr, f: Expr)
    requires ExprOk(e, MAX_VARIABLE_ID) && ExprOk(f, MAX_VARIABLE_ID) && !e.Bin? && !f.Bin?
    requires ExprCode(e) == ExprCode(f)
    ensures e == f
  {
    hide LongBytes, LongOf;
    assert e.Const? <==> ExprCode(e)[1] == LVM_LONG;
    assert f.Const? <==> ExprCode(f)[1] == LVM_LONG;
    if e.Const? {
      assert LongBytes(e.l) == ExprCode(e)[5..] == ExprCode(f)[5..] == LongBytes(f.l);
      LongRoundTrip(e.l);
      LongRoundTrip(f.l);
    } else {
      assert e.id == ExprCode(e)[5] == ExprCode(f)[5] == f.id;
    }
  }

  /** The code of a side starts with the code of one expression. It is that expression's code
      alone exactly when the side is unchained, and then it is the expected expression. */
  lemma {:induction false} SideReading(s: Side, names: Names) returns (e: Expr, extra: seq<byte>)
    requires SideOk(s, names)
    ensures ExprOk(e, MAX_VARIABLE_ID)
    ensures SideCode(s, names) == ExprCode(e) + extra
    ensures extra == [] <==> Unchained(s)
    ensures Unchained(s) ==> e == SideExpr(s, names)
    decreases s
  {
    hide RestCode;
    var a := AtomExpr(s.first, names);
    match s.rest
    case Stop =>
      e, extra := a, [];
      SingleOperand(s, names);
    case More(op, arg, rest) =>
      assert RestOk(s.rest, names) && ArgOk(arg, names);
      var x, more: seq<byte>;
      match arg {
        case Plain(b) =>
          x, more := AtomExpr(b, names), [];
        case Paren(inner) =>
          x, more := SideReading(inner, names);
      }
      e := Bin(op, a, x);
      assert SideExpr(s, names) == RestExpr(Bin(op, a, ArgExpr(arg, names)), rest, names);
      extra := more + RestCode([], rest, false, names);
      SideShape(s, names);
      NodeCode(e, more);
      LaterOperators(rest, names);
      Regroup([ARITH_OP, op], ExprCode(a), ExprCode(x), more, RestCode([], rest, false, names));
  }

  lemma SingleOperand(s: Side, names: Names)
    requires SideOk(s, names) && s.rest.Stop?
    ensures SideCode(s, names) == ExprCode(AtomExpr(s.first, names)) + []
  {
  }

  lemma SideShape(s: Side, names: Names)
    requires SideOk(s, names) && s.rest.More?
    ensures AtomOk(s.first, names) && ArgOk(s.rest.arg, names) && RestOk(s.rest.rest, names)
    ensures SideCode(s, names)
      == [ARITH_OP, s.rest.op] + ExprCode(AtomExpr(s.first, names)) + ArgCode(s.rest.arg, names)
      + RestCode([], s.rest.rest, false, names)
  {
    hide ExprCode;
    assert RestOk(s.rest, names);
    AppendOnly([ARITH_OP, s.rest.op] + ExprCode(AtomExpr(s.first, names)) + ArgCode(s.rest.arg, names),
               s.rest.rest, names);
  }

  lemma LaterOperators(r: Rest, names: Names)
    requires RestOk(r, names)
    ensures RestCode([], r, false, names) == [] <==> r.Stop?
  {
    if r.More? {
      assert |[] + [ARITH_OP, r.op] + ArgCode(r.arg, names)| >= 2;
    }
  }

  lemma Regroup(d: seq<byte>, a: seq<byte>, x: seq<byte>, more: seq<byte>, rest: seq<byte>)
    ensures d + a + (x + more) + rest == d + a + x + (more + rest)
    ensures d + (a + (x + more)) == d + a + x + more
  {
  }

  lemma {:induction false} AppendOnly(done: seq<byte>, r: Rest, names: Names)
    requires RestOk(r, names)
    ensures RestCode(done, r, false, names) == done + RestCode([], r, false, names)
    decreases r
  {
    match r
    case Stop =>
    case More(op, arg, rest) =>
      var step: seq<byte> := [ARITH_OP, op] + ArgCode(arg, names);
      AppendOnly(done + step, rest, names);
      AppendOnly(step, rest, names);
      assert done + [ARITH_OP, op] + ArgCode(arg, names) == done + step;
      assert [] + [ARITH_OP, op] + ArgCode(arg, names) == step;
      assert done + step + RestCode([], rest, false, names) == done + (step + RestCode([], rest, false, names));
  }

  /** The code of a side is the code of some expression exactly when the side is unchained. */
  lemma SideIsExpression(s: Side, names: Names)
    requires SideOk(s, names)
    ensures (exists e :: ExprOk(e, MAX_VARIABLE_ID) && ExprCode(e) == SideCode(s, names)) <==> Unchained(s)
    ensures SideCode(s, names) == ExprCode(SideExpr(s, names)) <==> Unchained(s)
  {
    var e, extra := SideReading(s, names);
    forall f | ExprOk(f, MAX_VARIABLE_ID) && ExprCode(f) == SideCode(s, names)
      ensures Unchained(s)
    {
      assert ExprCode(f) + [] == ExprCode(e) + extra;
      UniqueReading(f, e, [], extra);
    }
    if Unchained(s) {
      assert ExprCode(e) == SideCode(s, names);
    }
  }

  /** Chained or not, no byte is lost. */
  lemma {:induction false} SideLength(s: Side, names: Names)
    requires SideOk(s, names)
    ensures |SideCode(s, names)| == |ExprCode(SideExpr(s, names))|
    decreases s
  {
    RestLength(ExprCode(AtomExpr(s.first, names)), AtomExpr(s.first, names), s.rest, true, names);
  }

  lemma {:induction false} RestLength(done: seq<byte>, e: Expr, r: Rest, first: bool, names: Names)
    requires ExprOk(e, MAX_VARIABLE_ID) && RestOk(r, names) && |done| == |ExprCode(e)|
    ensures |RestCode(done, r, first, names)| == |ExprCode(RestExpr(e, r, names))|
    decreases r
  {
    match r
    case Stop =>
    case More(op, arg, rest) =>
      match arg {
        case Plain(_) =>
        case Paren(s) => SideLength(s, names);
      }
      assert |ArgCode(arg, names)| == |ExprCode(ArgExpr(arg, names))|;
      NodeCode(Bin(op, e, ArgExpr(arg, names)), []);
      RestLength(if first then [ARITH_OP, op] + done + ArgCode(arg, names)
        else done + [ARITH_OP, op] + ArgCode(arg, names),
                 Bin(op, e, ArgExpr(arg, names)), rest, false, names);
  }

  /** The compiled clause is the prefix code of its meaning exactly when no side chains operators. */
  lemma {:induction false} ClauseCodeCorrect(w: Clause, names: Names)
    requires ClauseOk(w, names)
    ensures ClauseCode(w, names) == PredCode(ClausePred(w, names)) <==> ClauseUnchained(w)
    ensures |ClauseCode(w, names)| == |PredCode(ClausePred(w, names))|
    decreases w
  {
    hide ExprCode, SideCode, SideExpr, Unchained;
    ComparisonCodeCorrect(w.c, names);
    if w.Link? {
      ClauseCodeCorrect(w.rest, names);
      var head: seq<byte> := [CMP_OP, if w.conj then AND else OR];
      var t := Cmp(w.c.op, SideExpr(w.c.left, names), SideExpr(w.c.right, names));
      var rest := ClausePred(w.rest, names);
      assert PredCode(ClausePred(w, names)) == head + PredCode(t) + PredCode(rest);
      if ClauseCode(w, names) == PredCode(ClausePred(w, names)) {
        SplitEqual(head + ComparisonCode(w.c, names), head + PredCode(t), ClauseCode(w.rest, names), PredCode(rest));
        SplitEqual(head, head, ComparisonCode(w.c, names), PredCode(t));
      }
    }
  }

  lemma ComparisonCodeCorrect(c: Comparison, names: Names)
    requires ComparisonOk(c, names)
    ensures var t := Cmp(c.op, SideExpr(c.left, names), SideExpr(c.right, names));
      && |ComparisonCode(c, names)| == |PredCode(t)|
      && (ComparisonCode(c, names) == PredCode(t) <==> Unchained(c.left) && Unchained(c.right))
  {
    hide ExprCode, SideCode, SideExpr, Unchained;
    var head: seq<byte> := [CMP_OP, c.op];
    var l, r := SideExpr(c.left, names), SideExpr(c.right, names);
    SideLength(c.left, names);
    SideLength(c.right, names);
    SideIsExpression(c.left, names);
    SideIsExpression(c.right, names);
    if ComparisonCode(c, names) == head + ExprCode(l) + ExprCode(r) {
      SplitEqual(head + SideCode(c.left, names), head + ExprCode(l), SideCode(c.right, names), ExprCode(r));
      SplitEqual(head, head, SideCode(c.left, names), ExprCode(l));
    }
  }

  /** From clause to verdict: running the compiled clause gives its truth value, or MATH_ERROR
      exactly when some divisor in it is zero. */
  lemma CompiledClauseRuns(w: Clause, names: Names, vars: seq<int>, tail: seq<byte>)
    requires ClauseOk(w, names) && ClauseUnchained(w) && |vars| == MAX_VARIABLE_ID
    ensures Execute(ClauseCode(w, names) + tail, vars) ==
      if PredZeroDivisor(ClausePred(w, names), vars) then Error(MATH_ERROR)
      else Done(Holds(ClausePred(w, names), vars), |ClauseCode(w, names)|)
  {
    ClauseCodeCorrect(w, names);
    ExecuteCorrect(ClausePred(w, names), vars, tail);
  }

  /** What a chain of two operators compiles to, for all operands: the last operand of the left
      side moves over to the right side. */
  lemma ChainReading(a: Atom, op1: byte, b: Atom, op2: byte, c: Atom, cmp: byte, d: Atom, names: Names)
    requires AtomOk(a, names) && AtomOk(b, names) && AtomOk(c, names) && AtomOk(d, names)
    requires ADD <= op1 <= DIV && ADD <= op2 <= DIV && EQ <= cmp <= LEQ
    ensures var w := Comparison(Side(a, More(op1, Plain(b), More(op2, Plain(c), Stop))), cmp, Side(d, Stop));
      && ComparisonOk(w, names)
      && ComparisonCode(w, names) == PredCode(Cmp(cmp, Bin(op1, AtomExpr(a, names), AtomExpr(b, names)),
                                                       Bin(op2, AtomExpr(c, names), AtomExpr(d, names))))
  {
    hide ExprCode;
    var ea, eb, ec, ed := AtomExpr(a, names), AtomExpr(b, names), AtomExpr(c, names), AtomExpr(d, names);
    var last := More(op2, Plain(c), Stop);
    var left, right := Side(a, More(op1, Plain(b), last)), Side(d, Stop);
    assert RestOk(last, names) && RestOk(left.rest, names);
    SideShape(left, names);
    SingleOperand(right, names);
    BinCode(op1, ea, eb);
    BinCode(op2, ec, ed);
    var d0: seq<byte>, d1: seq<byte>, d2: seq<byte> := [CMP_OP, cmp], [ARITH_OP, op1], [ARITH_OP, op2];
    assert RestCode([], last, false, names) == d2 + ExprCode(ec);
    assert d0 + (d1 + ExprCode(ea) + ExprCode(eb) + (d2 + ExprCode(ec))) + ExprCode(ed)
        == d0 + (d1 + ExprCode(ea) + ExprCode(eb)) + (d2 + ExprCode(ec) + ExprCode(ed));
    assert SideCode(left, names) == d1 + ExprCode(ea) + ExprCode(eb) + (d2 + ExprCode(ec));
    assert SideCode(right, names) == ExprCode(ed);
  }

  lemma BinCode(op: byte, a: Expr, b: Expr)
    requires ADD <= op <= DIV && ExprOk(a, MAX_VARIABLE_ID) && ExprOk(b, MAX_VARIABLE_ID)
    ensures ExprCode(Bin(op, a, b)) == [ARITH_OP, op] + ExprCode(a) + ExprCode(b)
  {
  }

  /** 1 + 1 + 9 > 5. */
  function Misread(): Comparison {
    Comparison(Side(AInt(1), More(ADD, Plain(AInt(1)), More(ADD, Plain(AInt(9)), Stop))), GE, Side(AInt(5), Stop))
  }

  /** So a chain can change the verdict: 1 + 1 + 9 > 5 is run as 1 + 1 > 9 + 5. */
  lemma ChainMisread()
    ensures var w, vars := Last(Misread()), [0, 0, 0, 0];
      && ClauseOk(w, []) && !Unchained(w.c.left) && PredOk(ClausePred(w, []), MAX_VARIABLE_ID)
      && Holds(ClausePred(w, []), vars) && Execute(ClauseCode(w, []), vars) == Done(false, |ClauseCode(w, [])|)
  {
    hide Execute, PredCode, ComparisonCode, ComparisonOk, Unchained, Value, ZeroDivisor;
    var sum, sum' := Bin(ADD, Const(1), Const(1)), Bin(ADD, Const(9), Const(5));
    ChainReading(AInt(1), ADD, AInt(1), ADD, AInt(9), GE, AInt(5), []);
    MisreadMeaning();
    MisreadTree();
    ExecuteCorrect(Cmp(GE, sum, sum'), [0, 0, 0, 0], []);
    assert PredCode(Cmp(GE, sum, sum')) + [] == PredCode(Cmp(GE, sum, sum'));
  }

  lemma MisreadTree()
    ensures !Unchained(Misread().left)
    ensures ClausePred(Last(Misread()), []) == Cmp(GE, Bin(ADD, Bin(ADD, Const(1), Const(1)), Const(9)), Const(5))
  {
    var last := More(ADD, Plain(AInt(9)), Stop);
    assert RestExpr(Const(1), More(ADD, Plain(AInt(1)), last), []) == RestExpr(Bin(ADD, Const(1), Const(1)), last, []);
  }

  lemma MisreadMeaning()
    ensures var vars, sum, sum' := [0, 0, 0, 0], Bin(ADD, Const(1), Const(1)), Bin(ADD, Const(9), Const(5));
      && ExprOk(Bin(ADD, sum, Const(9)), 4) && ExprOk(sum', 4)
      && Value(Bin(ADD, sum, Const(9)), vars) == 11 && Value(Const(5), vars) == 5
      && Value(sum, vars) == 2 && Value(sum', vars) == 14 && !PredZeroDivisor(Cmp(GE, sum, sum'), vars)
  {
    var vars, sum := [0, 0, 0, 0], Bin(ADD, Const(1), Const(1));
    SmallSum(Const(1), Const(1), vars, 1, 1);
    SmallSum(Const(9), Const(5), vars, 9, 5);
    SmallSum(sum, Const(9), vars, 2, 9);
  }

  lemma SmallSum(a: Expr, b: Expr, vars: seq<int>, x: nat, y: nat)
    requires ExprOk(a, |vars|) && ExprOk(b, |vars|) && Value(a, vars) == x < 100 && Value(b, vars) == y < 100
    ensures Value(Bin(ADD, a, b), vars) == x + y
  {
  }
}
