/** What a WHERE clause says about the named values of a row, without trees, codes or the machine's
    arithmetic, and that running the compiled clause says the same. */
module ClauseMeaning {
  import opened Basics
  import opened Lvm
  import opened LvmMeaning
  import opened WhereCompiler

  /** The named values; other names stand for 0. */
  type Values = map<string, int>

  function ValueOf(env: Values, name: string): int {
    if name in env then env[name] else 0
  }

  // ----- arithmetic -----

  /** A number cut to 32 bits. */
  function Cut(v: int): int {
    var low := v % 0x1_0000_0000;
    if low < 0x8000_0000 then low else low - 0x1_0000_0000
  }

  /** A quotient without its fraction. */
  function Over(x: int, y: int): int
    requires y != 0
  {
    if x >= 0 && y > 0 then x / y
    else if x >= 0 then -(x / -y)
    else if y > 0 then -(-x / y)
    else -x / -y
  }

  /** Plus, minus, times and divided by; nothing for a division by zero. */
  function Calculated(op: byte, x: int, y: int): Option<int> {
    if op == 0x11 then Some(Cut(x + y))
    else if op == 0x12 then Some(Cut(x - y))
    else if op == 0x13 then Some(Cut(x * y))
    else if y == 0 then None
    else Some(Cut(Over(x, y)))
  }

  function AtomMeaning(a: Atom, env: Values): int {
    match a
    case AVar(name) => ValueOf(env, name)
    case AInt(l) => l
  }

  /** Operators apply from left to right. */
  function SideMeaning(s: Side, env: Values): Option<int>
    decreases s
  {
    RestMeaning(Some(AtomMeaning(s.first, env)), s.rest, env)
  }

  function RestMeaning(x: Option<int>, r: Rest, env: Values): Option<int>
    decreases r
  {
    match r
    case Stop => x
    case More(op, arg, rest) =>
      var y := ArgMeaning(arg, env);
      RestMeaning(if x.Some? && y.Some? then Calculated(op, x.value, y.value) else None, rest, env)
  }

  function ArgMeaning(arg: Arg, env: Values): Option<int>
    decreases arg
  {
    match arg
    case Plain(a) => Some(AtomMeaning(a, env))
    case Paren(s) => SideMeaning(s, env)
  }

  // ----- logic -----

  predicate Compared(op: byte, x: int, y: int) {
    if op == 0x41 then x == y
    else if op == 0x42 then x != y
    else if op == 0x43 then x > y
    else if op == 0x44 then x >= y
    else if op == 0x45 then x < y
    else x <= y
  }

  /** Whether a clause holds; nothing if a division by zero occurs anywhere in it. A connective joins
      what is before it with everything behind it. */
  function Meaning(w: Clause, env: Values): Option<bool> {
    var x, y := SideMeaning(w.c.left, env), SideMeaning(w.c.right, env);
    var first := if x.Some? && y.Some? then Some(Compared(w.c.op, x.value, y.value)) else None;
    if w.Last? then first
    else
      var second := Meaning(w.rest, env);
      if first.None? || second.None? then None
      else Some(if w.conj then first.value && second.value else first.value || second.value)
  }

  // ----- the machine agrees -----

  lemma CutIsWrap(v: int)
    ensures Cut(v) == Wrap(v)
  {
    WrapMeaning(v);
    var k := (v - Wrap(v)) / 0x1_0000_0000;
    assert v == Wrap(v) + 0x1_0000_0000 * k;
  }

  lemma OverIsTruncated(x: int, y: int)
    requires y != 0
    ensures Over(x, y) == TruncatedDiv(x, y)
  {
  }

  /** The values in the machine are the named ones. */
  predicate Agrees(names: Names, vars: seq<int>, env: Values) {
    |vars| == 4 && forall i :: 0 <= i < |names| ==> vars[i] == ValueOf(env, names[i])
  }

  lemma AtomAgrees(a: Atom, names: Names, vars: seq<int>, env: Values)
    requires AtomOk(a, names) && Agrees(names, vars, env)
    ensures Value(AtomExpr(a, names), vars) == AtomMeaning(a, env) && !ZeroDivisor(AtomExpr(a, names), vars)
  {
  }

  lemma {:induction false} RestAgrees(e: Expr, x: Option<int>, r: Rest, names: Names, vars: seq<int>, env: Values)
    requires RestOk(r, names) && Agrees(names, vars, env) && ExprOk(e, MAX_VARIABLE_ID)
    requires x == if ZeroDivisor(e, vars) then None else Some(Value(e, vars))
    ensures var e' := RestExpr(e, r, names);
      RestMeaning(x, r, env) == if ZeroDivisor(e', vars) then None else Some(Value(e', vars))
    decreases r
  {
    hide Agrees, Calculated, Wrap, TruncatedDiv;
    if r.More? {
      AgreesSize(names, vars, env);
      var f := ArgExpr(r.arg, names);
      ArgAgrees(r.arg, names, vars, env);
      if !ZeroDivisor(e, vars) && !ZeroDivisor(f, vars) { BinAgrees(r.op, e, f, vars); }
      var y := ArgMeaning(r.arg, env);
      RestAgrees(Bin(r.op, e, f), if x.Some? && y.Some? then Calculated(r.op, x.value, y.value) else None,
                 r.rest, names, vars, env);
    }
  }

  lemma AgreesSize(names: Names, vars: seq<int>, env: Values)
    requires Agrees(names, vars, env)
    ensures |vars| == 4
  {
  }

  lemma BinAgrees(op: byte, e: Expr, f: Expr, vars: seq<int>)
    requires ADD <= op <= DIV && |vars| == 4 && ExprOk(e, 4) && ExprOk(f, 4)
    requires !ZeroDivisor(e, vars) && !ZeroDivisor(f, vars)
    ensures Calculated(op, Value(e, vars), Value(f, vars)) ==
      if ZeroDivisor(Bin(op, e, f), vars) then None else Some(Value(Bin(op, e, f), vars))
  {
    hide Wrap, TruncatedDiv, Cut, Over;
    var x, y := Value(e, vars), Value(f, vars);
    CutIsWrap(x + y);
    CutIsWrap(x - y);
    CutIsWrap(x * y);
    if y != 0 {
      OverIsTruncated(x, y);
      CutIsWrap(Over(x, y));
    }
  }

  lemma {:induction false} SideAgrees(s: Side, names: Names, vars: seq<int>, env: Values)
    requires SideOk(s, names) && Agrees(names, vars, env)
    ensures var e := SideExpr(s, names);
      SideMeaning(s, env) == if ZeroDivisor(e, vars) then None else Some(Value(e, vars))
    decreases s
  {
    hide Agrees;
    AgreesSize(names, vars, env);
    AtomAgrees(s.first, names, vars, env);
    RestAgrees(AtomExpr(s.first, names), Some(AtomMeaning(s.first, env)), s.rest, names, vars, env);
  }

  lemma {:induction false} ArgAgrees(arg: Arg, names: Names, vars: seq<int>, env: Values)
    requires ArgOk(arg, names) && Agrees(names, vars, env)
    ensures var e := ArgExpr(arg, names);
      ArgMeaning(arg, env) == if ZeroDivisor(e, vars) then None else Some(Value(e, vars))
    decreases arg
  {
    match arg
    case Plain(a) => AtomAgrees(a, names, vars, env);
    case Paren(s) => SideAgrees(s, names, vars, env);
  }

  lemma {:induction false} ClauseAgrees(w: Clause, names: Names, vars: seq<int>, env: Values)
    requires ClauseOk(w, names) && Agrees(names, vars, env)
    ensures var t := ClausePred(w, names);
      Meaning(w, env) == if PredZeroDivisor(t, vars) then None else Some(Holds(t, vars))
    decreases w
  {
    hide Agrees, SideMeaning, SideExpr, Value, ZeroDivisor;
    AgreesSize(names, vars, env);
    SideAgrees(w.c.left, names, vars, env);
    SideAgrees(w.c.right, names, vars, env);
    if w.Link? { ClauseAgrees(w.rest, names, vars, env); }
  }

  /** Running the compiled clause, whatever bytes follow it, on the named values of a row ends with what
      the clause means, or with status 4 for a division by zero; if no side chains operators. */
  lemma CompiledClauseMeans(w: Clause, names: Names, vars: seq<int>, env: Values, tail: seq<byte>)
    requires ClauseOk(w, names) && ClauseUnchained(w) && Agrees(names, vars, env)
    ensures Execute(ClauseCode(w, names) + tail, vars) ==
      match Meaning(w, env)
      case None => Error(4)
      case Some(holds) => Done(holds, |ClauseCode(w, names)|)
  {
    hide Execute, ClauseCode, ClausePred, Holds, PredZeroDivisor, Meaning, ClauseOk, ClauseUnchained;
    ClauseAgrees(w, names, vars, env);
    CompiledClauseRuns(w, names, vars, tail);
  }

  /** For instance, in tokens: a + k > l AND b < m, and the same with OR. */
  lemma ForInstance(a: string, k: int, l: int, b: string, m: int, conj: bool, env: Values)
    ensures var left := Comparison(Side(AVar(a), More(0x11, Plain(AInt(k)), Stop)), 0x43, Side(AInt(l), Stop));
      var w := Link(left, conj, Last(Comparison(Side(AVar(b), Stop), 0x45, Side(AInt(m), Stop))));
      && ClauseTokens(w) == [Identifier(a), ArithToken(0x11), Integer(k), CmpToken(0x43), Integer(l),
                             if conj then AndToken else OrToken, Identifier(b), CmpToken(0x45), Integer(m)]
      && ClauseUnchained(w)
      && (a in env && b in env ==> Meaning(w, env) == Some(
           if conj then Cut(env[a] + k) > l && env[b] < m else Cut(env[a] + k) > l || env[b] < m))
  {
    hide SideTokens, SideMeaning, Cut;
    var left := Comparison(Side(AVar(a), More(0x11, Plain(AInt(k)), Stop)), 0x43, Side(AInt(l), Stop));
    var right := Comparison(Side(AVar(b), Stop), 0x45, Side(AInt(m), Stop));
    OneOperator(AVar(a), 0x11, AInt(k), env);
    OneOperand(AInt(l), env);
    OneOperand(AVar(b), env);
    OneOperand(AInt(m), env);
    assert ComparisonTokens(left)
      == [Identifier(a), ArithToken(0x11), Integer(k)] + [CmpToken(0x43)] + [Integer(l)];
    assert ComparisonTokens(right) == [Identifier(b)] + [CmpToken(0x45)] + [Integer(m)];
    assert ClauseTokens(Last(right)) == ComparisonTokens(right);
    assert Meaning(Last(right), env) == Some(ValueOf(env, b) < m);
  }

  lemma OneOperand(a: Atom, env: Values)
    ensures SideTokens(Side(a, Stop)) == [AtomToken(a)] && SideMeaning(Side(a, Stop), env) == Some(AtomMeaning(a, env))
  {
    assert RestTokens(Stop) == [];
  }

  lemma OneOperator(a: Atom, op: byte, b: Atom, env: Values)
    ensures var s := Side(a, More(op, Plain(b), Stop));
      && SideTokens(s) == [AtomToken(a), ArithToken(op), AtomToken(b)]
      && SideMeaning(s, env) == Calculated(op, AtomMeaning(a, env), AtomMeaning(b, env))
  {
    hide Calculated;
    var r := More(op, Plain(b), Stop);
    assert RestTokens(Stop) == [] && ArgTokens(Plain(b)) == [AtomToken(b)];
    assert RestTokens(r) == [ArithToken(op)] + ArgTokens(Plain(b)) + RestTokens(Stop);
    assert ArgMeaning(Plain(b), env) == Some(AtomMeaning(b, env));
    var x := Calculated(op, AtomMeaning(a, env), AtomMeaning(b, env));
    assert RestMeaning(Some(AtomMeaning(a, env)), r, env) == RestMeaning(x, Stop, env) == x;
  }
}
