/** Antelope's LogicVM: predicates in prefix notation, stored in a byte array and evaluated by
    mutual recursion over an instruction pointer. Sizes are those of the firmware's ABI: enums
    take one byte, a long takes four little-endian bytes, an operand eight. */
module Lvm {
  import opened Basics

  // node types
  const ARITH_OP: byte := 0x10
  const OPERAND: byte := 0x20
  const CMP_OP: byte := 0x40
  const CONNECTIVE: byte := 0x80

  // operators
  const ADD: byte := 0x11
  const SUB: byte := 0x12
  const MUL: byte := 0x13
  const DIV: byte := 0x14
  const EQ: byte := 0x41
  const NEQ: byte := 0x42
  const GE: byte := 0x43   // strictly greater, despite its name
  const GEQ: byte := 0x44
  const LE: byte := 0x45   // strictly less, despite its name
  const LEQ: byte := 0x46
  const AND: byte := 0x81
  const OR: byte := 0x82
  const NOT: byte := 0x83

  // operand kinds
  const LVM_VARIABLE: byte := 0
  const LVM_LONG: byte := 2

  // status codes
  const FALSE: nat := 0
  const TRUE: nat := 1
  const SEMANTIC_ERROR: nat := 3
  const MATH_ERROR: nat := 4
  const EXECUTION_ERROR: nat := 8
  const DERIVATION_ERROR: nat := 9

  const OPERAND_SIZE: nat := 8
  const MAX_VARIABLE_ID: nat := 4

  const LONG_MIN: int := -0x8000_0000
  const LONG_MAX: int := 0x7FFF_FFFF

  predicate IsLong(l: int) {
    LONG_MIN <= l <= LONG_MAX
  }

  // ----- machine arithmetic -----

  function Wrap(v: int): (l: int)
    ensures IsLong(l)
  {
    (v + 0x8000_0000) % TWO_TO_THE_32 - 0x8000_0000
  }

  /** C division truncates toward zero. */
  function TruncatedDiv(a: int, b: int): int
    requires b != 0
  {
    var q := (if a < 0 then -a else a) / (if b < 0 then -b else b);
    if (a < 0) == (b < 0) then q else -q
  }

  function LongBytes(l: int): (bytes: seq<byte>)
    requires IsLong(l)
    ensures |bytes| == 4
  {
    var u := if l < 0 then l + TWO_TO_THE_32 else l;
    [u % 0x100, u / 0x100 % 0x100, u / 0x1_0000 % 0x100, u / 0x100_0000]
  }

  function LongOf(bytes: seq<byte>): (l: int)
    requires |bytes| == 4
    ensures IsLong(l)
  {
    var u := bytes[0] as int + 0x100 * (bytes[1] as int) + 0x1_0000 * (bytes[2] as int)
      + 0x100_0000 * (bytes[3] as int);
    if u > LONG_MAX then u - TWO_TO_THE_32 else u
  }

  lemma LongRoundTrip(l: int)
    requires IsLong(l)
    ensures LongOf(LongBytes(l)) == l
  {
    var u := if l < 0 then l + TWO_TO_THE_32 else l;
    Digit(u);
    Digit(u / 0x100);
    Digit(u / 0x1_0000);
    Quotients(u);
  }

  lemma Digit(u: nat)
    ensures u == u % 0x100 + 0x100 * (u / 0x100)
  {
  }

  lemma Quotients(u: nat)
    ensures u / 0x100 / 0x100 == u / 0x1_0000
    ensures u / 0x1_0000 / 0x100 == u / 0x100_0000
  {
  }

  // ----- the machine -----

  /** A step ends with a value and the next instruction pointer, with a status code, or with a
      read outside the code or the variable table, which the C does not notice. */
  datatype Run<+T> = Done(value: T, ip: nat) | Error(status: nat) | Fault

  /** operand_to_long on eight operand bytes; None is a variable outside the table. */
  function OperandToLong(operand: seq<byte>, vars: seq<int>): Option<int>
    requires |operand| == OPERAND_SIZE
  {
    if operand[0] == LVM_LONG then Some(LongOf(operand[4..8]))
    else if operand[0] == LVM_VARIABLE then
      if operand[4] < |vars| then Some(vars[operand[4]]) else None
    else Some(0)
  }

  function Calculate(op: byte, a: int, b: int, ip: nat): Run<int> {
    if op == ADD then Done(Wrap(a + b), ip)
    else if op == SUB then Done(Wrap(a - b), ip)
    else if op == MUL then Done(Wrap(a * b), ip)
    else if op == DIV then
      if b == 0 then Error(MATH_ERROR) else Done(Wrap(TruncatedDiv(a, b)), ip)
    else Error(EXECUTION_ERROR)
  }

  /** One argument: a nested arithmetic operation or an operand. */
  function RunArgument(code: seq<byte>, vars: seq<int>, ip: nat): (r: Run<int>)
    ensures r.Done? ==> ip < r.ip <= |code|
    ensures r.Error? ==> r.status > TRUE
    decreases |code| - ip, 0
  {
    if ip >= |code| then Fault
    else if code[ip] == ARITH_OP then
      if ip + 1 >= |code| then Fault else RunExpr(code, vars, ip + 2, code[ip + 1])
    else if code[ip] == OPERAND then
      if ip + 1 + OPERAND_SIZE > |code| then Fault
      else match OperandToLong(code[ip + 1..ip + 1 + OPERAND_SIZE], vars)
           case None => Fault
           case Some(l) => Done(l, ip + 1 + OPERAND_SIZE)
    else Error(SEMANTIC_ERROR)
  }

  /** eval_expr, with the instruction pointer just behind the operator. */
  function RunExpr(code: seq<byte>, vars: seq<int>, ip: nat, op: byte): (r: Run<int>)
    requires ip <= |code|
    ensures r.Done? ==> ip < r.ip <= |code|
    ensures r.Error? ==> r.status > TRUE
    decreases |code| - ip, 1
  {
    match RunArgument(code, vars, ip)
    case Fault => Fault
    case Error(s) => Error(s)
    case Done(a, ip1) =>
      match RunArgument(code, vars, ip1)
      case Fault => Fault
      case Error(s) => Error(s)
      case Done(b, ip2) => Calculate(op, a, b, ip2)
  }

  function Compare(op: byte, a: int, b: int, ip: nat): Run<bool> {
    if op == EQ then Done(a == b, ip)
    else if op == NEQ then Done(a != b, ip)
    else if op == GE then Done(a > b, ip)
    else if op == GEQ then Done(a >= b, ip)
    else if op == LE then Done(a < b, ip)
    else if op == LEQ then Done(a <= b, ip)
    else Error(EXECUTION_ERROR)
  }

  predicate IsConnective(op: byte) {
    op >= CONNECTIVE
  }

  /** One argument of a connective. */
  function RunRelation(code: seq<byte>, vars: seq<int>, ip: nat): (r: Run<bool>)
    ensures r.Done? ==> ip < r.ip <= |code|
    ensures r.Error? ==> r.status > TRUE
    decreases |code| - ip, 0
  {
    if ip >= |code| then Fault
    else if code[ip] != CMP_OP then Error(SEMANTIC_ERROR)
    else if ip + 1 >= |code| then Fault
    else RunLogic(code, vars, ip + 2, code[ip + 1])
  }

  /** eval_logic, with the instruction pointer just behind the operator. */
  function RunLogic(code: seq<byte>, vars: seq<int>, ip: nat, op: byte): (r: Run<bool>)
    requires ip <= |code|
    ensures r.Done? ==> ip < r.ip <= |code|
    ensures r.Error? ==> r.status > TRUE
    decreases |code| - ip, 1
  {
    if IsConnective(op) then
      match RunRelation(code, vars, ip)
      case Fault => Fault
      case Error(s) => Error(s)
      case Done(a, ip1) =>
        if op == NOT then Done(!a, ip1) else
        match RunRelation(code, vars, ip1)
        case Fault => Fault
        case Error(s) => Error(s)
        case Done(b, ip2) => Done(if op == AND then a && b else a || b, ip2)
    else
      match RunArgument(code, vars, ip)
      case Fault => Fault
      case Error(s) => Error(s)
      case Done(a, ip1) =>
        match RunArgument(code, vars, ip1)
        case Fault => Fault
        case Error(s) => Error(s)
        case Done(b, ip2) => Compare(op, a, b, ip2)
  }

  /** lvm_execute. */
  function Execute(code: seq<byte>, vars: seq<int>): Run<bool> {
    if |code| == 0 then Fault
    else if code[0] != CMP_OP then Error(EXECUTION_ERROR)
    else RunRelation(code, vars, 0)
  }

  // ----- the trees that code stands for -----

  datatype Expr = Const(l: int) | Var(id: byte) | Bin(op: byte, left: Expr, right: Expr)

  datatype Pred =
    | Cmp(op: byte, left: Expr, right: Expr)
    | And(p: Pred, q: Pred)
    | Or(p: Pred, q: Pred)
    | Not(p: Pred)

  predicate ExprOk(e: Expr, nvars: nat) {
    match e
    case Const(l) => IsLong(l)
    case Var(id) => id < nvars
    case Bin(op, a, b) => ADD <= op <= DIV && ExprOk(a, nvars) && ExprOk(b, nvars)
  }

  predicate PredOk(t: Pred, nvars: nat) {
    match t
    case Cmp(op, a, b) => EQ <= op <= LEQ && ExprOk(a, nvars) && ExprOk(b, nvars)
    case And(p, q) => PredOk(p, nvars) && PredOk(q, nvars)
    case Or(p, q) => PredOk(p, nvars) && PredOk(q, nvars)
    case Not(p) => PredOk(p, nvars)
  }

  /** The value of an expression; meaningful when no divisor is zero. */
  function Value(e: Expr, vars: seq<int>): int
    requires ExprOk(e, |vars|)
  {
    match e
    case Const(l) => l
    case Var(id) => vars[id]
    case Bin(op, a, b) =>
      var x, y := Value(a, vars), Value(b, vars);
      if op == ADD then Wrap(x + y)
      else if op == SUB then Wrap(x - y)
      else if op == MUL then Wrap(x * y)
      else if y == 0 then 0
      else Wrap(TruncatedDiv(x, y))
  }

  predicate ZeroDivisor(e: Expr, vars: seq<int>)
    requires ExprOk(e, |vars|)
  {
    e.Bin? && (ZeroDivisor(e.left, vars) || ZeroDivisor(e.right, vars) || (e.op == DIV && Value(e.right, vars) == 0))
  }

  predicate CmpHolds(op: byte, x: int, y: int)
    requires EQ <= op <= LEQ
  {
    if op == EQ then x == y
    else if op == NEQ then x != y
    else if op == GE then x > y
    else if op == GEQ then x >= y
    else if op == LE then x < y
    else x <= y
  }

  /** The truth value of a predicate. */
  predicate Holds(t: Pred, vars: seq<int>)
    requires PredOk(t, |vars|)
  {
    match t
    case Cmp(op, a, b) => CmpHolds(op, Value(a, vars), Value(b, vars))
    case And(p, q) => Holds(p, vars) && Holds(q, vars)
    case Or(p, q) => Holds(p, vars) || Holds(q, vars)
    case Not(p) => !Holds(p, vars)
  }

  predicate PredZeroDivisor(t: Pred, vars: seq<int>)
    requires PredOk(t, |vars|)
  {
    match t
    case Cmp(_, a, b) => ZeroDivisor(a, vars) || ZeroDivisor(b, vars)
    case And(p, q) => PredZeroDivisor(p, vars) || PredZeroDivisor(q, vars)
    case Or(p, q) => PredZeroDivisor(p, vars) || PredZeroDivisor(q, vars)
    case Not(p) => PredZeroDivisor(p, vars)
  }

  /** Prefix code. Bytes of an operand that the C leaves unset are zero here. */
  function ExprCode(e: Expr): (code: seq<byte>)
    requires ExprOk(e, MAX_VARIABLE_ID)
    ensures |code| >= 2
  {
    match e
    case Const(l) => [OPERAND, LVM_LONG, 0, 0, 0] + LongBytes(l)
    case Var(id) => [OPERAND, LVM_VARIABLE, 0, 0, 0, id, 0, 0, 0]
    case Bin(op, a, b) => [ARITH_OP, op] + ExprCode(a) + ExprCode(b)
  }

  function PredCode(t: Pred): (code: seq<byte>)
    requires PredOk(t, MAX_VARIABLE_ID)
    ensures |code| >= 2 && code[0] == CMP_OP
  {
    match t
    case Cmp(op, a, b) => [CMP_OP, op] + ExprCode(a) + ExprCode(b)
    case And(p, q) => [CMP_OP, AND] + PredCode(p) + PredCode(q)
    case Or(p, q) => [CMP_OP, OR] + PredCode(p) + PredCode(q)
    case Not(p) => [CMP_OP, NOT] + PredCode(p)
  }

  // ----- running prefix code yields the tree's meaning -----

  /** code contains part at position at. */
  ghost predicate HasAt(code: seq<byte>, at: nat, part: seq<byte>) {
    at + |part| <= |code| && code[at..at + |part|] == part
  }

  lemma HasParts(code: seq<byte>, at: nat, a: seq<byte>, b: seq<byte>)
    requires HasAt(code, at, a + b)
    ensures HasAt(code, at, a) && HasAt(code, at + |a|, b)
  {
    assert code[at..at + |a|] == code[at..at + |a + b|][..|a|];
    assert code[at + |a|..at + |a| + |b|] == code[at..at + |a + b|][|a|..];
  }

  lemma HasThreeParts(code: seq<byte>, at: nat, a: seq<byte>, b: seq<byte>, c: seq<byte>)
    requires HasAt(code, at, a + b + c)
    ensures HasAt(code, at, a) && HasAt(code, at + |a|, b) && HasAt(code, at + |a| + |b|, c)
  {
    HasParts(code, at, a + b, c);
    HasParts(code, at, a, b);
  }

  lemma OperandAt(code: seq<byte>, vars: seq<int>, at: nat, e: Expr)
    requires ExprOk(e, MAX_VARIABLE_ID) && |vars| == MAX_VARIABLE_ID && !e.Bin?
    requires HasAt(code, at, ExprCode(e))
    ensures RunArgument(code, vars, at) == Done(Value(e, vars), at + |ExprCode(e)|)
  {
    hide LongOf, LongBytes;
    var bytes := ExprCode(e);
    assert |bytes| == 1 + OPERAND_SIZE;
    assert code[at] == code[at..at + |bytes|][0] == OPERAND;
    var operand := code[at + 1..at + 1 + OPERAND_SIZE];
    assert operand == code[at..at + |bytes|][1..] == bytes[1..];
    if e.Const? {
      LongRoundTrip(e.l);
      var head: seq<byte> := [LVM_LONG, 0, 0, 0];
      assert operand == head + LongBytes(e.l);
      assert operand[4..8] == LongBytes(e.l);
    }
  }

  lemma NodeAt(code: seq<byte>, at: nat, x: byte, y: byte)
    requires HasAt(code, at, [x, y])
    ensures at + 2 <= |code| && code[at] == x && code[at + 1] == y
  {
    assert code[at] == code[at..at + 2][0] && code[at + 1] == code[at..at + 2][1];
  }

  /** Arithmetic: the value, the pointer just behind the code, and an error exactly for a zero divisor. */
  lemma {:induction false} RunArgumentCorrect(code: seq<byte>, vars: seq<int>, at: nat, e: Expr)
    requires ExprOk(e, MAX_VARIABLE_ID) && |vars| == MAX_VARIABLE_ID
    requires HasAt(code, at, ExprCode(e))
    ensures RunArgument(code, vars, at) ==
      if ZeroDivisor(e, vars) then Error(MATH_ERROR) else Done(Value(e, vars), at + |ExprCode(e)|)
    decreases e
  {
    hide Wrap, TruncatedDiv, RunArgument, HasAt;
    if !e.Bin? {
      OperandAt(code, vars, at, e);
    } else {
      HasThreeParts(code, at, [ARITH_OP, e.op], ExprCode(e.left), ExprCode(e.right));
      NodeAt(code, at, ARITH_OP, e.op);
      RunArgumentCorrect(code, vars, at + 2, e.left);
      RunArgumentCorrect(code, vars, at + 2 + |ExprCode(e.left)|, e.right);
      UnfoldArithmetic(code, vars, at);
    }
  }

  lemma UnfoldArithmetic(code: seq<byte>, vars: seq<int>, at: nat)
    requires at + 2 <= |code| && code[at] == ARITH_OP
    ensures RunArgument(code, vars, at) ==
      match RunArgument(code, vars, at + 2)
      case Fault => Fault
      case Error(s) => Error(s)
      case Done(a, ip1) =>
        match RunArgument(code, vars, ip1)
        case Fault => Fault
        case Error(s) => Error(s)
        case Done(b, ip2) => Calculate(code[at + 1], a, b, ip2)
  {
    hide OperandToLong, Calculate;
  }

  lemma UnfoldCompare(code: seq<byte>, vars: seq<int>, at: nat)
    requires at + 2 <= |code| && code[at] == CMP_OP && !IsConnective(code[at + 1])
    ensures RunRelation(code, vars, at) ==
      match RunArgument(code, vars, at + 2)
      case Fault => Fault
      case Error(s) => Error(s)
      case Done(a, ip1) =>
        match RunArgument(code, vars, ip1)
        case Fault => Fault
        case Error(s) => Error(s)
        case Done(b, ip2) => Compare(code[at + 1], a, b, ip2)
  {
    hide RunArgument, Compare;
  }

  lemma UnfoldConnective(code: seq<byte>, vars: seq<int>, at: nat)
    requires at + 2 <= |code| && code[at] == CMP_OP && IsConnective(code[at + 1])
    ensures RunRelation(code, vars, at) ==
      match RunRelation(code, vars, at + 2)
      case Fault => Fault
      case Error(s) => Error(s)
      case Done(a, ip1) =>
        if code[at + 1] == NOT then Done(!a, ip1) else
        match RunRelation(code, vars, ip1)
        case Fault => Fault
        case Error(s) => Error(s)
        case Done(b, ip2) => Done(if code[at + 1] == AND then a && b else a || b, ip2)
  {
    hide RunArgument, Compare;
  }

  /** Logic: strict in both arguments, so an error anywhere is an error of the whole. */
  lemma {:induction false} RunRelationCorrect(code: seq<byte>, vars: seq<int>, at: nat, t: Pred)
    requires PredOk(t, MAX_VARIABLE_ID) && |vars| == MAX_VARIABLE_ID
    requires HasAt(code, at, PredCode(t))
    ensures RunRelation(code, vars, at) ==
      if PredZeroDivisor(t, vars) then Error(MATH_ERROR) else Done(Holds(t, vars), at + |PredCode(t)|)
    decreases t
  {
    hide RunArgument, RunRelation, ExprCode, Value, HasAt, ExprOk, ZeroDivisor;
    match t
    case Cmp(op, a, b) =>
      HasThreeParts(code, at, [CMP_OP, op], ExprCode(a), ExprCode(b));
      NodeAt(code, at, CMP_OP, op);
      RunArgumentCorrect(code, vars, at + 2, a);
      RunArgumentCorrect(code, vars, at + 2 + |ExprCode(a)|, b);
      UnfoldCompare(code, vars, at);
    case And(p, q) =>
      ConnectiveParts(code, vars, at, AND, p, q);
      RunRelationCorrect(code, vars, at + 2, p);
      RunRelationCorrect(code, vars, at + 2 + |PredCode(p)|, q);
    case Or(p, q) =>
      ConnectiveParts(code, vars, at, OR, p, q);
      RunRelationCorrect(code, vars, at + 2, p);
      RunRelationCorrect(code, vars, at + 2 + |PredCode(p)|, q);
    case Not(p) =>
      HasParts(code, at, [CMP_OP, NOT], PredCode(p));
      NodeAt(code, at, CMP_OP, NOT);
      RunRelationCorrect(code, vars, at + 2, p);
      UnfoldConnective(code, vars, at);
  }

  lemma ConnectiveParts(code: seq<byte>, vars: seq<int>, at: nat, op: byte, p: Pred, q: Pred)
    requires PredOk(p, MAX_VARIABLE_ID) && PredOk(q, MAX_VARIABLE_ID) && (op == AND || op == OR)
    requires HasAt(code, at, [CMP_OP, op] + PredCode(p) + PredCode(q))
    ensures HasAt(code, at + 2, PredCode(p)) && HasAt(code, at + 2 + |PredCode(p)|, PredCode(q))
    ensures RunRelation(code, vars, at) ==
      match RunRelation(code, vars, at + 2)
      case Fault => Fault
      case Error(s) => Error(s)
      case Done(a, ip1) =>
        match RunRelation(code, vars, ip1)
        case Fault => Fault
        case Error(s) => Error(s)
        case Done(b, ip2) => Done(if op == AND then a && b else a || b, ip2)
  {
    hide RunRelation, PredCode, HasAt;
    HasThreeParts(code, at, [CMP_OP, op], PredCode(p), PredCode(q));
    NodeAt(code, at, CMP_OP, op);
    UnfoldConnective(code, vars, at);
  }

  /** lvm_execute on the code of a predicate, whatever bytes follow it. */
  lemma ExecuteCorrect(t: Pred, vars: seq<int>, tail: seq<byte>)
    requires PredOk(t, MAX_VARIABLE_ID) && |vars| == MAX_VARIABLE_ID
    ensures Execute(PredCode(t) + tail, vars) ==
      if PredZeroDivisor(t, vars) then Error(MATH_ERROR) else Done(Holds(t, vars), |PredCode(t)|)
  {
    var code := PredCode(t) + tail;
    assert code[0..0 + |PredCode(t)|] == PredCode(t);
    RunRelationCorrect(code, vars, 0, t);
  }

  // ----- the variable table -----

  function Lookup(names: seq<string>, name: string): (id: nat)
    ensures id <= |names|
    ensures id < |names| ==> names[id] == name
    ensures name in names <==> id < |names|
  {
    if names == [] then 0
    else if names[0] == name then 0
    else 1 + Lookup(names[1..], name)
  }

  function Register(names: seq<string>, name: string): seq<string> {
    if name !in names && |names| < MAX_VARIABLE_ID then names + [name] else names
  }

  function VariableCode(names: seq<string>, name: string): seq<byte>
    requires |names| <= MAX_VARIABLE_ID
  {
    if name in names then ExprCode(Var(Lookup(names, name))) else []
  }

  // ----- the machine as it runs -----

  /** An instance of the virtual machine with the values of its registered variables. */
  class Instance {
    var code: array<byte>
    var end: nat
    var ip: nat
    var error: bool
    var overrun: bool           // set where the C would write behind the code array
    var names: seq<string>      // the registered variables
    var variables: seq<int>     // and their values

    ghost predicate Valid()
      reads this
    {
      ip <= code.Length && |variables| == MAX_VARIABLE_ID
    }

    constructor (size: nat)
      ensures Valid() && fresh(code) && code.Length == size && end == 0 && !error && !overrun && names == []
      ensures forall i :: 0 <= i < size ==> code[i] == 0
    {
      code := new byte[size](_ => 0);
      end, ip, error, overrun, names := 0, 0, false, false, [];
      variables := seq(MAX_VARIABLE_ID, _ => 0);
    }

    // ----- building code -----

    method PutByte(b: byte)
      modifies this`end, this`overrun, code
      ensures end == old(end) + 1
      ensures old(end) < code.Length ==> overrun == old(overrun) && code[..] == old(code[..])[old(end) := b]
    {
      if end < code.Length {
        code[end] := b;
      } else {
        overrun := true;
      }
      end := end + 1;
    }

    /** memcpy of bytes to the end of the code. */
    method Put(bytes: seq<byte>)
      modifies this`end, this`overrun, code
      ensures end == old(end) + |bytes|
      ensures end <= code.Length ==>
        overrun == old(overrun) && code[..end] == old(code[..])[..old(end)] + bytes
        && code[..][end..] == old(code[..])[end..]
    {
      ghost var code0 := code[..];
      var start := end;
      for i := 0 to |bytes|
        invariant end == start + i
        invariant end <= code.Length ==>
          overrun == old(overrun) && code[..end] == code0[..start] + bytes[..i]
          && code[..][end..] == code0[end..]
      {
        PutByte(bytes[i]);
      }
      assert bytes[..|bytes|] == bytes;
    }

    /** lvm_jump_to_operand: leaves room for an operator in front of the next operand. */
    method JumpToOperand() returns (oldEnd: nat)
      modifies this`end, this`error
      ensures oldEnd == old(end)
      ensures old(end) + 2 < code.Length ==> end == old(end) + 2 && error == old(error)
    {
      oldEnd := end;
      end := end + 2;
      if end >= code.Length {
        error := true;
        end := oldEnd;
      }
    }

    /** lvm_shift_for_operator: moves the code from a position on to make room for an operator. */
    method ShiftForOperator(position: nat) returns (newEnd: nat)
      modifies this`end, this`error, this`overrun, code
      ensures position < old(end) && old(end) + 2 <= code.Length ==>
        && newEnd == old(end) + 2 && end == position && error == old(error) && overrun == old(overrun)
        && code[..position] == old(code[..])[..position]
        && code[..][position + 2..newEnd] == old(code[..])[position..old(end)]
        && code[..][newEnd..] == old(code[..])[newEnd..]
    {
      if end + 1 > code.Length || position >= end {
        error := true;
        return 0;
      }
      var oldEnd := end;
      if oldEnd + 2 > code.Length {
        overrun := true;  // the C checks for one byte and moves by two
      } else {
        forall k | position <= k < oldEnd {
          code[k + 2] := code[k];
        }
      }
      end := position;
      newEnd := oldEnd + 2;
    }

    /** lvm_set_end. */
    method SetEnd(newEnd: nat) returns (oldEnd: nat)
      modifies this`end, this`error
      ensures newEnd < code.Length ==> oldEnd == old(end) && end == newEnd && error == old(error)
    {
      if newEnd >= code.Length {
        error := true;
        return end;
      }
      oldEnd := end;
      end := newEnd;
    }

    /** The parser's idiom: shift, write the operator into the gap, and go back to the end. */
    method InsertOperator(position: nat, node: byte, op: byte) returns (newEnd: nat)
      modifies this`end, this`error, this`overrun, code
      ensures position < old(end) && old(end) + 2 < code.Length ==>
        && newEnd == end == old(end) + 2 && error == old(error) && overrun == old(overrun)
        && code[..end] == old(code[..])[..position] + [node, op] + old(code[..])[position..old(end)]
    {
      ghost var code0, end0 := code[..], end;
      newEnd := ShiftForOperator(position);
      ghost var code1 := code[..];
      Put([node, op]);
      ghost var code2 := code[..];
      var _ := SetEnd(newEnd);
      if position < end0 && end0 + 2 < code.Length {
        assert code2[..position + 2] == code0[..position] + [node, op];
        assert code2[position + 2..newEnd] == code2[position + 2..][..end0 - position]
          == code1[position + 2..][..end0 - position];
        assert code1[position + 2..newEnd] == code1[position + 2..][..end0 - position];
        assert code2[..newEnd] == code2[..position + 2] + code2[position + 2..newEnd];
      }
    }

    /** lvm_register_variable: the table keeps its first four names. */
    method RegisterVariable(name: string)
      modifies this`names
      ensures names == Register(old(names), name)
    {
      if name !in names && |names| < MAX_VARIABLE_ID {
        names := names + [name];
      }
    }

    /** lvm_set_variable: nothing is written for a variable that did not fit the table. */
    method SetVariable(name: string)
      requires |names| <= MAX_VARIABLE_ID
      modifies this`end, this`overrun, code
      ensures end == old(end) + |VariableCode(names, name)|
      ensures end <= code.Length ==>
        overrun == old(overrun) && code[..end] == old(code[..])[..old(end)] + VariableCode(names, name)
    {
      Put(VariableCode(names, name));
    }

    /** lvm_set_long. */
    method SetLong(l: int)
      requires IsLong(l)
      modifies this`end, this`overrun, code
      ensures end == old(end) + |ExprCode(Const(l))|
      ensures end <= code.Length ==>
        overrun == old(overrun) && code[..end] == old(code[..])[..old(end)] + ExprCode(Const(l))
    {
      Put(ExprCode(Const(l)));
    }

    /** lvm_set_variable_value. A name that is not registered writes to the first free entry. */
    method SetVariableValue(name: string, value: int) returns (ok: bool)
      requires Valid() && |names| <= MAX_VARIABLE_ID
      modifies this`variables
      ensures Valid() && ok == (Lookup(names, name) < MAX_VARIABLE_ID)
      ensures variables == if ok then old(variables)[Lookup(names, name) := value] else old(variables)
    {
      var id := Lookup(names, name);
      ok := id < MAX_VARIABLE_ID;
      if ok {
        variables := variables[id := value];
      }
    }

    // ----- executing code -----

    /** The operand under the instruction pointer; it stays inside the code by assumption. */
    method GetOperand() returns (operand: seq<byte>)
      requires Valid() && ip + OPERAND_SIZE <= code.Length
      modifies this`ip
      ensures Valid() && ip == old(ip) + OPERAND_SIZE
      ensures operand == code[..][old(ip)..old(ip) + OPERAND_SIZE]
    {
      operand := code[ip..ip + OPERAND_SIZE];
      ip := ip + OPERAND_SIZE;
    }

    method GetByte() returns (b: byte)
      requires Valid() && ip < code.Length
      modifies this`ip
      ensures Valid() && ip == old(ip) + 1 && b == code[old(ip)]
    {
      b := code[ip];
      ip := ip + 1;
    }

    /** One argument of eval_expr or eval_logic. */
    method EvalArgument() returns (status: nat, value: int)
      requires Valid() && RunArgument(code[..], variables, ip) != Fault
      modifies this`ip
      ensures Valid()
      ensures status == TRUE ==> RunArgument(code[..], variables, old(ip)) == Done(value, ip)
      ensures status != TRUE ==> RunArgument(code[..], variables, old(ip)) == Error(status)
      decreases code.Length - ip, 0
    {
      hide RunExpr, OperandToLong;
      value := 0;
      var node := GetByte();
      if node == ARITH_OP {
        var operator := GetByte();
        status, value := EvalExpr(operator);
      } else if node == OPERAND {
        var operand := GetOperand();
        value := ToLong(operand);
        status := TRUE;
      } else {
        status := SEMANTIC_ERROR;
      }
    }

    method ToLong(operand: seq<byte>) returns (l: int)
      requires |operand| == OPERAND_SIZE && OperandToLong(operand, variables).Some?
      ensures OperandToLong(operand, variables) == Some(l)
    {
      if operand[0] == LVM_LONG {
        l := LongOf(operand[4..8]);
      } else if operand[0] == LVM_VARIABLE {
        l := variables[operand[4]];
      } else {
        l := 0;
      }
    }

    method EvalExpr(op: byte) returns (status: nat, result: int)
      requires Valid() && RunExpr(code[..], variables, ip, op) != Fault
      modifies this`ip
      ensures Valid()
      ensures status == TRUE ==> RunExpr(code[..], variables, old(ip), op) == Done(result, ip)
      ensures status != TRUE ==> RunExpr(code[..], variables, old(ip), op) == Error(status)
      decreases code.Length - ip, 1
    {
      hide RunArgument, Wrap, TruncatedDiv;
      result := 0;
      var a, b;
      status, a := EvalArgument();
      if status != TRUE {
        return;
      }
      status, b := EvalArgument();
      if status != TRUE {
        return;
      }
      if op == ADD {
        result := Wrap(a + b);
      } else if op == SUB {
        result := Wrap(a - b);
      } else if op == MUL {
        result := Wrap(a * b);
      } else if op == DIV {
        if b == 0 {
          return MATH_ERROR, 0;
        }
        result := Wrap(TruncatedDiv(a, b));
      } else {
        return EXECUTION_ERROR, 0;
      }
    }

    /** One argument of a connective. */
    method EvalRelation() returns (status: nat)
      requires Valid() && RunRelation(code[..], variables, ip) != Fault
      modifies this`ip
      ensures Valid()
      ensures status <= TRUE ==> RunRelation(code[..], variables, old(ip)) == Done(status == TRUE, ip)
      ensures status > TRUE ==> RunRelation(code[..], variables, old(ip)) == Error(status)
      decreases code.Length - ip, 0
    {
      hide RunLogic;
      var node := GetByte();
      if node != CMP_OP {
        return SEMANTIC_ERROR;
      }
      var operator := GetByte();
      status := EvalLogic(operator);
    }

    method EvalLogic(op: byte) returns (status: nat)
      requires Valid() && RunLogic(code[..], variables, ip, op) != Fault
      modifies this`ip
      ensures Valid()
      ensures status <= TRUE ==> RunLogic(code[..], variables, old(ip), op) == Done(status == TRUE, ip)
      ensures status > TRUE ==> RunLogic(code[..], variables, old(ip), op) == Error(status)
      decreases code.Length - ip, 1
    {
      hide RunArgument, RunRelation;
      if IsConnective(op) {
        var p := EvalRelation();
        if p > TRUE {
          return p;
        }
        if op == NOT {
          return if p == TRUE then FALSE else TRUE;
        }
        var q := EvalRelation();
        if q > TRUE {
          return q;
        }
        if op == AND {
          return if p == TRUE && q == TRUE then TRUE else FALSE;
        }
        return if p == TRUE || q == TRUE then TRUE else FALSE;
      }
      var a, b;
      status, a := EvalArgument();
      if status != TRUE {
        return;
      }
      status, b := EvalArgument();
      if status != TRUE {
        return;
      }
      var holds: bool;
      if op == EQ {
        holds := a == b;
      } else if op == NEQ {
        holds := a != b;
      } else if op == GE {
        holds := a > b;
      } else if op == GEQ {
        holds := a >= b;
      } else if op == LE {
        holds := a < b;
      } else if op == LEQ {
        holds := a <= b;
      } else {
        return EXECUTION_ERROR;
      }
      status := if holds then TRUE else FALSE;
    }

    /** lvm_execute. */
    method Run() returns (status: nat)
      requires Valid() && Execute(code[..], variables) != Fault
      modifies this`ip
      ensures Valid()
      ensures status <= TRUE ==> Execute(code[..], variables) == Done(status == TRUE, ip)
      ensures status > TRUE ==> Execute(code[..], variables) == Error(status)
      ensures var r := Execute(code[..], variables);
        status == if r.Error? then r.status else if r.value then 1 else 0
    {
      ip := 0;
      if code[0] != CMP_OP {
        return EXECUTION_ERROR;
      }
      status := EvalRelation();
    }
  }
}
