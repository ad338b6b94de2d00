/** What single instructions of the LogicVM do, with the numbers of its instruction set and without the
    machine's own arithmetic: 32-bit results by congruence, quotients by their remainders. */
module LvmMeaning {
  import opened Basics
  import opened Lvm

  /** l is v in 32 bits. */
  predicate InLong(l: int, v: int) {
    -0x8000_0000 <= l < 0x8000_0000 && (v - l) % 0x1_0000_0000 == 0
  }

  lemma WrapMeaning(v: int)
    ensures InLong(Wrap(v), v)
  {
  }

  /** q is a / b in C: the remainder is smaller than the divisor, and has the dividend's sign. */
  predicate Quotient(a: int, b: int, q: int) {
    var r := a - b * q;
    && (if r < 0 then -r else r) < (if b < 0 then -b else b)
    && (r > 0 ==> a > 0) && (r < 0 ==> a < 0)
  }

  lemma DivisionTruncates(a: int, b: int)
    requires b != 0
    ensures Quotient(a, b, TruncatedDiv(a, b))
  {
    hide TruncatedDiv, Quotient;
    var x: nat, y: nat := if a < 0 then -a else a, if b < 0 then -b else b;
    var q, r := Remainder(x, y);
    TruncatedIs(a, b, x, y, q);
    Signs(a, b, x, y, q, r, TruncatedDiv(a, b));
    SmallRemainder(a, b, TruncatedDiv(a, b), r);
  }

  lemma TruncatedIs(a: int, b: int, x: nat, y: nat, q: nat)
    requires x == (if a < 0 then -a else a) && y == (if b < 0 then -b else b) && b != 0 && q == x / y
    ensures TruncatedDiv(a, b) == if (a < 0) == (b < 0) then q else -(q as int)
  {
  }

  lemma SmallRemainder(a: int, b: int, t: int, r: nat)
    requires a - b * t == (if a < 0 then -(r as int) else r) && r < (if b < 0 then -b else b)
    requires r <= if a < 0 then -a else a
    ensures Quotient(a, b, t)
  {
  }

  lemma Remainder(x: nat, y: nat) returns (q: nat, r: nat)
    requires y > 0
    ensures q == x / y && x == y * q + r && r < y && r <= x
  {
    q, r := x / y, x % y;
  }

  lemma Signs(a: int, b: int, x: int, y: int, q: int, r: int, t: int)
    requires x == (if a < 0 then -a else a) && y == (if b < 0 then -b else b) && x == y * q + r
    requires t == if (a < 0) == (b < 0) then q else -q
    ensures a - b * t == if a < 0 then -r else r
  {
    assert b * t == if a < 0 then -(y * q) else y * q by { Negated(b, q); }
  }

  lemma Negated(b: int, q: int)
    ensures b * -q == -(b * q) && -b * q == -(b * q) && -b * -q == b * q
  {
  }

  /** The quotient is determined by that. */
  lemma QuotientUnique(a: int, b: int, p: int, q: int)
    requires b != 0 && Quotient(a, b, p) && Quotient(a, b, q)
    ensures p == q
  {
    assert b * (q - p) == (a - b * p) - (a - b * q);
    SmallMultiple(b, q - p);
  }

  lemma SmallMultiple(b: int, d: int)
    requires (if b * d < 0 then -(b * d) else b * d) < (if b < 0 then -b else b)
    ensures d == 0
  {
    var y := if b < 0 then -b else b;
    var e := if d < 0 then -d else d;
    Negated(b, d);
    Negated(b, -d);
    assert y * e == if b * d < 0 then -(b * d) else b * d by { Magnitude(y, e); }
    if e >= 1 { AtLeast(y, e); }
  }

  lemma Magnitude(y: nat, e: nat)
    ensures y * e >= 0
  {
  }

  lemma AtLeast(y: nat, e: nat)
    requires e >= 1
    ensures y * e >= y
  {
    assert y * e == y + y * (e - 1);
  }

  // ----- operands -----

  /** A constant operand: its node, its kind, three unused bytes and the number, little-endian. */
  function ConstBytes(l: int): (bytes: seq<byte>)
    requires -0x8000_0000 <= l < 0x8000_0000
    ensures |bytes| == 9
  {
    var u := if l < 0 then l + 0x1_0000_0000 else l;
    [0x20, 2, 0, 0, 0, u % 0x100, u / 0x100 % 0x100, u / 0x1_0000 % 0x100, u / 0x100_0000 % 0x100]
  }

  lemma ConstIs(l: int)
    requires -0x8000_0000 <= l < 0x8000_0000
    ensures ConstBytes(l) == ExprCode(Const(l))
  {
    var u := if l < 0 then l + 0x1_0000_0000 else l;
    assert u / 0x100_0000 < 0x100;
  }

  lemma RunConst(code: seq<byte>, vars: seq<int>, ip: nat, l: int)
    requires |vars| == MAX_VARIABLE_ID && -0x8000_0000 <= l < 0x8000_0000 && HasAt(code, ip, ConstBytes(l))
    ensures RunArgument(code, vars, ip) == Done(l, ip + 9)
  {
    hide RunArgument;
    ConstIs(l);
    OperandAt(code, vars, ip, Const(l));
  }

  lemma RunVariable(code: seq<byte>, vars: seq<int>, ip: nat, id: byte)
    requires |vars| == MAX_VARIABLE_ID && id < MAX_VARIABLE_ID && HasAt(code, ip, [0x20, 0, 0, 0, 0, id, 0, 0, 0])
    ensures RunArgument(code, vars, ip) == Done(vars[id], ip + 9)
  {
    hide RunArgument;
    OperandAt(code, vars, ip, Var(id));
  }

  /** An operand of another kind counts as 0. */
  lemma RunOther(code: seq<byte>, vars: seq<int>, ip: nat, kind: byte, rest: seq<byte>)
    requires kind != 0 && kind != 2 && |rest| == 7 && HasAt(code, ip, [0x20, kind] + rest)
    ensures RunArgument(code, vars, ip) == Done(0, ip + 9)
  {
    HasParts(code, ip, [0x20, kind], rest);
    NodeAt(code, ip, 0x20, kind);
    assert code[ip + 1..ip + 9][0] == kind;
  }

  /** The variable table keeps its first four names, in the order in which they come. */
  lemma RegisterMeaning(names: seq<string>, name: string)
    ensures name in names || |names| >= 4 ==> Register(names, name) == names
    ensures name !in names && |names| < 4 ==>
      var names' := Register(names, name);
      |names'| == |names| + 1 && names'[..|names|] == names && names'[|names|] == name
  {
  }

  // ----- arithmetic -----

  /** An operator on two constants: 0x11 adds, 0x12 subtracts, 0x13 multiplies and 0x14 divides, in 32
      bits; dividing by zero ends with status 4, and an unknown operator with status 8. */
  lemma RunArithmetic(code: seq<byte>, vars: seq<int>, ip: nat, op: byte, a: int, b: int)
    requires |vars| == MAX_VARIABLE_ID && -0x8000_0000 <= a < 0x8000_0000 && -0x8000_0000 <= b < 0x8000_0000
    requires HasAt(code, ip, [0x10, op] + ConstBytes(a) + ConstBytes(b))
    ensures var r := RunArgument(code, vars, ip);
      && (0x11 <= op <= 0x13 ==> r.Done? && r.ip == ip + 20)
      && (op == 0x11 ==> InLong(r.value, a + b))
      && (op == 0x12 ==> InLong(r.value, a - b))
      && (op == 0x13 ==> InLong(r.value, a * b))
      && (op == 0x14 && b == 0 ==> r == Error(4))
      && (op == 0x14 && b != 0 ==>
           r.Done? && r.ip == ip + 20 && exists q :: Quotient(a, b, q) && InLong(r.value, q))
      && (op < 0x11 || op > 0x14 ==> r == Error(8))
  {
    hide RunArgument, HasAt, Wrap, TruncatedDiv, Quotient, InLong;
    HasThreeParts(code, ip, [0x10, op], ConstBytes(a), ConstBytes(b));
    NodeAt(code, ip, 0x10, op);
    UnfoldArithmetic(code, vars, ip);
    RunConst(code, vars, ip + 2, a);
    RunConst(code, vars, ip + 11, b);
    WrapMeaning(a + b);
    WrapMeaning(a - b);
    WrapMeaning(a * b);
    if b != 0 {
      DivisionTruncates(a, b);
      WrapMeaning(TruncatedDiv(a, b));
    }
  }

  // ----- logic -----

  /** A comparison of two constants: 0x41 is equal, 0x42 not equal, 0x43 greater, 0x44 greater or equal,
      0x45 less and 0x46 less or equal. */
  lemma RunComparison(code: seq<byte>, vars: seq<int>, ip: nat, op: byte, a: int, b: int)
    requires |vars| == MAX_VARIABLE_ID && -0x8000_0000 <= a < 0x8000_0000 && -0x8000_0000 <= b < 0x8000_0000
    requires HasAt(code, ip, [0x40, op] + ConstBytes(a) + ConstBytes(b)) && 0x41 <= op <= 0x46
    ensures var r := RunRelation(code, vars, ip);
      && r.Done? && r.ip == ip + 20
      && (op == 0x41 ==> (r.value <==> a == b)) && (op == 0x42 ==> (r.value <==> a != b))
      && (op == 0x43 ==> (r.value <==> a > b)) && (op == 0x44 ==> (r.value <==> a >= b))
      && (op == 0x45 ==> (r.value <==> a < b)) && (op == 0x46 ==> (r.value <==> a <= b))
  {
    hide RunArgument, RunRelation, HasAt;
    HasThreeParts(code, ip, [0x40, op], ConstBytes(a), ConstBytes(b));
    NodeAt(code, ip, 0x40, op);
    UnfoldCompare(code, vars, ip);
    RunConst(code, vars, ip + 2, a);
    RunConst(code, vars, ip + 11, b);
  }

  /** A connective behind whose operator one or two relations run to their ends: 0x81 is and, 0x82 or,
      0x83 not. */
  lemma RunConnective(code: seq<byte>, vars: seq<int>, ip: nat, op: byte, x: bool, middle: nat, y: bool, end: nat)
    requires HasAt(code, ip, [0x40, op]) && 0x81 <= op <= 0x83
    requires RunRelation(code, vars, ip + 2) == Done(x, middle)
    requires op != 0x83 ==> RunRelation(code, vars, middle) == Done(y, end)
    ensures op == 0x81 ==> RunRelation(code, vars, ip) == Done(x && y, end)
    ensures op == 0x82 ==> RunRelation(code, vars, ip) == Done(x || y, end)
    ensures op == 0x83 ==> RunRelation(code, vars, ip) == Done(!x, middle)
  {
    hide RunRelation;
    NodeAt(code, ip, 0x40, op);
    UnfoldConnective(code, vars, ip);
  }

  /** For instance, -7 / 2 is -3, and not -4. */
  lemma MinusSevenByTwo(vars: seq<int>)
    requires |vars| == MAX_VARIABLE_ID
    ensures RunArgument([0x10, 0x14] + ConstBytes(-7) + ConstBytes(2), vars, 0) == Done(-3, 20)
  {
    hide RunArgument, TruncatedDiv;
    var code := [0x10, 0x14] + ConstBytes(-7) + ConstBytes(2);
    assert code[0..0 + |code|] == code;
    RunArithmetic(code, vars, 0, 0x14, -7, 2);
    var r := RunArgument(code, vars, 0);
    var q :| Quotient(-7, 2, q) && InLong(r.value, q);
    QuotientUnique(-7, 2, q, -3);
  }
}
