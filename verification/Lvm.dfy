// LogicVM: condition trees, their prefix bytecode, what running the code means
// and which variable ranges can be derived from it.
module Lvm {
  import opened Common

  // Sizes on the 16-bit TelosB target: enums are two bytes, a long is four.
  const TYPE_SIZE := 2
  const OPERATOR_SIZE := 2
  const OPERAND_SIZE := 6
  const OP_SPACE := 4  // node type and operator

  const LONG_MIN := -0x8000_0000
  const LONG_MAX := 0x7FFF_FFFF
  type long = x: int | LONG_MIN <= x <= LONG_MAX

  const LVM_ARITH_OP := 0x10
  const LVM_OPERAND := 0x20
  const LVM_CMP_OP := 0x40
  const LVM_CONNECTIVE := 0x80

  const FALSE := 0
  const TRUE := 1
  const SEMANTIC_ERROR := 3
  const MATH_ERROR := 4
  const EXECUTION_ERROR := 8

  const MAX_VARIABLE_ID := 8

  predicate IsError(status: int) {
    status >= 2
  }

  type Bytes = seq<u8>

  datatype Operand = Long(l: long) | Variable(id: u8)

  datatype ArithOp = Add | Sub | Mul | Div

  // The names follow the program: Ge is >, Geq is >=, Le is <, Leq is <=.
  datatype Rel = Eq | Neq | Ge | Geq | Le | Leq

  datatype Expr = Leaf(operand: Operand) | Arith(op: ArithOp, left: Expr, right: Expr)

  datatype Cond =
    | Cmp(rel: Rel, left: Expr, right: Expr)
    | And(c1: Cond, c2: Cond)
    | Or(c1: Cond, c2: Cond)
    | Not(c: Cond)

  function Wrap(x: int): long {
    (x + 0x8000_0000) % 0x1_0000_0000 - 0x8000_0000
  }

  // C division truncates toward zero.
  function Quotient(a: int, b: int): int
    requires b != 0
  {
    if a >= 0 then (if b > 0 then a / b else -(a / -b))
    else (if b > 0 then -(-a / b) else -a / -b)
  }

  // ----- bytecode -----

  // Words and longs are stored low byte first.
  function Word(x: u16): (b: Bytes)
    ensures |b| == 2 && WordOf(b[0], b[1]) == x
  {
    [x % 0x100, x / 0x100]
  }

  function WordOf(low: u8, high: u8): u16 {
    (low as int) + 0x100 * (high as int)
  }

  function LongBytes(l: long): (b: Bytes)
    ensures |b| == 4 && LongOf(WordOf(b[0], b[1]), WordOf(b[2], b[3])) == l
  {
    var w := (l as int) % 0x1_0000_0000;
    var low, high := w % 0x1_0000, w / 0x1_0000;
    WrapInverse(l);
    assert low + 0x1_0000 * high == w;
    Word(low) + Word(high)
  }

  // Storing a long keeps its low 32 bits; reading them back as signed restores it.
  lemma WrapInverse(l: long)
    ensures Wrap((l as int) % 0x1_0000_0000) == l
  {
    var w := (l as int) % 0x1_0000_0000;
    if l >= 0 {
      assert w == l;
    } else {
      assert w == l + 0x1_0000_0000;
    }
  }

  function LongOf(low: u16, high: u16): long {
    Wrap((low as int) + 0x1_0000 * (high as int))
  }

  function ArithCode(op: ArithOp): u16 {
    match op
    case Add => LVM_ARITH_OP + 1
    case Sub => LVM_ARITH_OP + 2
    case Mul => LVM_ARITH_OP + 3
    case Div => LVM_ARITH_OP + 4
  }

  function RelCode(rel: Rel): u16 {
    match rel
    case Eq => LVM_CMP_OP + 1
    case Neq => LVM_CMP_OP + 2
    case Ge => LVM_CMP_OP + 3
    case Geq => LVM_CMP_OP + 4
    case Le => LVM_CMP_OP + 5
    case Leq => LVM_CMP_OP + 6
  }

  const LVM_AND: u16 := LVM_CONNECTIVE + 1
  const LVM_OR: u16 := LVM_CONNECTIVE + 2
  const LVM_NOT: u16 := LVM_CONNECTIVE + 3

  // Of a variable's union only the identifier byte is meaningful; the program
  // leaves the other three unset, here they are zero.
  function OperandBytes(x: Operand): (b: Bytes)
    ensures |b| == OPERAND_SIZE
  {
    match x
    case Variable(id) => Word(0) + [id, 0, 0, 0]
    case Long(l) => Word(2) + LongBytes(l)
  }

  function ArithHeader(op: ArithOp): (b: Bytes)
    ensures |b| == OP_SPACE
  {
    Word(LVM_ARITH_OP) + Word(ArithCode(op))
  }

  function CmpHeader(code: u16): (b: Bytes)
    ensures |b| == OP_SPACE
  {
    Word(LVM_CMP_OP) + Word(code)
  }

  function EncodeExpr(e: Expr): (b: Bytes)
    ensures |b| >= 8
  {
    match e
    case Leaf(x) => Word(LVM_OPERAND) + OperandBytes(x)
    case Arith(op, l, r) => ArithHeader(op) + EncodeExpr(l) + EncodeExpr(r)
  }

  function EncodeCond(c: Cond): (b: Bytes)
    ensures |b| >= 4
  {
    match c
    case Cmp(rel, l, r) => CmpHeader(RelCode(rel)) + EncodeExpr(l) + EncodeExpr(r)
    case And(a, b) => CmpHeader(LVM_AND) + EncodeCond(a) + EncodeCond(b)
    case Or(a, b) => CmpHeader(LVM_OR) + EncodeCond(a) + EncodeCond(b)
    case Not(a) => CmpHeader(LVM_NOT) + EncodeCond(a)
  }

  // ----- execution -----

  type Env = s: seq<long> | |s| == MAX_VARIABLE_ID witness seq(MAX_VARIABLE_ID, i => 0)

  predicate OperandInScope(x: Operand) {
    x.Variable? ==> x.id < MAX_VARIABLE_ID
  }

  predicate ExprInScope(e: Expr) {
    match e
    case Leaf(x) => OperandInScope(x)
    case Arith(_, l, r) => ExprInScope(l) && ExprInScope(r)
  }

  predicate InScope(c: Cond) {
    match c
    case Cmp(_, l, r) => ExprInScope(l) && ExprInScope(r)
    case And(a, b) => InScope(a) && InScope(b)
    case Or(a, b) => InScope(a) && InScope(b)
    case Not(a) => InScope(a)
  }

  datatype Value = Number(n: long) | Fault(status: int)

  function OperandValue(x: Operand, env: Env): long
    requires OperandInScope(x)
  {
    match x
    case Long(l) => l
    case Variable(id) => env[id]
  }

  function Compute(op: ArithOp, a: long, b: long): Value {
    match op
    case Add => Number(Wrap(a + b))
    case Sub => Number(Wrap(a - b))
    case Mul => Number(Wrap(a * b))
    case Div => if b == 0 then Fault(MATH_ERROR) else Number(Wrap(Quotient(a, b)))
  }

  // Two numbers with the same low 32 bits.
  predicate Congruent(x: int, y: int) {
    (x - y) % 0x1_0000_0000 == 0
  }

  // Division towards zero; the one quotient that is not a long wraps around.
  predicate Divides(a: long, b: long, n: long) {
    if a == LONG_MIN && b == -1 then n == LONG_MIN
    else
      var r: int := (a as int) - (n as int) * (b as int);
      (b < 0 ==> b < r < -(b as int)) && (b > 0 ==> -(b as int) < r < b) && (r == 0 || (r > 0 <==> a > 0))
  }

  // What the four operations come to.
  predicate Results(op: ArithOp, a: long, b: long, v: Value) {
    match op
    case Add => v.Number? && Congruent(v.n, (a as int) + (b as int))
    case Sub => v.Number? && Congruent(v.n, (a as int) - (b as int))
    case Mul => v.Number? && Congruent(v.n, (a as int) * (b as int))
    case Div => if b == 0 then v == Fault(MATH_ERROR) else v.Number? && Divides(a, b, v.n)
  }

  lemma WrapCongruent(x: int)
    ensures Congruent(Wrap(x), x)
  {
    var y := x + 0x8000_0000;
    assert y == 0x1_0000_0000 * (y / 0x1_0000_0000) + y % 0x1_0000_0000;
    assert Wrap(x) - x == 0x1_0000_0000 * -(y / 0x1_0000_0000);
    MultipleOf(-(y / 0x1_0000_0000));
  }

  lemma MultipleOf(k: int)
    ensures 0x1_0000_0000 * k % 0x1_0000_0000 == 0
  {
  }

  lemma WrapFits(x: int)
    requires LONG_MIN <= x <= LONG_MAX
    ensures Wrap(x) == x
  {
  }

  function Size(x: int): nat {
    if x < 0 then -x else x
  }

  // The product of quotient and divisor, by sizes and signs.
  lemma QuotientProduct(a: int, b: int)
    requires b != 0
    ensures var product := Size(b) * (Size(a) / Size(b));
            Quotient(a, b) * b == if a >= 0 then product else -product
  {
    var q := Size(a) / Size(b);
    assert Quotient(a, b) == if (a >= 0) == (b > 0) then q else -q;
    hide Quotient;
    Signs(q, Size(b));
  }

  lemma Signs(q: int, y: int)
    ensures q * y == y * q && -q * -y == y * q && q * -y == -(y * q) && -q * y == -(y * q)
  {
  }

  lemma Remainder(x: nat, y: nat)
    requires y > 0
    ensures 0 <= y * (x / y) && 0 <= x - y * (x / y) < y
  {
  }

  lemma QuotientRemainder(a: int, b: int)
    requires b != 0
    ensures var r := a - Quotient(a, b) * b;
            (b < 0 ==> b < r < -b) && (b > 0 ==> -b < r < b) && (r == 0 || (r > 0 <==> a > 0))
  {
    hide Quotient;
    QuotientProduct(a, b);
    Remainder(Size(a), Size(b));
    RemainderOf(a, b, Quotient(a, b) * b, Size(b) * (Size(a) / Size(b)));
  }

  lemma RemainderOf(a: int, b: int, p: int, product: nat)
    requires b != 0 && p == (if a >= 0 then 1 else -1) * product && 0 <= Size(a) - product < Size(b)
    ensures var r := a - p;
            (b < 0 ==> b < r < -b) && (b > 0 ==> -b < r < b) && (r == 0 || (r > 0 <==> a > 0))
  {
  }

  lemma Portion(x: nat, y: nat)
    requires y > 0
    ensures 0 <= x / y <= x && (y >= 2 ==> 2 * (x / y) <= x)
  {
    var q := x / y;
    assert x == y * q + x % y;
    ProductGrows(y, q);
  }

  lemma ProductGrows(y: nat, q: nat)
    requires y > 0
    ensures q <= y * q && (y >= 2 ==> 2 * q <= y * q)
  {
  }

  lemma QuotientFits(a: long, b: long)
    requires b != 0 && !(a == LONG_MIN && b == -1)
    ensures LONG_MIN <= Quotient(a, b) <= LONG_MAX
  {
    var x: int := if a < 0 then -(a as int) else a;
    var y: int := if b < 0 then -(b as int) else b;
    var q := x / y;
    assert Quotient(a, b) == if (a >= 0) == (b > 0) then q else -q;
    Portion(x, y);
    hide Quotient;
    if y == 1 {
      assert q == x;
    }
  }

  lemma DivideResults(a: long, b: long)
    requires b != 0
    ensures Divides(a, b, Wrap(Quotient(a, b)))
  {
    if a == LONG_MIN && b == -1 {
      assert Quotient(a, b) == 0x8000_0000;
    } else {
      QuotientFits(a, b);
      QuotientRemainder(a, b);
      hide Quotient;
      WrapFits(Quotient(a, b));
    }
  }

  lemma ComputeResults(op: ArithOp, a: long, b: long)
    ensures Results(op, a, b, Compute(op, a, b))
  {
    hide Wrap, Quotient, Congruent;
    match op
    case Add => WrapCongruent((a as int) + (b as int));
    case Sub => WrapCongruent((a as int) - (b as int));
    case Mul => WrapCongruent((a as int) * (b as int));
    case Div =>
      if b != 0 {
        DivideResults(a, b);
      }
  }

  function ExprValue(e: Expr, env: Env): (v: Value)
    requires ExprInScope(e)
    ensures v.Fault? ==> v.status == MATH_ERROR
  {
    match e
    case Leaf(x) => Number(OperandValue(x, env))
    case Arith(op, l, r) =>
      var a := ExprValue(l, env);
      if a.Fault? then a
      else
        var b := ExprValue(r, env);
        if b.Fault? then b else Compute(op, a.n, b.n)
  }

  predicate Holds(rel: Rel, a: long, b: long) {
    match rel
    case Eq => a == b
    case Neq => a != b
    case Ge => a > b
    case Geq => a >= b
    case Le => a < b
    case Leq => a <= b
  }

  function Bool(b: bool): int {
    if b then TRUE else FALSE
  }

  // Both arguments of a connective are evaluated; the first error wins.
  function CondValue(c: Cond, env: Env): (status: int)
    requires InScope(c)
    ensures status == TRUE || status == FALSE || status == MATH_ERROR
  {
    match c
    case Cmp(rel, l, r) =>
      var a := ExprValue(l, env);
      if a.Fault? then a.status
      else
        var b := ExprValue(r, env);
        if b.Fault? then b.status else Bool(Holds(rel, a.n, b.n))
    case And(c1, c2) =>
      var a := CondValue(c1, env);
      if IsError(a) then a
      else
        var b := CondValue(c2, env);
        if IsError(b) then b else Bool(a == TRUE && b == TRUE)
    case Or(c1, c2) =>
      var a := CondValue(c1, env);
      if IsError(a) then a
      else
        var b := CondValue(c2, env);
        if IsError(b) then b else Bool(a == TRUE || b == TRUE)
    case Not(c1) =>
      var a := CondValue(c1, env);
      if IsError(a) then a else Bool(a == FALSE)
  }

  // ----- range derivation -----

  datatype Range = Range(derived: bool, min: long, max: long) {
    predicate Admits(v: long) {
      derived ==> min <= v <= max
    }

    predicate Full() {
      min == LONG_MIN && max == LONG_MAX
    }
  }

  const UNDERIVED := Range(false, 0, 0)

  type Ranges = s: seq<Range> | |s| == MAX_VARIABLE_ID witness seq(MAX_VARIABLE_ID, i => UNDERIVED)

  function NoRanges(): Ranges {
    seq(MAX_VARIABLE_ID, i => UNDERIVED)
  }

  // The range a comparison with constant c puts on "the variable", whichever
  // side it is on; inequality derives nothing.
  function RangeFor(rel: Rel, c: long): Option<Range> {
    match rel
    case Eq => Some(Range(true, c, c))
    case Neq => None
    case Ge => Some(Range(true, Wrap(c + 1), LONG_MAX))
    case Geq => Some(Range(true, c, LONG_MAX))
    case Le => Some(Range(true, LONG_MIN, Wrap(c - 1)))
    case Leq => Some(Range(true, LONG_MIN, c))
  }

  // The first byte of an operand's union, read as a variable identifier.
  function IdOf(x: Operand): u8 {
    match x
    case Variable(id) => id
    case Long(l) => LongBytes(l)[0]
  }

  // create_intersection for one variable.
  function Meet(a: Range, b: Range): Range {
    if !a.derived && !b.derived then UNDERIVED
    else if !b.derived then Range(true, a.min, a.max)
    else if !a.derived then Range(true, b.min, b.max)
    else Range(true, if a.min > b.min then a.min else b.min, if a.max < b.max then a.max else b.max)
  }

  // create_union for one variable.
  function Join(a: Range, b: Range): Range {
    if !a.derived && !b.derived then UNDERIVED
    else if !b.derived then Range(true, a.min, a.max)
    else if !a.derived then Range(true, b.min, b.max)
    else Range(true, if a.min > b.min then b.min else a.min, if a.max < b.max then b.max else a.max)
  }

  function Meets(d1: Ranges, d2: Ranges): Ranges {
    seq(MAX_VARIABLE_ID, i requires 0 <= i < MAX_VARIABLE_ID => Meet(d1[i], d2[i]))
  }

  function Joins(d1: Ranges, d2: Ranges): Ranges {
    seq(MAX_VARIABLE_ID, i requires 0 <= i < MAX_VARIABLE_ID => Join(d1[i], d2[i]))
  }

  // derive_relation on a comparison: anything but a left variable is taken for a
  // variable on the right.
  function DeriveCmp(rel: Rel, x: Operand, y: Operand): Option<Ranges> {
    if x.Variable? && y.Variable? then None
    else
      var id := if x.Variable? then x.id else IdOf(y);
      var c := if x.Variable? then y.l else x.l;
      var range := RangeFor(rel, c);
      if id >= MAX_VARIABLE_ID || range.None? then None
      else Some(NoRanges()[id := range.value])
  }

  function Derive(c: Cond): Option<Ranges> {
    match c
    case Cmp(rel, l, r) => if l.Leaf? && r.Leaf? then DeriveCmp(rel, l.operand, r.operand) else None
    case And(a, b) =>
      var d1 := Derive(a);
      if d1.None? then None
      else
        var d2 := Derive(b);
        if d2.None? then None else Some(Meets(d1.value, d2.value))
    case Or(a, b) =>
      var d1 := Derive(a);
      if d1.None? then None
      else
        var d2 := Derive(b);
        if d2.None? then None else Some(Joins(d1.value, d2.value))
    case Not(_) => None
  }

  // Two numbers are taken for a number and a variable: the one whose identifier is the low
  // byte of the second of them.
  lemma ConstantsDerive(rel: Rel, a: long, b: long)
    ensures var d, id := Derive(Cmp(rel, Leaf(Long(a)), Leaf(Long(b)))), (b as int) % 0x100;
            && (d.Some? <==> !rel.Neq? && id < MAX_VARIABLE_ID)
            && (d.Some? ==> forall k :: 0 <= k < MAX_VARIABLE_ID ==> (d.value[k].derived <==> k == id))
            && (d.Some? && rel.Eq? ==> d.value[id].min == d.value[id].max == a)
  {
    LowByte(b);
    hide LongBytes;
  }

  lemma LowByte(l: long)
    ensures LongBytes(l)[0] == (l as int) % 0x100
  {
    var w := (l as int) % 0x1_0000_0000;
    assert LongBytes(l)[0] == w % 0x1_0000 % 0x100;
    NestedRemainders(l);
  }

  lemma NestedRemainders(x: int)
    ensures x % 0x1_0000_0000 % 0x1_0000 % 0x100 == x % 0x100
  {
    var w := x % 0x1_0000_0000;
    var low := w % 0x1_0000;
    OneRemainder(x, 0x100_0000 * (x / 0x1_0000_0000) + 0x100 * (w / 0x1_0000) + low / 0x100, low % 0x100);
  }

  lemma OneRemainder(x: int, k: int, r: int)
    requires x == 0x100 * k + r && 0 <= r < 0x100
    ensures x % 0x100 == r
  {
  }

  // Writing the ranges d2 over d1: variables without a new range keep their old one.
  function Overlay(d1: Ranges, d2: Ranges): Ranges {
    seq(MAX_VARIABLE_ID, i requires 0 <= i < MAX_VARIABLE_ID => if d2[i].derived then d2[i] else d1[i])
  }

  // Bounds of variables without a range do not matter.
  lemma OverlaidSides(d1: Ranges, d2: Ranges)
    ensures Meets(Overlay(NoRanges(), d1), Overlay(NoRanges(), d2)) == Meets(d1, d2)
    ensures Joins(Overlay(NoRanges(), d1), Overlay(NoRanges(), d2)) == Joins(d1, d2)
  {
  }

  lemma {:induction false} OverlayNothing(c: Cond)
    requires Derive(c).Some?
    ensures Overlay(NoRanges(), Derive(c).value) == Derive(c).value
  {
    match c
    case Cmp(_, _, _) =>
    case And(a, b) =>
      OverlayNothing(a);
      OverlayNothing(b);
    case Or(a, b) =>
      OverlayNothing(a);
      OverlayNothing(b);
  }

  ghost predicate InBox(env: Env, d: Ranges) {
    forall i :: 0 <= i < MAX_VARIABLE_ID ==> d[i].Admits(env[i])
  }

  // Every assignment the condition accepts lies in the derived ranges.
  ghost predicate Sound(c: Cond)
    requires InScope(c) && Derive(c).Some?
  {
    forall env: Env :: CondValue(c, env) == TRUE ==> InBox(env, Derive(c).value)
  }

  // Which comparisons derive soundly: a variable on the left, an equality with
  // the variable on the right, or a range or comparison that excludes nothing.
  predicate SoundCmp(rel: Rel, x: Operand, y: Operand)
    requires DeriveCmp(rel, x, y).Some?
  {
    if x.Variable? then true
    else
      var range := RangeFor(rel, x.l).value;
      range.Full() ||
      match y
      case Variable(_) => rel.Eq? || (rel.Ge? && x.l == LONG_MIN) || (rel.Le? && x.l == LONG_MAX)
      case Long(k) => !Holds(rel, x.l, k)
  }

  lemma SoundCmpIff(rel: Rel, x: Operand, y: Operand)
    requires OperandInScope(x) && OperandInScope(y) && DeriveCmp(rel, x, y).Some?
    ensures Sound(Cmp(rel, Leaf(x), Leaf(y))) <==> SoundCmp(rel, x, y)
  {
    var c := Cmp(rel, Leaf(x), Leaf(y));
    if SoundCmp(rel, x, y) {
      forall env: Env | CondValue(c, env) == TRUE
        ensures InBox(env, Derive(c).value)
      {
        SoundCmpAdmits(rel, x, y, env);
      }
    } else {
      var range := RangeFor(rel, x.l).value;
      var w: long := if range.min > LONG_MIN then LONG_MIN else LONG_MAX;
      var env: Env := seq(MAX_VARIABLE_ID, i => w);
      CmpBox(rel, x, y, env);
      assert !range.Admits(w);
      assert Holds(rel, OperandValue(x, env), OperandValue(y, env));
      assert CondValue(c, env) == TRUE && !InBox(env, Derive(c).value);
    }
  }

  // The box of a single comparison restricts one variable.
  lemma CmpBox(rel: Rel, x: Operand, y: Operand, env: Env)
    requires DeriveCmp(rel, x, y).Some?
    ensures var id := if x.Variable? then x.id else IdOf(y);
            var range := RangeFor(rel, if x.Variable? then y.l else x.l).value;
            InBox(env, DeriveCmp(rel, x, y).value) <==> range.Admits(env[id])
  {
    var id := if x.Variable? then x.id else IdOf(y);
    assert DeriveCmp(rel, x, y).value[id].Admits(env[id]) <==>
           RangeFor(rel, if x.Variable? then y.l else x.l).value.Admits(env[id]);
  }

  lemma SoundCmpAdmits(rel: Rel, x: Operand, y: Operand, env: Env)
    requires OperandInScope(x) && OperandInScope(y) && DeriveCmp(rel, x, y).Some? && SoundCmp(rel, x, y)
    requires Holds(rel, OperandValue(x, env), OperandValue(y, env))
    ensures InBox(env, DeriveCmp(rel, x, y).value)
  {
    CmpBox(rel, x, y, env);
    hide InBox, LongBytes;
    if x.Variable? {
      HoldsAdmits(rel, env[x.id], y.l);
    }
  }

  // A value that compares so with c lies in the range derived from c.
  lemma HoldsAdmits(rel: Rel, v: long, c: long)
    requires RangeFor(rel, c).Some? && Holds(rel, v, c)
    ensures RangeFor(rel, c).value.Admits(v)
  {
  }

  // Conjunction: the derived ranges admit exactly what both sides admit.
  lemma MeetsExact(d1: Ranges, d2: Ranges, env: Env)
    ensures InBox(env, Meets(d1, d2)) <==> InBox(env, d1) && InBox(env, d2)
  {
    forall i | 0 <= i < MAX_VARIABLE_ID
      ensures Meets(d1, d2)[i].Admits(env[i]) <==> d1[i].Admits(env[i]) && d2[i].Admits(env[i])
    {
    }
  }

  // A variable is derived on one side of a disjunction only, and really restricted there.
  predicate OneSided(a: Range, b: Range) {
    a.derived != b.derived && !(if a.derived then a else b).Full()
  }

  // Disjunction: the union admits everything either side admits, exactly when no
  // variable is restricted by one side alone (neither side being empty).
  lemma JoinsSoundIff(d1: Ranges, d2: Ranges, e1: Env, e2: Env)
    requires InBox(e1, d1) && InBox(e2, d2)
    ensures (forall env: Env :: InBox(env, d1) || InBox(env, d2) ==> InBox(env, Joins(d1, d2))) <==>
            forall i :: 0 <= i < MAX_VARIABLE_ID ==> !OneSided(d1[i], d2[i])
  {
    if forall i :: 0 <= i < MAX_VARIABLE_ID ==> !OneSided(d1[i], d2[i]) {
      forall env: Env | InBox(env, d1) || InBox(env, d2)
        ensures InBox(env, Joins(d1, d2))
      {
        JoinAdmits(d1, d2, env);
      }
    } else {
      var i :| 0 <= i < MAX_VARIABLE_ID && OneSided(d1[i], d2[i]);
      var range := if d1[i].derived then d1[i] else d2[i];
      var w: long := if range.min > LONG_MIN then LONG_MIN else LONG_MAX;
      var env: Env := if d1[i].derived then e2[i := w] else e1[i := w];
      assert !Joins(d1, d2)[i].Admits(env[i]);
      assert InBox(env, if d1[i].derived then d2 else d1);
    }
  }

  lemma JoinAdmits(d1: Ranges, d2: Ranges, env: Env)
    requires InBox(env, d1) || InBox(env, d2)
    requires forall i :: 0 <= i < MAX_VARIABLE_ID ==> !OneSided(d1[i], d2[i])
    ensures InBox(env, Joins(d1, d2))
  {
    forall i | 0 <= i < MAX_VARIABLE_ID
      ensures Joins(d1, d2)[i].Admits(env[i])
    {
      assert !OneSided(d1[i], d2[i]);
      assert d1[i].Admits(env[i]) || d2[i].Admits(env[i]);
    }
  }

  // The conditions above at every node of a tree.
  predicate SoundlyDerived(c: Cond)
    requires Derive(c).Some?
  {
    match c
    case Cmp(rel, l, r) => SoundCmp(rel, l.operand, r.operand)
    case And(a, b) => SoundlyDerived(a) && SoundlyDerived(b)
    case Or(a, b) =>
      && SoundlyDerived(a) && SoundlyDerived(b)
      && forall i :: 0 <= i < MAX_VARIABLE_ID ==> !OneSided(Derive(a).value[i], Derive(b).value[i])
    case Not(_) => true
  }

  // Deriving ranges from such a condition never excludes an assignment it accepts.
  lemma {:induction false} DeriveSound(c: Cond)
    requires InScope(c) && Derive(c).Some? && SoundlyDerived(c)
    ensures Sound(c)
  {
    match c
    case Cmp(rel, l, r) => SoundCmpIff(rel, l.operand, r.operand);
    case And(a, b) =>
      DeriveSound(a);
      DeriveSound(b);
      forall env: Env | CondValue(c, env) == TRUE
        ensures InBox(env, Derive(c).value)
      {
        MeetsExact(Derive(a).value, Derive(b).value, env);
      }
    case Or(a, b) =>
      DeriveSound(a);
      DeriveSound(b);
      forall env: Env | CondValue(c, env) == TRUE
        ensures InBox(env, Derive(c).value)
      {
        JoinAdmits(Derive(a).value, Derive(b).value, env);
      }
  }

  // Conjunctions of comparisons with the variable on the left and no overflow
  // at the constant.
  predicate PlainConjunction(c: Cond) {
    match c
    case Cmp(rel, l, r) =>
      && l.Leaf? && r.Leaf? && l.operand.Variable? && r.operand.Long? && !rel.Neq?
      && (rel.Ge? ==> r.operand.l < LONG_MAX) && (rel.Le? ==> r.operand.l > LONG_MIN)
    case And(a, b) => PlainConjunction(a) && PlainConjunction(b)
    case Or(_, _) => false
    case Not(_) => false
  }

  // For those the ranges are the condition: nothing is lost either way.
  lemma {:induction false} DeriveExact(c: Cond, env: Env)
    requires InScope(c) && PlainConjunction(c)
    ensures Derive(c).Some?
    ensures CondValue(c, env) == TRUE <==> InBox(env, Derive(c).value)
    ensures !IsError(CondValue(c, env))
  {
    match c
    case Cmp(rel, l, r) =>
      var d := Derive(c).value;
      var id := l.operand.id;
      assert InBox(env, d) <==> d[id].Admits(env[id]);
    case And(a, b) =>
      DeriveExact(a, env);
      DeriveExact(b, env);
      MeetsExact(Derive(a).value, Derive(b).value, env);
  }

  // For a disjunction of two of them that can both be met, the ranges are sound
  // exactly when no variable is restricted on one side only.
  lemma OrSoundIff(a: Cond, b: Cond, e1: Env, e2: Env)
    requires InScope(a) && InScope(b) && PlainConjunction(a) && PlainConjunction(b)
    requires CondValue(a, e1) == TRUE && CondValue(b, e2) == TRUE
    ensures Derive(a).Some? && Derive(b).Some?
    ensures Sound(Or(a, b)) <==>
            forall i :: 0 <= i < MAX_VARIABLE_ID ==> !OneSided(Derive(a).value[i], Derive(b).value[i])
  {
    DeriveExact(a, e1);
    DeriveExact(b, e2);
    var d1, d2 := Derive(a).value, Derive(b).value;
    forall env: Env
      ensures CondValue(Or(a, b), env) == TRUE <==> InBox(env, d1) || InBox(env, d2)
    {
      DeriveExact(a, env);
      DeriveExact(b, env);
    }
    JoinsSoundIff(d1, d2, e1, e2);
  }
}
