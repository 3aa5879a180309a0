// What the LogicVM does with any byte sequence, well formed or not, and its
// agreement with the condition trees on their prefix encodings.
module LvmCode {
  import opened Common
  import opened Lvm

  // Ok carries a value and where reading continues; Beyond means the program
  // would read outside the code or the variable table.
  datatype Exec = Ok(n: int, next: nat) | Stop(status: int) | Beyond

  function WordAt(code: Bytes, ip: nat): u16
    requires ip + 2 <= |code|
  {
    WordOf(code[ip], code[ip + 1])
  }

  function LongAt(code: Bytes, ip: nat): long
    requires ip + 4 <= |code|
  {
    LongOf(WordAt(code, ip), WordAt(code, ip + 2))
  }

  // operand_to_long of the operand stored at ip; an unknown type reads as zero.
  function OperandAt(code: Bytes, ip: nat, env: Env): (r: Exec)
    requires ip + OPERAND_SIZE <= |code|
    ensures r.Ok? ==> r.next == ip + OPERAND_SIZE && LONG_MIN <= r.n <= LONG_MAX
    ensures !r.Stop?
  {
    var tag := WordAt(code, ip);
    if tag == 2 then Ok(LongAt(code, ip + 2), ip + OPERAND_SIZE)
    else if tag != 0 then Ok(0, ip + OPERAND_SIZE)
    else if code[ip + 2] >= MAX_VARIABLE_ID then Beyond
    else Ok(env[code[ip + 2]], ip + OPERAND_SIZE)
  }

  // One operand position: a nested arithmetic operation or an operand.
  function Argument(code: Bytes, ip: nat, env: Env): (r: Exec)
    ensures r.Stop? ==> IsError(r.status)
    ensures r.Ok? ==> ip < r.next <= |code| && LONG_MIN <= r.n <= LONG_MAX
    decreases |code| - ip, 0
  {
    if ip + TYPE_SIZE > |code| then Beyond
    else if WordAt(code, ip) == LVM_ARITH_OP then
      if ip + OP_SPACE > |code| then Beyond else EvalExpr(code, ip + OP_SPACE, WordAt(code, ip + TYPE_SIZE), env)
    else if WordAt(code, ip) == LVM_OPERAND then
      if ip + TYPE_SIZE + OPERAND_SIZE > |code| then Beyond else OperandAt(code, ip + TYPE_SIZE, env)
    else Stop(SEMANTIC_ERROR)
  }

  function Arithmetic(op: u16, a: long, b: long): Value {
    if op == ArithCode(Add) then Compute(Add, a, b)
    else if op == ArithCode(Sub) then Compute(Sub, a, b)
    else if op == ArithCode(Mul) then Compute(Mul, a, b)
    else if op == ArithCode(Div) then Compute(Div, a, b)
    else Fault(EXECUTION_ERROR)
  }

  function EvalExpr(code: Bytes, ip: nat, op: u16, env: Env): (r: Exec)
    ensures r.Stop? ==> IsError(r.status)
    ensures r.Ok? ==> ip < r.next <= |code| && LONG_MIN <= r.n <= LONG_MAX
    decreases |code| - ip, 1
  {
    var a := Argument(code, ip, env);
    if !a.Ok? then a
    else
      var b := Argument(code, a.next, env);
      if !b.Ok? then b
      else
        match Arithmetic(op, a.n, b.n)
        case Number(n) => Ok(n, b.next)
        case Fault(status) => Stop(status)
  }

  predicate IsConnective(op: u16) {
    (op as int) / LVM_CONNECTIVE % 2 == 1
  }

  function Compare(op: u16, a: long, b: long): int {
    if op == RelCode(Eq) then Bool(Lvm.Holds(Eq, a, b))
    else if op == RelCode(Neq) then Bool(Lvm.Holds(Neq, a, b))
    else if op == RelCode(Ge) then Bool(Lvm.Holds(Ge, a, b))
    else if op == RelCode(Geq) then Bool(Lvm.Holds(Geq, a, b))
    else if op == RelCode(Le) then Bool(Lvm.Holds(Le, a, b))
    else if op == RelCode(Leq) then Bool(Lvm.Holds(Leq, a, b))
    else EXECUTION_ERROR
  }

  // One argument of a connective: it must be a comparison or a connective.
  function SubCondition(code: Bytes, ip: nat, env: Env): (r: Exec)
    ensures r.Stop? ==> IsError(r.status)
    ensures r.Ok? ==> ip < r.next <= |code| && (r.n == TRUE || r.n == FALSE)
    decreases |code| - ip, 0
  {
    if ip + TYPE_SIZE > |code| then Beyond
    else if WordAt(code, ip) != LVM_CMP_OP then Stop(SEMANTIC_ERROR)
    else if ip + OP_SPACE > |code| then Beyond
    else EvalLogic(code, ip + OP_SPACE, WordAt(code, ip + TYPE_SIZE), env)
  }

  function EvalLogic(code: Bytes, ip: nat, op: u16, env: Env): (r: Exec)
    ensures r.Stop? ==> IsError(r.status)
    ensures r.Ok? ==> ip < r.next <= |code| && (r.n == TRUE || r.n == FALSE)
    decreases |code| - ip, 1
  {
    if IsConnective(op) then
      var a := SubCondition(code, ip, env);
      if !a.Ok? then a
      else if op == LVM_NOT then Ok(Bool(a.n == FALSE), a.next)
      else
        var b := SubCondition(code, a.next, env);
        if !b.Ok? then b
        else if op == LVM_AND then Ok(Bool(a.n == TRUE && b.n == TRUE), b.next)
        else Ok(Bool(a.n == TRUE || b.n == TRUE), b.next)
    else
      var a := Argument(code, ip, env);
      if !a.Ok? then a
      else
        var b := Argument(code, a.next, env);
        if !b.Ok? then b
        else
          var status := Compare(op, a.n, b.n);
          if IsError(status) then Stop(status) else Ok(status, b.next)
  }

  // lvm_execute.
  function Execute(code: Bytes, env: Env): Exec {
    if TYPE_SIZE > |code| then Beyond
    else if WordAt(code, 0) != LVM_CMP_OP then Stop(EXECUTION_ERROR)
    else if OP_SPACE > |code| then Beyond
    else EvalLogic(code, OP_SPACE, WordAt(code, TYPE_SIZE), env)
  }

  // derive_relation.
  datatype Derivation = Derived(ranges: Ranges, next: nat) | Refused | OutOfCode

  function DeriveAt(code: Bytes, ip: nat): (r: Derivation)
    ensures r.Derived? ==> ip < r.next <= |code|
    decreases |code| - ip
  {
    if ip + OP_SPACE > |code| then OutOfCode
    else
      var op := WordAt(code, ip + TYPE_SIZE);
      if IsConnective(op) then
        if op != LVM_AND && op != LVM_OR then Refused
        else
          var a := DeriveAt(code, ip + OP_SPACE);
          if !a.Derived? then a
          else
            var b := DeriveAt(code, a.next);
            if !b.Derived? then b
            else Derived(if op == LVM_AND then Meets(a.ranges, b.ranges) else Joins(a.ranges, b.ranges), b.next)
      else DeriveComparison(code, ip + OP_SPACE, op)
  }

  // The operand a comparison's side must be, for a range to be derived.
  function PlainOperand(code: Bytes, ip: nat): Option<Operand>
    requires ip + TYPE_SIZE + OPERAND_SIZE <= |code|
  {
    if WordAt(code, ip) != LVM_OPERAND then None
    else if WordAt(code, ip + 2) == 0 then Some(Variable(code[ip + 4]))
    else Some(Long(LongAt(code, ip + 4)))
  }

  function RelOf(op: u16): Option<Rel> {
    if op == RelCode(Eq) then Some(Eq)
    else if op == RelCode(Ge) then Some(Ge)
    else if op == RelCode(Geq) then Some(Geq)
    else if op == RelCode(Le) then Some(Le)
    else if op == RelCode(Leq) then Some(Leq)
    else None
  }

  function DeriveComparison(code: Bytes, ip: nat, op: u16): (r: Derivation)
    ensures r.Derived? ==> ip < r.next <= |code|
  {
    if ip + 2 > |code| then OutOfCode
    else if WordAt(code, ip) != LVM_OPERAND then Refused
    else if ip + 10 > |code| then OutOfCode
    else if WordAt(code, ip + 8) != LVM_OPERAND then Refused
    else if ip + 16 > |code| then OutOfCode
    else
      var rel := RelOf(op);
      if rel.None? then Refused
      else
        var d := DeriveCmp(rel.value, PlainOperand(code, ip).value, PlainOperand(code, ip + 8).value);
        if d.None? then Refused else Derived(d.value, ip + 16)
  }

  // The variable of a comparison of plain operands whose operator gives no range.
  function RefusedVariable(code: Bytes, ip: nat): (id: Option<u8>)
    ensures id.Some? ==> id.value < MAX_VARIABLE_ID
  {
    if ip + 4 > |code| || IsConnective(WordAt(code, ip + 2)) then None else PlainVariable(code, ip + 4)
  }

  // The variable of a comparison whose sides are a variable and a number.
  function PlainVariable(code: Bytes, ip: nat): (id: Option<u8>)
    ensures id.Some? ==> id.value < MAX_VARIABLE_ID
  {
    if ip + 16 > |code| || WordAt(code, ip) != LVM_OPERAND || WordAt(code, ip + 8) != LVM_OPERAND then None
    else
      var x, y := PlainOperand(code, ip).value, PlainOperand(code, ip + 8).value;
      var id := if x.Variable? then x.id else IdOf(y);
      if (x.Variable? && y.Variable?) || id >= MAX_VARIABLE_ID then None else Some(id)
  }

  // Derivation writes into the ranges it is given: where it derives a range; and where it
  // is refused because of the operator, after the bounds were set to all numbers.
  function Written(before: Ranges, d: Derivation, refused: Option<u8>): (r: Ranges)
    requires refused.Some? ==> refused.value < MAX_VARIABLE_ID
  {
    if d.Derived? then Overlay(before, d.ranges)
    else if refused.Some? then before[refused.value := before[refused.value].(min := LONG_MIN, max := LONG_MAX)]
    else before
  }

  // ----- encodings -----

  function ExecOf(v: Value, next: nat): Exec {
    match v
    case Number(n) => Ok(n, next)
    case Fault(status) => Stop(status)
  }

  function ExecStatus(status: int, next: nat): Exec {
    if IsError(status) then Stop(status) else Ok(status, next)
  }

  // A header of two words and what follows it.
  lemma PartsAt(code: Bytes, ip: nat, a: u16, b: u16, x: Bytes, y: Bytes)
    requires At(code, ip, Word(a) + Word(b) + x + y)
    ensures ip + 4 <= |code| && WordAt(code, ip) == a && WordAt(code, ip + 2) == b
    ensures At(code, ip + 4, x) && At(code, ip + 4 + |x|, y)
  {
    AtConcat(code, ip, Word(a) + Word(b) + x, y);
    AtConcat(code, ip, Word(a) + Word(b), x);
    AtConcat(code, ip, Word(a), Word(b));
    WordIsAt(code, ip, a);
    WordIsAt(code, ip + 2, b);
  }

  lemma WordIsAt(code: Bytes, ip: nat, a: u16)
    requires At(code, ip, Word(a))
    ensures WordAt(code, ip) == a
  {
    assert code[ip + 0] == Word(a)[0] && code[ip + 1] == Word(a)[1];
  }

  lemma LongIsAt(code: Bytes, ip: nat, l: long)
    requires At(code, ip, LongBytes(l))
    ensures LongAt(code, ip) == l
  {
    hide LongBytes, LongOf, WordOf;
    var b := LongBytes(l);
    assert code[ip + 0] == b[0] && code[ip + 1] == b[1] && code[ip + 2] == b[2] && code[ip + 3] == b[3];
  }

  lemma OperandIsAt(code: Bytes, ip: nat, x: Operand)
    requires At(code, ip, OperandBytes(x))
    ensures match x
            case Variable(id) => WordAt(code, ip) == 0 && code[ip + 2] == id
            case Long(l) => WordAt(code, ip) == 2 && LongAt(code, ip + 2) == l
  {
    hide LongBytes, LongOf, LongAt, WordAt, Word;
    match x
    case Variable(id) =>
      AtConcat(code, ip, Word(0), [id, 0, 0, 0]);
      WordIsAt(code, ip, 0);
      assert code[ip + 2 + 0] == [id, 0, 0, 0][0];
    case Long(l) =>
      AtConcat(code, ip, Word(2), LongBytes(l));
      WordIsAt(code, ip, 2);
      LongIsAt(code, ip + 2, l);
  }

  lemma LeafAt(code: Bytes, ip: nat, x: Operand, env: Env)
    requires At(code, ip, EncodeExpr(Leaf(x)))
    ensures WordAt(code, ip) == LVM_OPERAND && ip + 8 <= |code|
    ensures PlainOperand(code, ip) == Some(x)
    ensures OperandInScope(x) ==> OperandAt(code, ip + 2, env) == Ok(OperandValue(x, env), ip + 8)
  {
    AtConcat(code, ip, Word(LVM_OPERAND), OperandBytes(x));
    WordIsAt(code, ip, LVM_OPERAND);
    OperandIsAt(code, ip + 2, x);
    hide At, Word, WordAt, LongAt, OperandBytes;
  }

  // Running the code of an expression yields its value and ends right behind it.
  lemma {:induction false} ArgumentEncoded(code: Bytes, ip: nat, e: Expr, env: Env)
    requires ExprInScope(e) && At(code, ip, EncodeExpr(e))
    ensures Argument(code, ip, env) == ExecOf(ExprValue(e, env), ip + |EncodeExpr(e)|)
    decreases e, 1
  {
    hide At, Argument, Word, ArithCode;
    match e
    case Leaf(x) => LeafArgument(code, ip, x, env);
    case Arith(op, l, r) => ArithEncoded(code, ip, op, l, r, env);
  }

  lemma {:induction false} ArithEncoded(code: Bytes, ip: nat, op: ArithOp, l: Expr, r: Expr, env: Env)
    requires ExprInScope(l) && ExprInScope(r) && At(code, ip, ArithHeader(op) + EncodeExpr(l) + EncodeExpr(r))
    ensures Argument(code, ip, env) ==
            ExecOf(ExprValue(Arith(op, l, r), env), ip + 4 + |EncodeExpr(l)| + |EncodeExpr(r)|)
    decreases Arith(op, l, r), 0
  {
    hide At, Argument, Word, ArithCode, EncodeExpr;
    PartsAt(code, ip, LVM_ARITH_OP, ArithCode(op), EncodeExpr(l), EncodeExpr(r));
    ArgumentEncoded(code, ip + 4, l, env);
    ArgumentEncoded(code, ip + 4 + |EncodeExpr(l)|, r, env);
    ArithmeticStep(code, ip, op, EncodeExpr(l), EncodeExpr(r), ExprValue(l, env), ExprValue(r, env), env);
  }

  lemma LeafArgument(code: Bytes, ip: nat, x: Operand, env: Env)
    requires OperandInScope(x) && At(code, ip, EncodeExpr(Leaf(x)))
    ensures Argument(code, ip, env) == Ok(OperandValue(x, env), ip + 8)
  {
    hide At, WordAt, PlainOperand, OperandAt, OperandValue;
    LeafAt(code, ip, x, env);
    assert Argument(code, ip, env) == OperandAt(code, ip + 2, env);
    hide *;
  }

  lemma ArithmeticStep(code: Bytes, ip: nat, op: ArithOp, l: Bytes, r: Bytes, a: Value, b: Value, env: Env)
    requires ip + 4 <= |code| && WordAt(code, ip) == LVM_ARITH_OP && WordAt(code, ip + 2) == ArithCode(op)
    requires Argument(code, ip + 4, env) == ExecOf(a, ip + 4 + |l|)
    requires Argument(code, ip + 4 + |l|, env) == ExecOf(b, ip + 4 + |l| + |r|)
    ensures Argument(code, ip, env) ==
            ExecOf(if a.Fault? then a else if b.Fault? then b else Compute(op, a.n, b.n), ip + 4 + |l| + |r|)
  {
  }

  lemma CompareCode(rel: Rel, a: long, b: long)
    ensures Compare(RelCode(rel), a, b) == Bool(Lvm.Holds(rel, a, b)) && !IsConnective(RelCode(rel))
  {
  }

  lemma ComparisonStep(code: Bytes, ip: nat, rel: Rel, l: Bytes, r: Bytes, a: Value, b: Value, env: Env)
    requires ip + 4 <= |code| && WordAt(code, ip) == LVM_CMP_OP && WordAt(code, ip + 2) == RelCode(rel)
    requires Argument(code, ip + 4, env) == ExecOf(a, ip + 4 + |l|)
    requires Argument(code, ip + 4 + |l|, env) == ExecOf(b, ip + 4 + |l| + |r|)
    requires (a.Fault? ==> a.status == MATH_ERROR) && (b.Fault? ==> b.status == MATH_ERROR)
    ensures SubCondition(code, ip, env) ==
            ExecStatus(if a.Fault? then a.status else if b.Fault? then b.status else Bool(Lvm.Holds(rel, a.n, b.n)),
                       ip + 4 + |l| + |r|)
  {
    CompareCode(rel, 0, 0);
    if a.Number? && b.Number? {
      CompareCode(rel, a.n, b.n);
    }
    assert SubCondition(code, ip, env) == EvalLogic(code, ip + 4, RelCode(rel), env);
  }

  lemma ConnectiveStep(code: Bytes, ip: nat, op: u16, x: Bytes, y: Bytes, a: int, b: int, env: Env)
    requires ip + 4 <= |code| && WordAt(code, ip) == LVM_CMP_OP && WordAt(code, ip + 2) == op &&
             (op == LVM_AND || op == LVM_OR)
    requires SubCondition(code, ip + 4, env) == ExecStatus(a, ip + 4 + |x|)
    requires SubCondition(code, ip + 4 + |x|, env) == ExecStatus(b, ip + 4 + |x| + |y|)
    ensures SubCondition(code, ip, env) ==
            ExecStatus(if IsError(a) then a else if IsError(b) then b
                       else Bool(if op == LVM_AND then a == TRUE && b == TRUE else a == TRUE || b == TRUE),
                       ip + 4 + |x| + |y|)
  {
    assert SubCondition(code, ip, env) == EvalLogic(code, ip + 4, op, env);
  }

  lemma NegationStep(code: Bytes, ip: nat, a: int, next: nat, env: Env)
    requires ip + 4 <= |code| && WordAt(code, ip) == LVM_CMP_OP && WordAt(code, ip + 2) == LVM_NOT
    requires SubCondition(code, ip + 4, env) == ExecStatus(a, next)
    ensures SubCondition(code, ip, env) == ExecStatus(if IsError(a) then a else Bool(a == FALSE), next)
  {
    assert SubCondition(code, ip, env) == EvalLogic(code, ip + 4, LVM_NOT, env);
  }

  lemma {:induction false} SubConditionEncoded(code: Bytes, ip: nat, c: Cond, env: Env)
    requires InScope(c) && At(code, ip, EncodeCond(c))
    ensures SubCondition(code, ip, env) == ExecStatus(CondValue(c, env), ip + |EncodeCond(c)|)
    decreases c, 1
  {
    hide At, SubCondition, Word;
    match c
    case Cmp(rel, l, r) => ComparisonEncoded(code, ip, rel, l, r, env);
    case And(a, b) => ConnectiveEncoded(code, ip, LVM_AND, a, b, env);
    case Or(a, b) => ConnectiveEncoded(code, ip, LVM_OR, a, b, env);
    case Not(a) => NegationEncoded(code, ip, a, env);
  }

  lemma {:induction false} NegationEncoded(code: Bytes, ip: nat, a: Cond, env: Env)
    requires InScope(a) && At(code, ip, CmpHeader(LVM_NOT) + EncodeCond(a))
    ensures SubCondition(code, ip, env) == ExecStatus(CondValue(Not(a), env), ip + 4 + |EncodeCond(a)|)
    decreases Not(a), 0
  {
    hide At, SubCondition, Word, EncodeCond;
    assert CmpHeader(LVM_NOT) + EncodeCond(a) == Word(LVM_CMP_OP) + Word(LVM_NOT) + EncodeCond(a) + [];
    PartsAt(code, ip, LVM_CMP_OP, LVM_NOT, EncodeCond(a), []);
    SubConditionEncoded(code, ip + 4, a, env);
    NegationStep(code, ip, CondValue(a, env), ip + 4 + |EncodeCond(a)|, env);
  }

  lemma ComparisonEncoded(code: Bytes, ip: nat, rel: Rel, l: Expr, r: Expr, env: Env)
    requires ExprInScope(l) && ExprInScope(r) && At(code, ip, CmpHeader(RelCode(rel)) + EncodeExpr(l) + EncodeExpr(r))
    ensures SubCondition(code, ip, env) ==
            ExecStatus(CondValue(Cmp(rel, l, r), env), ip + 4 + |EncodeExpr(l)| + |EncodeExpr(r)|)
  {
    hide At, SubCondition, Argument, Word, RelCode, EncodeExpr;
    PartsAt(code, ip, LVM_CMP_OP, RelCode(rel), EncodeExpr(l), EncodeExpr(r));
    ArgumentEncoded(code, ip + 4, l, env);
    ArgumentEncoded(code, ip + 4 + |EncodeExpr(l)|, r, env);
    ComparisonStep(code, ip, rel, EncodeExpr(l), EncodeExpr(r), ExprValue(l, env), ExprValue(r, env), env);
  }

  lemma {:induction false} ConnectiveEncoded(code: Bytes, ip: nat, op: u16, a: Cond, b: Cond, env: Env)
    requires op == LVM_AND || op == LVM_OR
    requires InScope(a) && InScope(b) && At(code, ip, CmpHeader(op) + EncodeCond(a) + EncodeCond(b))
    ensures SubCondition(code, ip, env) ==
            ExecStatus(CondValue(if op == LVM_AND then And(a, b) else Or(a, b), env),
                       ip + 4 + |EncodeCond(a)| + |EncodeCond(b)|)
    decreases if op == LVM_AND then And(a, b) else Or(a, b), 0
  {
    hide At, SubCondition, Word, EncodeCond;
    PartsAt(code, ip, LVM_CMP_OP, op, EncodeCond(a), EncodeCond(b));
    SubConditionEncoded(code, ip + 4, a, env);
    SubConditionEncoded(code, ip + 4 + |EncodeCond(a)|, b, env);
    ConnectiveStep(code, ip, op, EncodeCond(a), EncodeCond(b), CondValue(a, env), CondValue(b, env), env);
  }

  // lvm_execute on the code of a condition tree, whatever follows it, gives the
  // tree's value; without an error the instruction pointer ends at its length.
  lemma ExecuteEncoded(c: Cond, rest: Bytes, env: Env)
    requires InScope(c)
    ensures Execute(EncodeCond(c) + rest, env) == ExecStatus(CondValue(c, env), |EncodeCond(c)|)
  {
    hide Word;
    var code := EncodeCond(c) + rest;
    assert At(code, 0, EncodeCond(c));
    SubConditionEncoded(code, 0, c, env);
  }

  function DerivationOf(d: Option<Ranges>, next: nat): Derivation {
    if d.Some? then Derived(d.value, next) else Refused
  }

  // lvm_derive on that code gives the ranges of the tree.
  lemma {:induction false} DeriveEncoded(code: Bytes, ip: nat, c: Cond)
    requires At(code, ip, EncodeCond(c))
    ensures DeriveAt(code, ip) == DerivationOf(Derive(c), ip + |EncodeCond(c)|)
    decreases c, 1
  {
    hide At, Word, RelCode, DeriveAt;
    match c
    case Cmp(rel, l, r) => DeriveCmpEncoded(code, ip, rel, l, r);
    case And(a, b) => DeriveConnectiveEncoded(code, ip, LVM_AND, a, b);
    case Or(a, b) => DeriveConnectiveEncoded(code, ip, LVM_OR, a, b);
    case Not(a) =>
      assert CmpHeader(LVM_NOT) + EncodeCond(a) == Word(LVM_CMP_OP) + Word(LVM_NOT) + EncodeCond(a) + [];
      PartsAt(code, ip, LVM_CMP_OP, LVM_NOT, EncodeCond(a), []);
      DeriveRefusesNot(code, ip);
  }

  lemma {:induction false} DeriveConnectiveEncoded(code: Bytes, ip: nat, op: u16, a: Cond, b: Cond)
    requires op == LVM_AND || op == LVM_OR
    requires At(code, ip, CmpHeader(op) + EncodeCond(a) + EncodeCond(b))
    ensures DeriveAt(code, ip) ==
            DerivationOf(Derive(if op == LVM_AND then And(a, b) else Or(a, b)),
                         ip + 4 + |EncodeCond(a)| + |EncodeCond(b)|)
    decreases if op == LVM_AND then And(a, b) else Or(a, b), 0
  {
    hide At, DeriveAt, Word, EncodeCond;
    var mid := ip + 4 + |EncodeCond(a)|;
    PartsAt(code, ip, LVM_CMP_OP, op, EncodeCond(a), EncodeCond(b));
    DeriveEncoded(code, ip + 4, a);
    DeriveEncoded(code, mid, b);
    DeriveStep(code, ip, op, mid, mid + |EncodeCond(b)|, Derive(a), Derive(b));
  }

  lemma DeriveStep(code: Bytes, ip: nat, op: u16, mid: nat, end: nat, a: Option<Ranges>, b: Option<Ranges>)
    requires ip + 4 <= |code| && WordAt(code, ip + 2) == op && (op == LVM_AND || op == LVM_OR)
    requires DeriveAt(code, ip + 4) == DerivationOf(a, mid)
    requires DeriveAt(code, mid) == DerivationOf(b, end)
    ensures DeriveAt(code, ip) ==
            DerivationOf(if a.None? || b.None? then None
                         else Some(if op == LVM_AND then Meets(a.value, b.value) else Joins(a.value, b.value)), end)
  {
    hide Meets, Joins, DeriveComparison, WordAt;
    ConnectiveCodes();
  }

  lemma DeriveRefusesNot(code: Bytes, ip: nat)
    requires ip + 4 <= |code| && WordAt(code, ip + 2) == LVM_NOT
    ensures DeriveAt(code, ip) == Refused
  {
    ConnectiveCodes();
  }

  lemma ConnectiveCodes()
    ensures IsConnective(LVM_AND) && IsConnective(LVM_OR) && IsConnective(LVM_NOT)
  {
  }

  lemma ExprStart(code: Bytes, ip: nat, e: Expr)
    requires At(code, ip, EncodeExpr(e))
    ensures ip + 8 <= |code|
    ensures WordAt(code, ip) == if e.Leaf? then LVM_OPERAND else LVM_ARITH_OP
  {
    match e
    case Leaf(x) =>
      AtConcat(code, ip, Word(LVM_OPERAND), OperandBytes(x));
      WordIsAt(code, ip, LVM_OPERAND);
    case Arith(op, l, r) =>
      PartsAt(code, ip, LVM_ARITH_OP, ArithCode(op), EncodeExpr(l), EncodeExpr(r));
  }

  lemma DeriveCmpEncoded(code: Bytes, ip: nat, rel: Rel, l: Expr, r: Expr)
    requires At(code, ip, EncodeCond(Cmp(rel, l, r)))
    ensures DeriveAt(code, ip) == DerivationOf(Derive(Cmp(rel, l, r)), ip + |EncodeCond(Cmp(rel, l, r))|)
  {
    hide At, Word, WordAt, LongAt, OperandBytes, OperandAt;
    PartsAt(code, ip, LVM_CMP_OP, RelCode(rel), EncodeExpr(l), EncodeExpr(r));
    CompareCode(rel, 0, 0);
    ExprStart(code, ip + 4, l);
    ExprStart(code, ip + 4 + |EncodeExpr(l)|, r);
    assert DeriveAt(code, ip) == DeriveComparison(code, ip + 4, RelCode(rel));
    if l.Leaf? && r.Leaf? {
      LeafAt(code, ip + 4, l.operand, seq(MAX_VARIABLE_ID, i => 0));
      LeafAt(code, ip + 12, r.operand, seq(MAX_VARIABLE_ID, i => 0));
      RelOfCode(rel);
    }
  }

  lemma RelOfCode(rel: Rel)
    ensures RelOf(RelCode(rel)) == if rel.Neq? then None else Some(rel)
  {
  }

  // ----- what the operations come to -----

  // Two argument positions, read one after the other: the first error is the result.
  ghost predicate ReadsTwo(a: Exec, b: Exec, r: Exec, operated: bool) {
    if !a.Ok? then r == a else if !b.Ok? then r == b else operated
  }

  // The arithmetic operators by their codes.
  ghost predicate Operated(op: u16, a: Exec, b: Exec, r: Exec)
    requires a.Ok? && b.Ok?
  {
    if op == 0x11 then r.Ok? && r.next == b.next && Congruent(r.n, a.n + b.n)
    else if op == 0x12 then r.Ok? && r.next == b.next && Congruent(r.n, a.n - b.n)
    else if op == 0x13 then r.Ok? && r.next == b.next && Congruent(r.n, a.n * b.n)
    else if op != 0x14 then r == Stop(EXECUTION_ERROR)
    else if b.n == 0 then r == Stop(MATH_ERROR)
    else r.Ok? && r.next == b.next && IsLong(a.n) && IsLong(b.n) && IsLong(r.n) && Divides(a.n, b.n, r.n)
  }

  predicate IsLong(x: int) {
    LONG_MIN <= x <= LONG_MAX
  }

  // The relations by their codes.
  ghost predicate Related(op: u16, a: Exec, b: Exec, r: Exec)
    requires a.Ok? && b.Ok?
  {
    if op == 0x41 then r == Ok(if a.n == b.n then 1 else 0, b.next)
    else if op == 0x42 then r == Ok(if a.n == b.n then 0 else 1, b.next)
    else if op == 0x43 then r == Ok(if a.n > b.n then 1 else 0, b.next)
    else if op == 0x44 then r == Ok(if a.n < b.n then 0 else 1, b.next)
    else if op == 0x45 then r == Ok(if a.n < b.n then 1 else 0, b.next)
    else if op == 0x46 then r == Ok(if a.n > b.n then 0 else 1, b.next)
    else r == Stop(EXECUTION_ERROR)
  }

  // The connectives by their codes; every other code with the connective bit is an OR.
  ghost predicate Connected(op: u16, a: Exec, b: Exec, r: Exec)
    requires a.Ok? && b.Ok?
  {
    if op == 0x81 then r == Ok(if a.n == 0 || b.n == 0 then 0 else 1, b.next)
    else r == Ok(if a.n == 0 && b.n == 0 then 0 else 1, b.next)
  }

  ghost predicate ExprEvaluated(code: Bytes, ip: nat, op: u16, env: Env, r: Exec) {
    var a := Argument(code, ip, env);
    var b := if a.Ok? then Argument(code, a.next, env) else a;
    ReadsTwo(a, b, r, a.Ok? && b.Ok? && Operated(op, a, b, r))
  }

  ghost predicate LogicEvaluated(code: Bytes, ip: nat, op: u16, env: Env, r: Exec) {
    if op == 0x83 then
      var a := SubCondition(code, ip, env);
      if a.Ok? then r == Ok(if a.n == 0 then 1 else 0, a.next) else r == a
    else if IsConnective(op) then
      var a := SubCondition(code, ip, env);
      var b := if a.Ok? then SubCondition(code, a.next, env) else a;
      ReadsTwo(a, b, r, a.Ok? && b.Ok? && Connected(op, a, b, r))
    else
      var a := Argument(code, ip, env);
      var b := if a.Ok? then Argument(code, a.next, env) else a;
      ReadsTwo(a, b, r, a.Ok? && b.Ok? && Related(op, a, b, r))
  }

  lemma ArithmeticOperated(op: u16, a: Exec, b: Exec)
    requires a.Ok? && b.Ok? && IsLong(a.n) && IsLong(b.n)
    ensures Operated(op, a, b, ExecOf(Arithmetic(op, a.n, b.n), b.next))
  {
    hide Compute, Congruent, Divides;
    if op == 0x11 {
      ComputeResults(Add, a.n, b.n);
    } else if op == 0x12 {
      ComputeResults(Sub, a.n, b.n);
    } else if op == 0x13 {
      ComputeResults(Mul, a.n, b.n);
    } else if op == 0x14 {
      ComputeResults(Div, a.n, b.n);
    }
  }

  // Arithmetic on any code.
  lemma EvalExprMeans(code: Bytes, ip: nat, op: u16, env: Env)
    ensures ExprEvaluated(code, ip, op, env, EvalExpr(code, ip, op, env))
  {
    var a := Argument(code, ip, env);
    if a.Ok? {
      var b := Argument(code, a.next, env);
      if b.Ok? {
        ArithmeticOperated(op, a, b);
      }
    }
    hide Argument, Arithmetic, Operated;
  }

  // Conditions on any code.
  lemma EvalLogicMeans(code: Bytes, ip: nat, op: u16, env: Env)
    ensures LogicEvaluated(code, ip, op, env, EvalLogic(code, ip, op, env))
  {
    ConnectiveCodes();
    hide Argument, SubCondition;
  }

  // The code of an operation on two expressions with values: for two numbers, exactly the
  // long that has the low 32 bits of their sum, difference or product, or their quotient.
  lemma OperationRuns(code: Bytes, ip: nat, op: ArithOp, l: Expr, r: Expr, env: Env)
    requires ExprInScope(l) && ExprInScope(r) && At(code, ip, EncodeExpr(Arith(op, l, r)))
    requires ExprValue(l, env).Number? && ExprValue(r, env).Number?
    ensures exists v: Value ::
              && Results(op, ExprValue(l, env).n, ExprValue(r, env).n, v)
              && Argument(code, ip, env) == ExecOf(v, ip + |EncodeExpr(Arith(op, l, r))|)
  {
    ArgumentEncoded(code, ip, Arith(op, l, r), env);
    ComputeResults(op, ExprValue(l, env).n, ExprValue(r, env).n);
    hide At, Argument, EncodeExpr, Results, Compute;
  }

  // One argument position by its words: a nested operation, a variable or a number; an
  // operand of another type is zero, and nothing else may stand there.
  lemma ArgumentMeans(code: Bytes, ip: nat, env: Env)
    requires ip + 8 <= |code|
    ensures var kind, tag, r := WordAt(code, ip), WordAt(code, ip + 2), Argument(code, ip, env);
            if kind == 0x10 then r == EvalExpr(code, ip + 4, tag, env)
            else if kind != 0x20 then r == Stop(SEMANTIC_ERROR)
            else if tag == 0 then
              if code[ip + 4] < 8 then r == Ok(env[code[ip + 4]], ip + 8) else r == Beyond
            else r == Ok(if tag == 2 then LongAt(code, ip + 4) else 0, ip + 8)
  {
    hide WordAt, LongAt, EvalExpr;
  }

  // One condition position, and the start of the code.
  lemma ConditionMeans(code: Bytes, ip: nat, env: Env)
    requires ip + 4 <= |code|
    ensures SubCondition(code, ip, env) ==
            if WordAt(code, ip) == 0x40 then EvalLogic(code, ip + 4, WordAt(code, ip + 2), env)
            else Stop(SEMANTIC_ERROR)
    ensures Execute(code, env) ==
            if WordAt(code, 0) == 0x40 then EvalLogic(code, 4, WordAt(code, 2), env) else Stop(EXECUTION_ERROR)
  {
    hide WordAt, EvalLogic;
  }
}
