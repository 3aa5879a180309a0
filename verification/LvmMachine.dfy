// The LogicVM as the program keeps it: a code buffer with an emission end and an
// instruction pointer, the variable table and the derived ranges.
module LvmMachine {
  import opened Common
  import opened Lvm
  import opened LvmCode

  lemma Regroup(was: Bytes, header: Bytes, x: Bytes, y: Bytes)
    ensures was + header + x + y == was + (header + x + y)
    ensures y == [] ==> was + header + x == was + (header + x)
  {
  }

  class Machine {
    const code: array<u8>
    var end: nat
    var ip: nat
    var error: bool
    const variables: array<long>
    var derivations: Ranges

    ghost predicate Valid()
      reads this
    {
      variables.Length == MAX_VARIABLE_ID && end <= code.Length
    }

    ghost function Values(): Env
      requires variables.Length == MAX_VARIABLE_ID
      reads variables
    {
      variables[..]
    }

    // lvm_reset.
    constructor (size: nat)
      ensures Valid() && fresh(code) && fresh(variables)
      ensures code.Length == size && end == 0 && ip == 0 && !error
      ensures derivations == NoRanges() && Values() == seq(MAX_VARIABLE_ID, i => 0)
    {
      code := new u8[size](i => 0);
      variables := new long[MAX_VARIABLE_ID](i => 0);
      end, ip, error := 0, 0, false;
      derivations := NoRanges();
      new;
      assert variables[..] == seq(MAX_VARIABLE_ID, i => 0);
    }

    method SetVariableValue(id: u8, value: long)
      requires Valid() && id < MAX_VARIABLE_ID
      modifies variables
      ensures Values() == old(Values())[id := value]
    {
      variables[id] := value;
    }

    // ----- execution -----

    // get_type and get_operator.
    method GetWord() returns (w: u16)
      requires ip + 2 <= code.Length
      modifies this`ip
      ensures w == WordAt(code[..], old(ip)) && ip == old(ip) + 2
    {
      w := WordOf(code[ip], code[ip + 1]);
      ip := ip + 2;
    }

    // get_operand and operand_to_long.
    method GetOperand() returns (value: long)
      requires Valid() && ip + OPERAND_SIZE <= code.Length && OperandAt(code[..], ip, Values()).Ok?
      modifies this`ip
      ensures OperandAt(code[..], old(ip), Values()) == Ok(value, ip)
    {
      ghost var start := ip;
      var tag := GetWord();
      if tag == 2 {
        value := LongOf(WordOf(code[ip], code[ip + 1]), WordOf(code[ip + 2], code[ip + 3]));
        assert value == LongAt(code[..], start + 2);
      } else if tag == 0 {
        value := variables[code[ip]];
      } else {
        value := 0;
      }
      ip := ip + 4;
    }

    // One turn of the operand loops of eval_expr and eval_logic.
    method GetArgument() returns (status: int, value: long)
      requires Valid() && !Argument(code[..], ip, Values()).Beyond?
      modifies this`ip
      ensures Argument(code[..], old(ip), Values()) == if IsError(status) then Stop(status) else Ok(value, ip)
      decreases code.Length - ip, 0
    {
      status, value := TRUE, 0;
      var kind := GetWord();
      if kind == LVM_ARITH_OP {
        var op := GetWord();
        status, value := EvaluateExpr(op);
      } else if kind == LVM_OPERAND {
        value := GetOperand();
      } else {
        status := SEMANTIC_ERROR;
      }
    }

    method EvaluateExpr(op: u16) returns (status: int, value: long)
      requires Valid() && !EvalExpr(code[..], ip, op, Values()).Beyond?
      modifies this`ip
      ensures EvalExpr(code[..], old(ip), op, Values()) == if IsError(status) then Stop(status) else Ok(value, ip)
      ensures ExprEvaluated(code[..], old(ip), op, Values(), if IsError(status) then Stop(status) else Ok(value, ip))
      decreases code.Length - ip, 1
    {
      EvalExprMeans(code[..], ip, op, Values());
      hide ExprEvaluated, Arithmetic;
      value := 0;
      var a, b;
      status, a := GetArgument();
      if IsError(status) {
        return;
      }
      status, b := GetArgument();
      if IsError(status) {
        return;
      }
      status, value := ComputeArithmetic(op, a, b);
    }

    static method ComputeArithmetic(op: u16, a: long, b: long) returns (status: int, value: long)
      ensures Arithmetic(op, a, b) == if IsError(status) then Fault(status) else Number(value)
    {
      var x: int, y: int := a, b;
      status, value := TRUE, 0;
      if op == ArithCode(Add) {
        value := Wrap(x + y);
      } else if op == ArithCode(Sub) {
        value := Wrap(x - y);
      } else if op == ArithCode(Mul) {
        value := Wrap(x * y);
      } else if op == ArithCode(Div) {
        if y == 0 {
          status := MATH_ERROR;
        } else {
          value := Wrap(Quotient(x, y));
        }
      } else {
        status := EXECUTION_ERROR;
      }
    }

    // One turn of the argument loop for connectives.
    method GetCondition() returns (status: int)
      requires Valid() && !SubCondition(code[..], ip, Values()).Beyond?
      modifies this`ip
      ensures SubCondition(code[..], old(ip), Values()) == if IsError(status) then Stop(status) else Ok(status, ip)
      decreases code.Length - ip, 0
    {
      var kind := GetWord();
      if kind != LVM_CMP_OP {
        return SEMANTIC_ERROR;
      }
      var op := GetWord();
      status := EvaluateLogic(op);
    }

    method EvaluateLogic(op: u16) returns (status: int)
      requires Valid() && !EvalLogic(code[..], ip, op, Values()).Beyond?
      modifies this`ip
      ensures EvalLogic(code[..], old(ip), op, Values()) == if IsError(status) then Stop(status) else Ok(status, ip)
      ensures LogicEvaluated(code[..], old(ip), op, Values(), if IsError(status) then Stop(status) else Ok(status, ip))
      decreases code.Length - ip, 1
    {
      EvalLogicMeans(code[..], ip, op, Values());
      hide LogicEvaluated;
      if IsConnective(op) {
        var first := GetCondition();
        if IsError(first) {
          return first;
        }
        if op == LVM_NOT {
          return Bool(first == FALSE);
        }
        var second := GetCondition();
        if IsError(second) {
          return second;
        }
        if op == LVM_AND {
          return Bool(first == TRUE && second == TRUE);
        }
        return Bool(first == TRUE || second == TRUE);
      }
      var a, b;
      status, a := GetArgument();
      if IsError(status) {
        return;
      }
      status, b := GetArgument();
      if IsError(status) {
        return;
      }
      status := LvmCode.Compare(op, a, b);
    }

    method Execute() returns (status: int)
      requires Valid() && !LvmCode.Execute(code[..], Values()).Beyond?
      modifies this`ip
      ensures LvmCode.Execute(code[..], Values()) == if IsError(status) then Stop(status) else Ok(status, ip)
    {
      ip := 0;
      var kind := GetWord();
      if kind != LVM_CMP_OP {
        return EXECUTION_ERROR;
      }
      var op := GetWord();
      status := EvaluateLogic(op);
    }

    // ----- range derivation -----

    static method CreateIntersection(d1: Ranges, d2: Ranges) returns (r: Ranges)
      ensures r == Meets(d1, d2)
    {
      r := NoRanges();
      var i := 0;
      while i < MAX_VARIABLE_ID
        invariant 0 <= i <= MAX_VARIABLE_ID
        invariant forall k :: 0 <= k < i ==> r[k] == Meet(d1[k], d2[k])
        invariant forall k :: i <= k < MAX_VARIABLE_ID ==> r[k] == UNDERIVED
      {
        if d1[i].derived || d2[i].derived {
          var min, max;
          if !d2[i].derived {
            min, max := d1[i].min, d1[i].max;
          } else if !d1[i].derived {
            min, max := d2[i].min, d2[i].max;
          } else {
            min := if d1[i].min > d2[i].min then d1[i].min else d2[i].min;
            max := if d1[i].max < d2[i].max then d1[i].max else d2[i].max;
          }
          r := r[i := Range(true, min, max)];
        }
        i := i + 1;
      }
    }

    static method CreateUnion(d1: Ranges, d2: Ranges) returns (r: Ranges)
      ensures r == Joins(d1, d2)
    {
      r := NoRanges();
      var i := 0;
      while i < MAX_VARIABLE_ID
        invariant 0 <= i <= MAX_VARIABLE_ID
        invariant forall k :: 0 <= k < i ==> r[k] == Join(d1[k], d2[k])
        invariant forall k :: i <= k < MAX_VARIABLE_ID ==> r[k] == UNDERIVED
      {
        if d1[i].derived || d2[i].derived {
          var min, max;
          if !d2[i].derived {
            min, max := d1[i].min, d1[i].max;
          } else if !d1[i].derived {
            min, max := d2[i].min, d2[i].max;
          } else {
            min := if d1[i].min > d2[i].min then d2[i].min else d1[i].min;
            max := if d1[i].max < d2[i].max then d2[i].max else d1[i].max;
          }
          r := r[i := Range(true, min, max)];
        }
        i := i + 1;
      }
    }

    // derive_relation, writing into the ranges before.
    method DeriveRelation(before: Ranges) returns (ok: bool, after: Ranges)
      requires Valid() && !DeriveAt(code[..], ip).OutOfCode?
      modifies this`ip
      ensures var d := DeriveAt(code[..], old(ip));
              && ok == d.Derived?
              && (ok ==> ip == d.next)
              && after == Written(before, d, RefusedVariable(code[..], old(ip)))
      decreases code.Length - ip
    {
      after := before;
      hide Meets, Joins, DeriveComparison, PlainVariable, WordAt, Overlay;
      ghost var start := ip;
      var kind := GetWord();
      var op := GetWord();
      if !IsConnective(op) {
        ok, after := DeriveOneComparison(op, before);
        return;
      }
      if op != LVM_AND && op != LVM_OR {
        return false, before;
      }
      var ok1, d1 := DeriveRelation(NoRanges());
      if !ok1 {
        return false, before;
      }
      var ok2, d2 := DeriveRelation(NoRanges());
      if !ok2 {
        return false, before;
      }
      OverlaidSides(DeriveAt(code[..], start + 4).ranges,
                    DeriveAt(code[..], DeriveAt(code[..], start + 4).next).ranges);
      var both;
      if op == LVM_AND {
        both := CreateIntersection(d1, d2);
      } else {
        both := CreateUnion(d1, d2);
      }
      return true, Overlay(before, both);
    }

    method GetPlainOperand() returns (x: Option<Operand>)
      requires ip + 2 <= code.Length && (WordAt(code[..], ip) == LVM_OPERAND ==> ip + 8 <= code.Length)
      modifies this`ip
      ensures WordAt(code[..], old(ip)) != LVM_OPERAND ==> x.None?
      ensures WordAt(code[..], old(ip)) == LVM_OPERAND ==> ip == old(ip) + 8 && x == PlainOperand(code[..], old(ip))
    {
      hide WordOf, LongOf;
      ghost var start := ip;
      var kind := GetWord();
      if kind != LVM_OPERAND {
        return None;
      }
      var tag := GetWord();
      if tag == 0 {
        x := Some(Variable(code[ip]));
      } else {
        x := Some(Long(LongOf(WordOf(code[ip], code[ip + 1]), WordOf(code[ip + 2], code[ip + 3]))));
        assert x.value.l == LongAt(code[..], start + 4);
      }
      ip := ip + 4;
    }

    method DeriveOneComparison(op: u16, before: Ranges) returns (ok: bool, after: Ranges)
      requires Valid() && !DeriveComparison(code[..], ip, op).OutOfCode?
      modifies this`ip
      ensures var d := DeriveComparison(code[..], old(ip), op);
              && ok == d.Derived?
              && (ok ==> ip == d.next)
              && after == Written(before, d, PlainVariable(code[..], old(ip)))
    {
      after := before;
      var x := GetPlainOperand();
      if x.None? {
        return false, after;
      }
      var y := GetPlainOperand();
      if y.None? || (x.value.Variable? && y.value.Variable?) {
        return false, after;
      }
      var id, value;
      if x.value.Variable? {
        id, value := x.value.id, y.value.l;
      } else {
        id, value := IdOf(y.value), x.value.l;
      }
      if id >= MAX_VARIABLE_ID {
        return false, after;
      }
      ok, after := SetBounds(op, id, value, before);
    }

    // The bounds are set to all numbers first, whatever the operator.
    static method SetBounds(op: u16, id: u8, value: long, before: Ranges) returns (ok: bool, after: Ranges)
      requires id < MAX_VARIABLE_ID
      ensures ok == RelOf(op).Some?
      ensures after == if ok && RangeFor(RelOf(op).value, value).Some?
                       then before[id := RangeFor(RelOf(op).value, value).value]
                       else before[id := before[id].(min := LONG_MIN, max := LONG_MAX)]
      ensures ok ==> RangeFor(RelOf(op).value, value).Some?
    {
      after := before;
      after := after[id := after[id].(min := LONG_MIN, max := LONG_MAX)];
      if op == RelCode(Eq) {
        after := after[id := after[id].(min := value, max := value)];
      } else if op == RelCode(Ge) {
        after := after[id := after[id].(min := Wrap((value as int) + 1))];
      } else if op == RelCode(Geq) {
        after := after[id := after[id].(min := value)];
      } else if op == RelCode(Le) {
        after := after[id := after[id].(max := Wrap((value as int) - 1))];
      } else if op == RelCode(Leq) {
        after := after[id := after[id].(max := value)];
      } else {
        return false, after;
      }
      after := after[id := after[id].(derived := true)];
      return true, after;
    }

    // lvm_derive: what was derived earlier for other variables stays.
    method Derive() returns (ok: bool)
      requires Valid() && !DeriveAt(code[..], ip).OutOfCode?
      modifies this`ip, this`derivations
      ensures var d := DeriveAt(code[..], old(ip));
              && ok == d.Derived?
              && (ok ==> ip == d.next)
              && derivations == Written(old(derivations), d, RefusedVariable(code[..], old(ip)))
    {
      var after;
      ok, after := DeriveRelation(derivations);
      derivations := after;
    }

    // ----- emission -----

    method Put(b: Bytes)
      requires Valid() && end + |b| <= code.Length
      modifies this`end, code
      ensures Valid() && end == old(end) + |b|
      ensures code[..end] == old(code[..end]) + b && code[end..] == old(code[..])[end..]
    {
      var i := 0;
      while i < |b|
        invariant 0 <= i <= |b|
        invariant code[..end + i] == old(code[..end]) + b[..i]
        invariant code[end + i..] == old(code[..])[end + i..]
        modifies code
      {
        code[end + i] := b[i];
        i := i + 1;
      }
      end := end + |b|;
      assert b[..|b|] == b;
    }

    method SetOp(op: u16)
      requires Valid() && end + OP_SPACE <= code.Length
      modifies this`end, code
      ensures Valid() && end == old(end) + OP_SPACE
      ensures code[..end] == old(code[..end]) + (Word(LVM_ARITH_OP) + Word(op)) && code[end..] == old(code[..])[end..]
    {
      Put(Word(LVM_ARITH_OP) + Word(op));
    }

    method SetRelation(op: u16)
      requires Valid() && end + OP_SPACE <= code.Length
      modifies this`end, code
      ensures Valid() && end == old(end) + OP_SPACE
      ensures code[..end] == old(code[..end]) + CmpHeader(op) && code[end..] == old(code[..])[end..]
    {
      Put(CmpHeader(op));
    }

    // lvm_set_long and lvm_set_variable.
    method SetOperand(x: Operand)
      requires Valid() && end + TYPE_SIZE + OPERAND_SIZE <= code.Length
      modifies this`end, code
      ensures Valid() && end == old(end) + TYPE_SIZE + OPERAND_SIZE
      ensures code[..end] == old(code[..end]) + EncodeExpr(Leaf(x)) && code[end..] == old(code[..])[end..]
    {
      Put(Word(LVM_OPERAND) + OperandBytes(x));
    }

    // Emission in prefix order, as clients of the machine do it.
    method EmitExpr(e: Expr)
      requires Valid() && end + |EncodeExpr(e)| <= code.Length
      modifies this`end, code
      ensures Valid() && end == old(end) + |EncodeExpr(e)|
      ensures code[..end] == old(code[..end]) + EncodeExpr(e)
      decreases e
    {
      ghost var was := code[..end];
      match e {
        case Leaf(x) => SetOperand(x);
        case Arith(op, l, r) =>
          hide Word, ArithCode;
          SetOp(ArithCode(op));
          EmitExpr(l);
          EmitExpr(r);
          Regroup(was, ArithHeader(op), EncodeExpr(l), EncodeExpr(r));
      }
    }

    method EmitCond(c: Cond)
      requires Valid() && end + |EncodeCond(c)| <= code.Length
      modifies this`end, code
      ensures Valid() && end == old(end) + |EncodeCond(c)|
      ensures code[..end] == old(code[..end]) + EncodeCond(c)
      decreases c, 1
    {
      hide CmpHeader, RelCode;
      match c {
        case Cmp(rel, l, r) => EmitComparison(rel, l, r);
        case And(a, b) => EmitConnective(LVM_AND, a, b, c);
        case Or(a, b) => EmitConnective(LVM_OR, a, b, c);
        case Not(a) =>
          ghost var was := code[..end];
          SetRelation(LVM_NOT);
          EmitCond(a);
          Regroup(was, CmpHeader(LVM_NOT), EncodeCond(a), []);
      }
    }

    method EmitComparison(rel: Rel, l: Expr, r: Expr)
      requires Valid() && end + 4 + |EncodeExpr(l)| + |EncodeExpr(r)| <= code.Length
      modifies this`end, code
      ensures Valid() && end == old(end) + 4 + |EncodeExpr(l)| + |EncodeExpr(r)|
      ensures code[..end] == old(code[..end]) + (CmpHeader(RelCode(rel)) + EncodeExpr(l) + EncodeExpr(r))
    {
      hide CmpHeader, RelCode, EncodeExpr;
      ghost var was := code[..end];
      SetRelation(RelCode(rel));
      EmitExpr(l);
      EmitExpr(r);
      Regroup(was, CmpHeader(RelCode(rel)), EncodeExpr(l), EncodeExpr(r));
    }

    method EmitConnective(op: u16, a: Cond, b: Cond, ghost whole: Cond)
      requires whole == And(a, b) || whole == Or(a, b)
      requires Valid() && end + 4 + |EncodeCond(a)| + |EncodeCond(b)| <= code.Length
      modifies this`end, code
      ensures Valid() && end == old(end) + 4 + |EncodeCond(a)| + |EncodeCond(b)|
      ensures code[..end] == old(code[..end]) + (CmpHeader(op) + EncodeCond(a) + EncodeCond(b))
      decreases whole, 0
    {
      hide CmpHeader, EncodeCond;
      ghost var was := code[..end];
      SetRelation(op);
      EmitCond(a);
      EmitCond(b);
      Regroup(was, CmpHeader(op), EncodeCond(a), EncodeCond(b));
    }

    // Emitting a condition and running it yields the condition's value, and the
    // instruction pointer ends where the emission ended unless there was an error.
    method EmitAndExecute(c: Cond) returns (status: int)
      requires Valid() && end == 0 && |EncodeCond(c)| <= code.Length && InScope(c)
      modifies this`end, this`ip, code
      ensures status == CondValue(c, Values())
      ensures !IsError(status) ==> ip == end == |EncodeCond(c)|
    {
      EmitCond(c);
      assert code[..end] == EncodeCond(c);
      assert code[..] == EncodeCond(c) + code[end..];
      ExecuteEncoded(c, code[end..], Values());
      status := Execute();
    }
  }
}
