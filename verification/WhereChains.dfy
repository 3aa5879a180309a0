// What any WHERE clause does when it runs, chains of operators included.
module WhereChains {
  import opened Common
  import opened Lvm
  import opened LvmCode
  import opened Where

  // The part of a side that stays together: its first operator with both operands.
  function HeadTree(s: Side): Expr {
    if s.rest == [] then Leaf(s.first) else Arith(s.rest[0].op, Leaf(s.first), Leaf(s.rest[0].operand))
  }

  // The further operators, each with only the operand behind it.
  function Loose(s: Side): seq<Term> {
    if s.rest == [] then [] else s.rest[1..]
  }

  function LooseCode(ts: seq<Term>): (b: Bytes)
    ensures |b| == 12 * |ts|
  {
    if ts == [] then [] else ArithHeader(ts[0].op) + LeafCode(ts[0].operand) + LooseCode(ts[1..])
  }

  // Loose operators take whatever comes behind them as their other operand.
  function Nest(ts: seq<Term>, e: Expr): Expr {
    if ts == [] then e else Arith(ts[0].op, Leaf(ts[0].operand), Nest(ts[1..], e))
  }

  // The comparison that is executed: loose operators of the left side act on the right
  // side, and those of the right side are left over.
  function CompiledTree(c: Comparison): Cond {
    Cmp(c.rel, HeadTree(c.left), Nest(Loose(c.left), HeadTree(c.right)))
  }

  lemma {:induction false} LooseSnoc(ts: seq<Term>, t: Term)
    ensures LooseCode(ts + [t]) == LooseCode(ts) + ArithHeader(t.op) + LeafCode(t.operand)
  {
    hide ArithHeader, LeafCode;
    if ts == [] {
      assert LooseCode([t]) == ArithHeader(t.op) + LeafCode(t.operand) + LooseCode([t][1..]);
    } else {
      assert (ts + [t])[1..] == ts[1..] + [t];
      LooseSnoc(ts[1..], t);
    }
  }

  lemma {:induction false} SideSplits(first: Operand, rest: seq<Term>)
    ensures var s := Side(first, rest);
            SideCode(first, rest) == EncodeExpr(HeadTree(s)) + LooseCode(Loose(s))
  {
    hide ArithHeader, OperandBytes, Word;
    var n := |rest|;
    if n >= 2 {
      var last := rest[n - 1];
      SideSplits(first, rest[..n - 1]);
      assert rest[..n - 1][0] == rest[0];
      assert rest[1..] == rest[..n - 1][1..] + [last];
      LooseSnoc(rest[..n - 1][1..], last);
    }
  }

  lemma {:induction false} NestEncoded(ts: seq<Term>, e: Expr)
    ensures EncodeExpr(Nest(ts, e)) == LooseCode(ts) + EncodeExpr(e)
  {
    hide ArithHeader, OperandBytes, Word;
    if ts != [] {
      NestEncoded(ts[1..], e);
    }
  }

  // Every comparison compiles to the encoding of that tree and what is left over.
  lemma ComparisonCompilesTo(c: Comparison)
    ensures CmpCode(c) == EncodeCond(CompiledTree(c)) + LooseCode(Loose(c.right))
  {
    SideSplits(c.left.first, c.left.rest);
    SideSplits(c.right.first, c.right.rest);
    NestEncoded(Loose(c.left), HeadTree(c.right));
    hide CmpHeader, EncodeExpr, LooseCode, HeadTree, Nest, SideCode;
    Regroup4(CmpHeader(RelCode(c.rel)), EncodeExpr(HeadTree(c.left)), LooseCode(Loose(c.left)),
             EncodeExpr(HeadTree(c.right)), LooseCode(Loose(c.right)));
  }

  lemma Regroup4(h: Bytes, a: Bytes, b: Bytes, c: Bytes, d: Bytes)
    ensures h + (a + b) + (c + d) == h + a + (b + c) + d
  {
  }

  // ----- what runs -----

  // A clause fails at the first comparison that fails or, unless it is the last one, has
  // something left over, because the next comparison is not where it is looked for.
  function Outcome(first: Comparison, rest: seq<Link>, env: Env): (status: int)
    requires CompiledInScope(first, rest)
    ensures status == TRUE || status == FALSE || IsError(status)
    decreases |rest|
  {
    var a := CondValue(CompiledTree(first), env);
    if rest == [] || IsError(a) then a
    else if Loose(first.right) != [] then SEMANTIC_ERROR
    else
      var b := Outcome(rest[0].comparison, rest[1..], env);
      if IsError(b) then b
      else if rest[0].connective.Conjunction? then Bool(a == TRUE && b == TRUE)
      else Bool(a == TRUE || b == TRUE)
  }

  predicate CompiledInScope(first: Comparison, rest: seq<Link>) {
    InScope(CompiledTree(first)) && forall i :: 0 <= i < |rest| ==> InScope(CompiledTree(rest[i].comparison))
  }

  lemma {:induction false} SideScope(first: Operand, rest: seq<Term>)
    ensures ExprInScope(SideTree(first, rest)) <==>
            OperandInScope(first) && forall i :: 0 <= i < |rest| ==> OperandInScope(rest[i].operand)
  {
    hide OperandInScope;
    var n := |rest|;
    if n > 0 {
      SideScope(first, rest[..n - 1]);
      assert forall i :: 0 <= i < n - 1 ==> rest[..n - 1][i] == rest[i];
    }
  }

  lemma {:induction false} NestScope(ts: seq<Term>, e: Expr)
    requires ExprInScope(e) && forall i :: 0 <= i < |ts| ==> OperandInScope(ts[i].operand)
    ensures ExprInScope(Nest(ts, e))
  {
    hide OperandInScope;
    if ts != [] {
      NestScope(ts[1..], e);
    }
  }

  lemma CompiledScope(c: Comparison)
    requires InScope(CmpTree(c))
    ensures InScope(CompiledTree(c))
  {
    SideScope(c.left.first, c.left.rest);
    SideScope(c.right.first, c.right.rest);
    NestScope(Loose(c.left), HeadTree(c.right));
  }

  // Where the code that is executed ends.
  function RunLength(first: Comparison, rest: seq<Link>): nat
    decreases |rest|
  {
    if rest == [] then |EncodeCond(CompiledTree(first))|
    else OP_SPACE + |CmpCode(first)| + RunLength(rest[0].comparison, rest[1..])
  }

  lemma FailedFirst(code: Bytes, ip: nat, op: u16, a: int, env: Env)
    requires ip + 4 <= |code| && WordAt(code, ip) == LVM_CMP_OP && WordAt(code, ip + 2) == op &&
             (op == LVM_AND || op == LVM_OR)
    requires SubCondition(code, ip + 4, env) == Stop(a)
    ensures SubCondition(code, ip, env) == Stop(a)
  {
    assert SubCondition(code, ip, env) == EvalLogic(code, ip + 4, op, env);
  }

  lemma LooseStops(code: Bytes, ip: nat, ts: seq<Term>, env: Env)
    requires ts != [] && At(code, ip, LooseCode(ts))
    ensures SubCondition(code, ip, env) == Stop(SEMANTIC_ERROR)
  {
    hide At, Word, WordAt, LeafCode, ArithCode;
    PartsAt(code, ip, LVM_ARITH_OP, ArithCode(ts[0].op), LeafCode(ts[0].operand), LooseCode(ts[1..]));
  }

  // The comparison at ip: its value, where reading goes on, and what stands there.
  lemma ComparisonRuns(code: Bytes, ip: nat, c: Comparison, env: Env)
    requires InScope(CompiledTree(c)) && At(code, ip, CmpCode(c))
    ensures var next := ip + |EncodeCond(CompiledTree(c))|;
            && SubCondition(code, ip, env) == ExecStatus(CondValue(CompiledTree(c), env), next)
            && (if Loose(c.right) == [] then next == ip + |CmpCode(c)|
                else SubCondition(code, next, env) == Stop(SEMANTIC_ERROR))
  {
    hide At, SubCondition, EncodeCond, CompiledTree, CmpCode;
    ComparisonCompilesTo(c);
    AtConcat(code, ip, EncodeCond(CompiledTree(c)), LooseCode(Loose(c.right)));
    SubConditionEncoded(code, ip, CompiledTree(c), env);
    if Loose(c.right) != [] {
      LooseStops(code, ip + |EncodeCond(CompiledTree(c))|, Loose(c.right), env);
    }
  }

  lemma {:induction false} ClauseRuns(code: Bytes, ip: nat, first: Comparison, rest: seq<Link>, env: Env)
    requires CompiledInScope(first, rest) && At(code, ip, WhereCode(first, rest))
    ensures SubCondition(code, ip, env) == ExecStatus(Outcome(first, rest, env), ip + RunLength(first, rest))
    decreases |rest|
  {
    hide At, SubCondition, EncodeCond, CompiledTree, CmpCode, Word, WordAt, Loose;
    if rest == [] {
      ComparisonRuns(code, ip, first, env);
    } else {
      var op, tail := ConnectiveCode(rest[0].connective), WhereCode(rest[0].comparison, rest[1..]);
      var a, x := CondValue(CompiledTree(first), env), CmpCode(first);
      PartsAt(code, ip, LVM_CMP_OP, op, x, tail);
      ComparisonRuns(code, ip + 4, first, env);
      if IsError(a) {
        FailedFirst(code, ip, op, a, env);
      } else if Loose(first.right) != [] {
        ConnectiveStep(code, ip, op, EncodeCond(CompiledTree(first)), [], a, SEMANTIC_ERROR, env);
      } else {
        ClauseRuns(code, ip + 4 + |x|, rest[0].comparison, rest[1..], env);
        var run := RunLength(rest[0].comparison, rest[1..]);
        ConnectiveStep(code, ip, op, x, seq(run, i => 0), a, Outcome(rest[0].comparison, rest[1..], env), env);
      }
    }
  }

  // Running any compiled clause.
  lemma ClauseExecutes(first: Comparison, rest: seq<Link>, env: Env)
    requires AllInScope(first, rest)
    ensures CompiledInScope(first, rest)
    ensures Execute(WhereCode(first, rest), env) == ExecStatus(Outcome(first, rest, env), RunLength(first, rest))
  {
    ClauseScope(first, rest);
    StartsWithHeader(first, rest);
    hide *;
    var code := WhereCode(first, rest);
    StandsAtStart(code);
    StartsRunning(code, env);
    ClauseRuns(code, 0, first, rest, env);
  }

  lemma StandsAtStart(code: Bytes)
    ensures At(code, 0, code)
  {
  }

  lemma StartsRunning(code: Bytes, env: Env)
    requires |code| >= 4 && WordAt(code, 0) == LVM_CMP_OP
    ensures Execute(code, env) == SubCondition(code, 0, env)
  {
    hide EvalLogic, WordAt;
  }

  lemma ClauseScope(first: Comparison, rest: seq<Link>)
    requires AllInScope(first, rest)
    ensures CompiledInScope(first, rest)
  {
    hide CmpTree, CompiledTree;
    CompiledScope(first);
    forall i | 0 <= i < |rest|
      ensures InScope(CompiledTree(rest[i].comparison))
    {
      CompiledScope(rest[i].comparison);
    }
  }

  lemma StartsWithHeader(first: Comparison, rest: seq<Link>)
    ensures |WhereCode(first, rest)| >= 4 && WordAt(WhereCode(first, rest), 0) == LVM_CMP_OP
  {
  }

  // A clause fails exactly when one of its comparisons divides by zero or, in front of a
  // connective, has more than one operator on its right side.
  lemma {:induction false} FailsIff(first: Comparison, rest: seq<Link>, env: Env)
    requires CompiledInScope(first, rest)
    ensures IsError(Outcome(first, rest, env)) <==>
            exists i :: 0 <= i <= |rest| && FailsAt(first, rest, env, i)
    decreases |rest|
  {
    hide CompiledTree, Loose;
    if rest == [] {
      assert IsError(Outcome(first, rest, env)) <==> FailsAt(first, rest, env, 0);
    } else {
      FailsIff(rest[0].comparison, rest[1..], env);
      forall i | 0 <= i < |rest|
        ensures FailsAt(rest[0].comparison, rest[1..], env, i) == FailsAt(first, rest, env, i + 1)
      {
      }
      if i :| 0 <= i < |rest| && FailsAt(rest[0].comparison, rest[1..], env, i) {
        assert FailsAt(first, rest, env, i + 1);
      }
      if i :| 0 <= i <= |rest| && FailsAt(first, rest, env, i) {
        assert i > 0 ==> FailsAt(rest[0].comparison, rest[1..], env, i - 1);
      }
      assert IsError(CondValue(CompiledTree(first), env)) || Loose(first.right) != [] <==>
             FailsAt(first, rest, env, 0);
    }
  }

  predicate FailsAt(first: Comparison, rest: seq<Link>, env: Env, i: nat)
    requires CompiledInScope(first, rest) && i <= |rest|
  {
    || IsError(CondValue(CompiledTree(Nth(first, rest, i)), env))
    || (i < |rest| && Loose(Nth(first, rest, i).right) != [])
  }

  // ----- comparisons without operator chains -----

  // What a side with at most one operator comes to.
  ghost predicate SideResult(s: Side, env: Env, v: Value) {
    && OperandInScope(s.first)
    && if s.rest == [] then v == Number(OperandValue(s.first, env))
       else |s.rest| == 1 && OperandInScope(s.rest[0].operand) &&
            Results(s.rest[0].op, OperandValue(s.first, env), OperandValue(s.rest[0].operand, env), v)
  }

  lemma HeadResult(s: Side, env: Env)
    requires SimpleSide(s) && ExprInScope(HeadTree(s))
    ensures SideResult(s, env, ExprValue(HeadTree(s), env))
  {
    if s.rest != [] {
      ComputeResults(s.rest[0].op, OperandValue(s.first, env), OperandValue(s.rest[0].operand, env));
    }
    hide Compute, Results;
  }

  // A comparison of the results of both sides, the left one first.
  ghost predicate ComparesSides(c: Comparison, env: Env, status: int) {
    exists l: Value, r: Value ::
      && SideResult(c.left, env, l) && SideResult(c.right, env, r)
      && status == if l.Fault? then l.status else if r.Fault? then r.status
                   else if Lvm.Holds(c.rel, l.n, r.n) then TRUE else FALSE
  }

  // Such a comparison gives that, and the pointer ends behind its code.
  lemma SimpleComparisonRuns(c: Comparison, env: Env)
    requires SimpleCmp(c) && InScope(CmpTree(c))
    ensures exists status ::
              ComparesSides(c, env, status) && Execute(CmpCode(c), env) == ExecStatus(status, |CmpCode(c)|)
  {
    CompiledScope(c);
    SimpleValue(c, env);
    SimpleRuns(c, env);
    hide *;
  }

  lemma SimpleRuns(c: Comparison, env: Env)
    requires SimpleCmp(c) && InScope(CompiledTree(c))
    ensures Execute(CmpCode(c), env) == ExecStatus(CondValue(CompiledTree(c), env), |CmpCode(c)|)
  {
    NothingLoose(c);
    ComparisonCompilesTo(c);
    hide *;
    var code := EncodeCond(CompiledTree(c));
    assert code + [] == code;
    ExecuteEncoded(CompiledTree(c), [], env);
  }

  lemma SimpleValue(c: Comparison, env: Env)
    requires SimpleCmp(c) && InScope(CompiledTree(c))
    ensures ComparesSides(c, env, CondValue(CompiledTree(c), env))
  {
    NothingLoose(c);
    hide SideResult, HeadTree, ExprValue, CompiledTree, Lvm.Holds;
    HeadResult(c.left, env);
    HeadResult(c.right, env);
  }

  lemma NothingLoose(c: Comparison)
    requires SimpleCmp(c)
    ensures CompiledTree(c) == Cmp(c.rel, HeadTree(c.left), HeadTree(c.right)) && LooseCode(Loose(c.right)) == []
  {
  }
}
