// WHERE clauses: what the parser leaves in the code buffer, and when that is
// the prefix encoding of the clause's condition tree.
module Where {
  import opened Common
  import opened Lvm
  import opened LvmCode

  // The parenthesis-free grammar of the parser, chains of operators included.
  datatype Term = Term(op: ArithOp, operand: Operand)
  datatype Side = Side(first: Operand, rest: seq<Term>)
  datatype Comparison = Comparison(left: Side, rel: Rel, right: Side)
  datatype Connective = Conjunction | Disjunction
  datatype Link = Link(connective: Connective, comparison: Comparison)
  datatype Clause = Clause(first: Comparison, rest: seq<Link>)

  function LeafCode(x: Operand): (b: Bytes)
    ensures |b| == 8
  {
    EncodeExpr(Leaf(x))
  }

  // Every operator is written in front of the last operand; only the first one
  // also has the first operand behind it.
  function SideCode(first: Operand, rest: seq<Term>): (b: Bytes)
    ensures |b| == 8 + 12 * |rest|
  {
    if rest == [] then LeafCode(first)
    else
      var last := rest[|rest| - 1];
      if |rest| == 1 then ArithHeader(last.op) + LeafCode(first) + LeafCode(last.operand)
      else SideCode(first, rest[..|rest| - 1]) + ArithHeader(last.op) + LeafCode(last.operand)
  }

  function CmpCode(c: Comparison): (b: Bytes)
    ensures |b| == 20 + 12 * |c.left.rest| + 12 * |c.right.rest|
  {
    CmpHeader(RelCode(c.rel)) + SideCode(c.left.first, c.left.rest) + SideCode(c.right.first, c.right.rest)
  }

  function ConnectiveCode(k: Connective): u16 {
    if k.Conjunction? then LVM_AND else LVM_OR
  }

  function WhereCode(first: Comparison, rest: seq<Link>): Bytes
    decreases |rest|
  {
    if rest == [] then CmpCode(first)
    else CmpHeader(ConnectiveCode(rest[0].connective)) + CmpCode(first) + WhereCode(rest[0].comparison, rest[1..])
  }

  // ----- the trees the clause stands for -----

  // Arithmetic is read from left to right.
  function SideTree(first: Operand, rest: seq<Term>): Expr {
    if rest == [] then Leaf(first)
    else Arith(rest[|rest| - 1].op, SideTree(first, rest[..|rest| - 1]), Leaf(rest[|rest| - 1].operand))
  }

  function CmpTree(c: Comparison): Cond {
    Cmp(c.rel, SideTree(c.left.first, c.left.rest), SideTree(c.right.first, c.right.rest))
  }

  // Connectives nest to the right, whichever they are.
  function ClauseTree(first: Comparison, rest: seq<Link>): Cond
    decreases |rest|
  {
    if rest == [] then CmpTree(first)
    else
      var tail := ClauseTree(rest[0].comparison, rest[1..]);
      if rest[0].connective.Conjunction? then And(CmpTree(first), tail) else Or(CmpTree(first), tail)
  }

  predicate SimpleSide(s: Side) {
    |s.rest| <= 1
  }

  predicate SimpleCmp(c: Comparison) {
    SimpleSide(c.left) && SimpleSide(c.right)
  }

  predicate SimpleClause(first: Comparison, rest: seq<Link>) {
    SimpleCmp(first) && forall i :: 0 <= i < |rest| ==> SimpleCmp(rest[i].comparison)
  }

  lemma {:induction false} SideTreeLength(first: Operand, rest: seq<Term>)
    ensures |EncodeExpr(SideTree(first, rest))| == 8 + 12 * |rest|
  {
    if rest != [] {
      SideTreeLength(first, rest[..|rest| - 1]);
    }
  }

  lemma FirstBytes(x: Operand, op: ArithOp)
    ensures LeafCode(x)[0] == LVM_OPERAND && ArithHeader(op)[0] == LVM_ARITH_OP
  {
  }

  // The second node of the emitted code is an operand as soon as there is an operator.
  lemma {:induction false} SecondNode(first: Operand, rest: seq<Term>)
    requires |rest| > 0
    ensures SideCode(first, rest)[4] == LVM_OPERAND
  {
    hide LeafCode, ArithHeader;
    var last := rest[|rest| - 1];
    FirstBytes(first, last.op);
    if |rest| > 1 {
      SecondNode(first, rest[..|rest| - 1]);
    } else {
      assert SideCode(first, rest) == ArithHeader(last.op) + (LeafCode(first) + LeafCode(last.operand));
    }
  }

  // One side of a comparison compiles to its expression exactly when it has at
  // most one operator.
  lemma SideCodeIff(s: Side)
    ensures SideCode(s.first, s.rest) == EncodeExpr(SideTree(s.first, s.rest)) <==> SimpleSide(s)
  {
    hide ArithHeader, OperandBytes, Word;
    var n := |s.rest|;
    if n == 1 {
      assert s.rest[..0] == [];
    } else if n >= 2 {
      var last, inner := s.rest[n - 1], s.rest[..n - 1];
      SecondNode(s.first, s.rest);
      FirstBytes(s.first, inner[n - 2].op);
      var code := EncodeExpr(SideTree(s.first, s.rest));
      assert code == ArithHeader(last.op) + (EncodeExpr(SideTree(s.first, inner)) + LeafCode(last.operand));
      assert code[4] == EncodeExpr(SideTree(s.first, inner))[0] == ArithHeader(inner[n - 2].op)[0];
    }
  }

  lemma SplitEqual(a: Bytes, b: Bytes, x: Bytes, y: Bytes)
    requires |a| == |x|
    ensures a + b == x + y <==> a == x && b == y
  {
    if a + b == x + y {
      assert a == (a + b)[..|a|] && x == (x + y)[..|x|];
      assert b == (a + b)[|a|..] && y == (x + y)[|x|..];
    }
  }

  lemma CmpCodeIff(c: Comparison)
    ensures |EncodeCond(CmpTree(c))| == |CmpCode(c)|
    ensures CmpCode(c) == EncodeCond(CmpTree(c)) <==> SimpleCmp(c)
  {
    var header := CmpHeader(RelCode(c.rel));
    var l, r := SideCode(c.left.first, c.left.rest), SideCode(c.right.first, c.right.rest);
    var x, y := EncodeExpr(SideTree(c.left.first, c.left.rest)), EncodeExpr(SideTree(c.right.first, c.right.rest));
    SideTreeLength(c.left.first, c.left.rest);
    SideTreeLength(c.right.first, c.right.rest);
    SideCodeIff(c.left);
    SideCodeIff(c.right);
    SplitEqual(header + l, r, header + x, y);
    SplitEqual(header, l, header, x);
  }

  // The code of a clause is the prefix encoding of its right-nested tree exactly
  // when no side of a comparison chains operators.
  lemma {:induction false} WhereCodeIff(first: Comparison, rest: seq<Link>)
    ensures |EncodeCond(ClauseTree(first, rest))| == |WhereCode(first, rest)|
    ensures WhereCode(first, rest) == EncodeCond(ClauseTree(first, rest)) <==> SimpleClause(first, rest)
    decreases |rest|
  {
    hide CmpCode, CmpTree, CmpHeader, SimpleCmp;
    CmpCodeIff(first);
    if rest != [] {
      var header := CmpHeader(ConnectiveCode(rest[0].connective));
      WhereCodeIff(rest[0].comparison, rest[1..]);
      SplitEqual(header + CmpCode(first), WhereCode(rest[0].comparison, rest[1..]),
                 header + EncodeCond(CmpTree(first)), EncodeCond(ClauseTree(rest[0].comparison, rest[1..])));
      SplitEqual(header, CmpCode(first), header, EncodeCond(CmpTree(first)));
      assert SimpleClause(first, rest) <==> SimpleCmp(first) && SimpleClause(rest[0].comparison, rest[1..]) by {
        if SimpleCmp(first) && SimpleClause(rest[0].comparison, rest[1..]) {
          assert forall i :: 1 <= i < |rest| ==> rest[i] == rest[1..][i - 1];
        }
        if SimpleClause(first, rest) {
          assert forall i :: 0 <= i < |rest[1..]| ==> rest[1..][i] == rest[i + 1];
        }
      }
    }
  }

  // Running a compiled clause without operator chains yields the value of its tree.
  lemma WhereExecutes(first: Comparison, rest: seq<Link>, env: Env)
    requires SimpleClause(first, rest) && InScope(ClauseTree(first, rest))
    ensures Execute(WhereCode(first, rest), env) ==
            ExecStatus(CondValue(ClauseTree(first, rest), env), |WhereCode(first, rest)|)
  {
    WhereCodeIff(first, rest);
    ExecuteEncoded(ClauseTree(first, rest), [], env);
    assert EncodeCond(ClauseTree(first, rest)) + [] == WhereCode(first, rest);
  }

  // ----- the usual reading, in which AND binds tighter -----

  // The number of conjunctions the links begin with.
  function AndRun(links: seq<Link>): (k: nat)
    ensures k <= |links|
    ensures forall i :: 0 <= i < k ==> links[i].connective.Conjunction?
    ensures k < |links| ==> links[k].connective.Disjunction?
  {
    if links == [] || links[0].connective.Disjunction? then 0 else 1 + AndRun(links[1..])
  }

  // A disjunction of conjunctions, each nested to the right.
  function PrecedenceTree(first: Comparison, rest: seq<Link>): Cond
    decreases |rest|
  {
    var k := AndRun(rest);
    if k == |rest| then ClauseTree(first, rest)
    else Or(ClauseTree(first, rest[..k]), PrecedenceTree(rest[k].comparison, rest[k + 1..]))
  }

  // No conjunction has a disjunction behind it.
  predicate OrsFirst(links: seq<Link>) {
    forall i, j :: 0 <= i < j < |links| && links[j].connective.Disjunction? ==> links[i].connective.Disjunction?
  }

  lemma OrsFirstStep(links: seq<Link>)
    requires links != []
    ensures links[0].connective.Disjunction? ==> (OrsFirst(links) <==> OrsFirst(links[1..]))
    ensures links[0].connective.Conjunction? ==> (OrsFirst(links) <==> AndRun(links) == |links|)
  {
    if links[0].connective.Disjunction? && OrsFirst(links[1..]) {
      forall i, j | 0 <= i < j < |links| && links[j].connective.Disjunction?
        ensures links[i].connective.Disjunction?
      {
        assert links[j] == links[1..][j - 1];
        if i > 0 {
          assert links[i] == links[1..][i - 1];
        }
      }
    }
  }

  // The clause is compiled to the usual tree exactly when no AND is followed by an OR.
  lemma {:induction false} PrecedenceTreeIff(first: Comparison, rest: seq<Link>)
    ensures ClauseTree(first, rest) == PrecedenceTree(first, rest) <==> OrsFirst(rest)
    decreases |rest|
  {
    hide CmpTree;
    if rest != [] {
      OrsFirstStep(rest);
      if rest[0].connective.Disjunction? {
        PrecedenceTreeIff(rest[0].comparison, rest[1..]);
        assert rest[..0] == [];
      }
    }
  }

  // The value of the clause, and of its usual reading, when its comparisons have
  // the truth values v.
  predicate Truth(links: seq<Link>, v: seq<bool>)
    requires |v| == |links| + 1
  {
    if links == [] then v[0]
    else if links[0].connective.Conjunction? then v[0] && Truth(links[1..], v[1..])
    else v[0] || Truth(links[1..], v[1..])
  }

  predicate PrecedenceTruth(links: seq<Link>, v: seq<bool>)
    requires |v| == |links| + 1
    decreases |links|
  {
    var k := AndRun(links);
    if k == |links| then Truth(links, v)
    else Truth(links[..k], v[..k + 1]) || PrecedenceTruth(links[k + 1..], v[k + 1..])
  }

  function Same(b: bool, n: nat): seq<bool> {
    seq(n, i => b)
  }

  lemma {:induction false} TrueThroughout(links: seq<Link>)
    ensures Truth(links, Same(true, |links| + 1))
    decreases |links|
  {
    if links != [] {
      assert Same(true, |links| + 1)[1..] == Same(true, |links|);
      TrueThroughout(links[1..]);
    }
  }

  lemma {:induction false} UsuallyTrueThroughout(links: seq<Link>)
    ensures PrecedenceTruth(links, Same(true, |links| + 1))
    decreases |links|
  {
    var k, v := AndRun(links), Same(true, |links| + 1);
    if k == |links| {
      TrueThroughout(links);
    } else {
      assert v[k + 1..] == Same(true, |links| - k);
      UsuallyTrueThroughout(links[k + 1..]);
    }
  }

  // Truth values for which the two readings differ.
  lemma {:induction false} ReadingsDiffer(links: seq<Link>) returns (v: seq<bool>)
    requires !OrsFirst(links)
    ensures |v| == |links| + 1 && Truth(links, v) != PrecedenceTruth(links, v)
    decreases |links|
  {
    OrsFirstStep(links);
    if links[0].connective.Disjunction? {
      var w := ReadingsDiffer(links[1..]);
      v := [false] + w;
      assert v[1..] == w && links[..0] == [] && v[..1] == [false];
    } else {
      var k := AndRun(links);
      v := [false] + Same(true, |links|);
      assert v[k + 1..] == Same(true, |links| - k);
      UsuallyTrueThroughout(links[k + 1..]);
    }
  }

  lemma {:induction false} ReadingsAgree(links: seq<Link>, v: seq<bool>)
    requires OrsFirst(links) && |v| == |links| + 1
    ensures Truth(links, v) == PrecedenceTruth(links, v)
    decreases |links|
  {
    if links != [] {
      OrsFirstStep(links);
      if links[0].connective.Disjunction? {
        ReadingsAgree(links[1..], v[1..]);
        assert links[..0] == [];
      }
    }
  }

  // The two readings agree, whatever the comparisons come to, for the same clauses.
  lemma PrecedenceTruthIff(links: seq<Link>)
    ensures (forall v: seq<bool> :: |v| == |links| + 1 ==> Truth(links, v) == PrecedenceTruth(links, v)) <==>
            OrsFirst(links)
  {
    if OrsFirst(links) {
      forall v: seq<bool> | |v| == |links| + 1
        ensures Truth(links, v) == PrecedenceTruth(links, v)
      {
        ReadingsAgree(links, v);
      }
    } else {
      var v := ReadingsDiffer(links);
    }
  }

  predicate AllInScope(first: Comparison, rest: seq<Link>) {
    InScope(CmpTree(first)) && forall i :: 0 <= i < |rest| ==> InScope(CmpTree(rest[i].comparison))
  }

  // What the comparisons come to, in order, and whether one of them fails.
  function Truths(first: Comparison, rest: seq<Link>, env: Env): (v: seq<bool>)
    requires AllInScope(first, rest)
    ensures |v| == |rest| + 1
    decreases |rest|
  {
    [CondValue(CmpTree(first), env) == TRUE] +
    if rest == [] then [] else Truths(rest[0].comparison, rest[1..], env)
  }

  predicate Fails(first: Comparison, rest: seq<Link>, env: Env)
    requires AllInScope(first, rest)
    decreases |rest|
  {
    || IsError(CondValue(CmpTree(first), env))
    || (rest != [] && Fails(rest[0].comparison, rest[1..], env))
  }

  lemma {:induction false} ClauseValue(first: Comparison, rest: seq<Link>, env: Env)
    requires AllInScope(first, rest)
    ensures InScope(ClauseTree(first, rest))
    ensures CondValue(ClauseTree(first, rest), env) ==
            if Fails(first, rest, env) then MATH_ERROR else Bool(Truth(rest, Truths(first, rest, env)))
    decreases |rest|
  {
    hide CmpTree;
    if rest != [] {
      ClauseValue(rest[0].comparison, rest[1..], env);
      assert Truths(first, rest, env)[1..] == Truths(rest[0].comparison, rest[1..], env);
    }
  }

  lemma ScopeOfParts(first: Comparison, rest: seq<Link>, k: nat)
    requires AllInScope(first, rest) && k < |rest|
    ensures AllInScope(first, rest[..k]) && AllInScope(rest[k].comparison, rest[k + 1..])
  {
    hide CmpTree;
  }

  // Splitting the clause in front of link k splits what its comparisons come to.
  lemma {:induction false} TruthsSplit(first: Comparison, rest: seq<Link>, env: Env, k: nat)
    requires AllInScope(first, rest) && k < |rest|
    ensures AllInScope(first, rest[..k]) && AllInScope(rest[k].comparison, rest[k + 1..])
    ensures Truths(first, rest, env) == Truths(first, rest[..k], env) + Truths(rest[k].comparison, rest[k + 1..], env)
    ensures Fails(first, rest, env) <==> Fails(first, rest[..k], env) || Fails(rest[k].comparison, rest[k + 1..], env)
    decreases k
  {
    hide AllInScope, CmpTree;
    ScopeOfParts(first, rest, k);
    ScopeOfParts(first, rest, 0);
    if k > 0 {
      TruthsSplit(rest[0].comparison, rest[1..], env, k - 1);
      assert rest[..k][1..] == rest[1..][..k - 1] && rest[1..][k..] == rest[k + 1..];
    }
  }

  lemma {:induction false} PrecedenceValue(first: Comparison, rest: seq<Link>, env: Env)
    requires AllInScope(first, rest)
    ensures InScope(PrecedenceTree(first, rest))
    ensures CondValue(PrecedenceTree(first, rest), env) ==
            if Fails(first, rest, env) then MATH_ERROR else Bool(PrecedenceTruth(rest, Truths(first, rest, env)))
    decreases |rest|
  {
    hide CmpTree;
    var k := AndRun(rest);
    if k == |rest| {
      ClauseValue(first, rest, env);
    } else {
      TruthsSplit(first, rest, env, k);
      ClauseValue(first, rest[..k], env);
      PrecedenceValue(rest[k].comparison, rest[k + 1..], env);
      var v := Truths(first, rest, env);
      assert v[..k + 1] == Truths(first, rest[..k], env);
      assert v[k + 1..] == Truths(rest[k].comparison, rest[k + 1..], env);
      hide AllInScope, Truth, Truths, Fails, ClauseTree;
    }
  }

  // The code in front of the last comparison after i connectives.
  function Head(first: Comparison, rest: seq<Link>, i: nat): Bytes
    requires i <= |rest|
  {
    if i == 0 then []
    else
      var header := CmpHeader(ConnectiveCode(rest[i - 1].connective));
      Head(first, rest, i - 1) + (header + CmpCode(Nth(first, rest, i - 1)))
  }

  function Nth(first: Comparison, rest: seq<Link>, i: nat): Comparison
    requires i <= |rest|
  {
    if i == 0 then first else rest[i - 1].comparison
  }

  // Inserting each connective in front of the last comparison builds the clause's code.
  lemma {:induction false} HeadsMakeWhereCode(first: Comparison, rest: seq<Link>, i: nat)
    requires i <= |rest|
    ensures Head(first, rest, i) + WhereCode(Nth(first, rest, i), rest[i..]) == WhereCode(first, rest)
  {
    hide CmpHeader, CmpCode;
    if i == 0 {
      assert rest[0..] == rest;
    } else {
      HeadsMakeWhereCode(first, rest, i - 1);
      assert rest[i - 1..][1..] == rest[i..];
      Regroup(Head(first, rest, i - 1), CmpHeader(ConnectiveCode(rest[i - 1].connective)),
              CmpCode(Nth(first, rest, i - 1)), WhereCode(Nth(first, rest, i), rest[i..]));
    }
  }

  lemma Regroup(a: Bytes, b: Bytes, c: Bytes, d: Bytes)
    ensures a + (b + c) + d == a + (b + c + d)
  {
  }

  lemma HeadsComplete(first: Comparison, rest: seq<Link>)
    ensures Head(first, rest, |rest|) + CmpCode(Nth(first, rest, |rest|)) == WhereCode(first, rest)
  {
    HeadsMakeWhereCode(first, rest, |rest|);
    assert rest[|rest|..] == [];
  }

  lemma {:induction false} HeadFits(first: Comparison, rest: seq<Link>, i: nat)
    requires i <= |rest|
    ensures |Head(first, rest, i)| + |CmpCode(Nth(first, rest, i))| <= |WhereCode(first, rest)|
    ensures i < |rest| ==>
              |Head(first, rest, i)| + |CmpCode(Nth(first, rest, i))| + OP_SPACE + |CmpCode(rest[i].comparison)|
              <= |WhereCode(first, rest)|
  {
    HeadsMakeWhereCode(first, rest, i);
    if i < |rest| {
      HeadsMakeWhereCode(first, rest, i + 1);
    }
  }
}

// The code-emitting parsers, which work in place on the machine's buffer.
module WhereParser {
  import opened Common
  import opened Lvm
  import opened LvmCode
  import opened LvmMachine
  import opened Where

  // lvm_jump_to_operand: leave room for a relation and go on behind it.
  method JumpToOperand(p: Machine) returns (oldEnd: nat)
    requires p.Valid()
    modifies p`end, p`error
    ensures p.Valid() && oldEnd == old(p.end)
    ensures if oldEnd + OP_SPACE < p.code.Length then p.end == oldEnd + OP_SPACE && p.error == old(p.error)
            else p.end == oldEnd && p.error
  {
    oldEnd := p.end;
    if oldEnd + OP_SPACE >= p.code.Length {
      p.error := true;
    } else {
      p.end := oldEnd + OP_SPACE;
    }
  }

  method SetEnd(p: Machine, end: nat) returns (oldEnd: nat)
    requires p.Valid()
    modifies p`end, p`error
    ensures p.Valid() && oldEnd == old(p.end)
    ensures if end < p.code.Length then p.end == end && p.error == old(p.error) else p.end == oldEnd && p.error
  {
    oldEnd := p.end;
    if end >= p.code.Length {
      p.error := true;
    } else {
      p.end := end;
    }
  }

  // lvm_shift_for_operator: move the code from `at` on upwards to make room for
  // an operator. The room is tested for the operator's two bytes only; the
  // caller must leave the four that are used.
  method ShiftForOperator(p: Machine, at: nat) returns (shifted: nat)
    requires p.Valid() && (at < p.end && p.end + OPERATOR_SIZE <= p.code.Length ==> p.end + OP_SPACE <= p.code.Length)
    modifies p`end, p`error, p.code
    ensures p.Valid()
    ensures if at < old(p.end) && old(p.end) + OPERATOR_SIZE <= p.code.Length then
              && p.end == at && shifted == old(p.end) + OP_SPACE && p.error == old(p.error)
              && p.code[..at] == old(p.code[..at]) && p.code[at + OP_SPACE..shifted] == old(p.code[at..p.end])
            else
              p.error && shifted == 0 && p.end == old(p.end) && p.code[..] == old(p.code[..])
  {
    if p.end + OPERATOR_SIZE > p.code.Length || at >= p.end {
      p.error := true;
      return 0;
    }
    forall i | at <= i < p.end {
      p.code[i + OP_SPACE] := p.code[i];
    }
    shifted := p.end + OP_SPACE;
    p.end := at;
  }

  // Shift, write an operator's header into the gap and go back behind the code.
  method InsertOperator(p: Machine, at: nat, op: ArithOp) returns (saved: nat)
    requires p.Valid() && at < p.end && p.end + OP_SPACE < p.code.Length
    modifies p`end, p`error, p.code
    ensures p.Valid() && p.error == old(p.error) && p.end == old(p.end) + OP_SPACE == saved
    ensures p.code[..p.end] == old(p.code[..at]) + ArithHeader(op) + old(p.code[at..p.end])
  {
    saved := ShiftForOperator(p, at);
    ghost var moved := p.code[..];
    p.SetOp(ArithCode(op));
    assert p.code[..saved] == p.code[..at + OP_SPACE] + p.code[at + OP_SPACE..][..saved - at - OP_SPACE];
    assert moved[at + OP_SPACE..][..saved - at - OP_SPACE] == moved[at + OP_SPACE..saved];
    var _ := SetEnd(p, saved);
  }

  method InsertConnective(p: Machine, at: nat, k: Connective) returns (saved: nat)
    requires p.Valid() && at < p.end && p.end + OP_SPACE < p.code.Length
    modifies p`end, p`error, p.code
    ensures p.Valid() && p.error == old(p.error) && p.end == old(p.end) + OP_SPACE == saved
    ensures p.code[..p.end] == old(p.code[..at]) + CmpHeader(ConnectiveCode(k)) + old(p.code[at..p.end])
  {
    saved := ShiftForOperator(p, at);
    ghost var moved := p.code[..];
    p.SetRelation(ConnectiveCode(k));
    assert p.code[..saved] == p.code[..at + OP_SPACE] + p.code[at + OP_SPACE..][..saved - at - OP_SPACE];
    assert moved[at + OP_SPACE..][..saved - at - OP_SPACE] == moved[at + OP_SPACE..saved];
    var _ := SetEnd(p, saved);
  }

  method ParseExpr(p: Machine, side: Side)
    requires p.Valid() && p.end + |SideCode(side.first, side.rest)| < p.code.Length
    modifies p`end, p`error, p.code
    ensures p.Valid() && p.error == old(p.error)
    ensures p.end == old(p.end) + |SideCode(side.first, side.rest)|
    ensures p.code[..p.end] == old(p.code[..p.end]) + SideCode(side.first, side.rest)
  {
    hide ArithHeader, EncodeExpr, SideCode;
    ghost var before := p.code[..p.end];
    var saved := p.end;
    p.SetOperand(side.first);
    assert side.rest[..0] == [];
    OneOperand(side.first);
    var i := 0;
    while i < |side.rest|
      invariant 0 <= i <= |side.rest|
      invariant p.Valid() && p.error == old(p.error)
      invariant p.end == |before| + 8 + 12 * i
      invariant p.code[..p.end] == before + SideCode(side.first, side.rest[..i])
      invariant saved == if i == 0 then |before| else p.end
    {
      var term := side.rest[i];
      ghost var was := p.code[..p.end];
      p.SetOperand(term.operand);
      saved := InsertOperator(p, saved, term.op);
      NextTerm(before, was, side.first, side.rest, i);
      i := i + 1;
    }
    assert side.rest[..i] == side.rest;
  }

  lemma OneOperand(first: Operand)
    ensures SideCode(first, []) == LeafCode(first)
  {
  }

  lemma NextTerm(before: Bytes, was: Bytes, first: Operand, rest: seq<Term>, i: nat)
    requires i < |rest| && was == before + SideCode(first, rest[..i])
    ensures var at := if i == 0 then |before| else |was|;
            var now := was + LeafCode(rest[i].operand);
            now[..at] + ArithHeader(rest[i].op) + now[at..] == before + SideCode(first, rest[..i + 1])
  {
    hide ArithHeader, EncodeExpr;
    var now := was + LeafCode(rest[i].operand);
    assert rest[..i + 1][..i] == rest[..i];
    if i == 0 {
      assert now[..|before|] == before;
      assert now[|before|..] == LeafCode(first) + LeafCode(rest[i].operand);
    } else {
      assert now[..|was|] == was && now[|was|..] == LeafCode(rest[i].operand);
    }
  }

  // Go back to the room left at `at`, write the relation there, and return.
  method FillRelation(p: Machine, at: nat, rel: Rel)
    requires p.Valid() && at + OP_SPACE <= p.end < p.code.Length
    modifies p`end, p`error, p.code
    ensures p.Valid() && p.error == old(p.error) && p.end == old(p.end)
    ensures p.code[..p.end] == old(p.code[..at]) + CmpHeader(RelCode(rel)) + old(p.code[at + OP_SPACE..p.end])
  {
    hide CmpHeader;
    var saved := SetEnd(p, at);
    ghost var was := p.code[..];
    p.SetRelation(RelCode(rel));
    assert p.code[..saved] == p.code[..p.end] + p.code[p.end..][..saved - p.end];
    assert was[p.end..][..saved - p.end] == was[p.end..saved];
    var _ := SetEnd(p, saved);
  }

  method ParseComparison(p: Machine, c: Comparison)
    requires p.Valid() && p.end + |CmpCode(c)| < p.code.Length
    modifies p`end, p`error, p.code
    ensures p.Valid() && p.error == old(p.error)
    ensures p.end == old(p.end) + |CmpCode(c)|
    ensures p.code[..p.end] == old(p.code[..p.end]) + CmpCode(c)
  {
    hide SideCode, CmpHeader;
    ghost var before := p.code[..p.end];
    ghost var left := SideCode(c.left.first, c.left.rest);
    var at := JumpToOperand(p);
    ghost var room := p.code[..p.end];
    ParseExpr(p, c.left);
    RoomAndSide(room, left, at);
    FillRelation(p, at, c.rel);
    ParseExpr(p, c.right);
    Grouped(before, CmpHeader(RelCode(c.rel)), left, SideCode(c.right.first, c.right.rest));
  }

  lemma RoomAndSide(room: Bytes, left: Bytes, at: nat)
    requires |room| == at + OP_SPACE
    ensures (room + left)[..at] == room[..at] && (room + left)[at + OP_SPACE..] == left
  {
  }

  lemma Grouped(a: Bytes, b: Bytes, c: Bytes, d: Bytes)
    ensures a + b + c + d == a + (b + c + d)
  {
  }

  // One more connective and comparison: the connective goes in front of the
  // comparison compiled last.
  method ParseLink(p: Machine, link: Link, at: nat, ghost head: Bytes, ghost last: Bytes) returns (saved: nat)
    requires p.Valid() && p.code[..p.end] == head + last && at == |head| < p.end
    requires p.end + OP_SPACE + |CmpCode(link.comparison)| < p.code.Length
    modifies p`end, p`error, p.code
    ensures p.Valid() && p.error == old(p.error)
    ensures p.code[..p.end] == head + (CmpHeader(ConnectiveCode(link.connective)) + last) + CmpCode(link.comparison)
    ensures saved == |head| + OP_SPACE + |last|
  {
    hide CmpCode, CmpHeader;
    assert p.code[..p.end][..at] == head && p.code[..p.end][at..] == last;
    saved := InsertConnective(p, at, link.connective);
    ParseComparison(p, link.comparison);
  }

  // A clause compiled from the start of the buffer leaves exactly its code there.
  method ParseWhere(p: Machine, clause: Clause)
    requires p.Valid() && p.end == 0 && |WhereCode(clause.first, clause.rest)| < p.code.Length
    modifies p`end, p`error, p.code
    ensures p.Valid() && p.error == old(p.error)
    ensures p.code[..p.end] == WhereCode(clause.first, clause.rest)
  {
    hide CmpCode, CmpHeader, WhereCode;
    HeadFits(clause.first, clause.rest, 0);
    ParseComparison(p, clause.first);
    var saved := 0;
    var i := 0;
    while i < |clause.rest|
      invariant 0 <= i <= |clause.rest|
      invariant p.Valid() && p.error == old(p.error)
      invariant p.code[..p.end] == Head(clause.first, clause.rest, i) + CmpCode(Nth(clause.first, clause.rest, i))
      invariant saved == |Head(clause.first, clause.rest, i)|
    {
      HeadFits(clause.first, clause.rest, i);
      saved := ParseLink(p, clause.rest[i], saved, Head(clause.first, clause.rest, i),
                         CmpCode(Nth(clause.first, clause.rest, i)));
      i := i + 1;
    }
    HeadsComplete(clause.first, clause.rest);
  }
}
