// A whole query: its WHERE clause compiled into the machine, then run on the rows.
module Query {
  import opened Common
  import opened Lvm
  import opened LvmCode
  import opened LvmMachine
  import opened Selection
  import opened Where
  import opened WhereParser

  // The code of a simple clause is that of its tree.
  lemma CompiledClause(code: Bytes, clause: Clause)
    requires SimpleClause(clause.first, clause.rest)
    requires |WhereCode(clause.first, clause.rest)| <= |code|
    requires code[..|WhereCode(clause.first, clause.rest)|] == WhereCode(clause.first, clause.rest)
    ensures At(code, 0, EncodeCond(ClauseTree(clause.first, clause.rest)))
  {
    hide WhereCode, SimpleClause, ClauseTree;
    WhereCodeIff(clause.first, clause.rest);
  }

  // From the clause to the rows delivered; if the index serves the query, these are
  // the rows of a scan that accepts by the meaning of the clause.
  method RunQuery(plan: Plan, clause: Clause, size: nat) returns (out: seq<Row>, last: DbResult)
    requires plan.Valid() && plan.Reachable()
    requires SimpleClause(clause.first, clause.rest) && |WhereCode(clause.first, clause.rest)| < size
    requires plan.cond == Some(ClauseTree(clause.first, clause.rest))
    ensures out == plan.Delivered()
    ensures plan.IndexServes() ==> out == plan.Answer()
    ensures HandsOut(plan.rows, plan.attrs, plan.Reached(), out)
    ensures plan.IndexServes() ==>
              HandsOut(plan.rows, plan.attrs, Wanted(plan.rows, plan.attrs, plan.cond, 0, |plan.rows|), out)
    ensures last == if plan.NoSuchValue() then IndexError else Finished
  {
    plan.DeliveredRows();
    hide HandsOut, Wanted, Plan.Reached;
    var vm := new Machine(size);
    ParseWhere(vm, clause);
    hide WhereCode, SimpleClause, ClauseTree, EncodeCond, At, Plan.Valid, Plan.IndexServes, Plan.NoSuchValue,
      Plan.Answer, Plan.Delivered, Plan.Reachable;
    assert vm.code[..vm.end] == vm.code[..][..vm.end];
    CompiledClause(vm.code[..], clause);
    var handle := new Handle(plan, vm);
    out, last := handle.Select();
    if plan.IndexServes() {
      plan.IndexServesAnswer();
    }
  }
}
