/**
  What copy propagation leaves: a definition of a variable written once and read once stays
  for one of three reasons.  Its block does not read it afterwards; its value makes a call
  that would meet another one in the reader; or a statement on the way obstructs.
*/
module MovesLeft {
  import opened IR
  import opened InlineCounts

  /** The variables the pass leaves alone: parameters, stack arrays, and those whose address is taken. */
  predicate Spared(x: string, arrays: set<string>, addr: set<string>) {
    x in {"a1", "a2", "a3", "a4"} || x in arrays || x in addr
  }

  /** Defined here, written once and read once in the whole function. */
  ghost predicate UsedOnce(p: Program, k: nat, i: nat, arrays: set<string>, addr: set<string>) {
    && k < |p| && i < |p[k].stmts| && p[k].stmts[i].Defines()
    && !Spared(p[k].stmts[i].lhs.kind.name, arrays, addr)
    && TotalWrites(p, p[k].stmts[i].lhs.kind.name) == 1 && TotalReads(p, p[k].stmts[i].lhs.kind.name) == 1
  }

  /** The statement may change what the value depends on, or something that the value changes. */
  predicate Obstructs(s: Stmt, val: Expr) {
    || !s.kind.Assign? || HasCall(s.rhs)
    || (s.lhs.IsMem() && (ReadsMem(val) || HasImpureCall(val)))
    || (ReadsMem(s.rhs) && HasImpureCall(val))
    || (s.lhs.IsVar() && CountReads(val, s.lhs.kind.name) > 0)
  }

  /** Some statement strictly between obstructs; on the way to the exit, comments do not. */
  ghost predicate Obstructed(b: Block, i: nat, end: nat, val: Expr, exit: bool) {
    exists k :: i < k < end && k < |b.stmts| && !(exit && b.stmts[k].kind.Comment?) && Obstructs(b.stmts[k], val)
  }

  /** The value calls, and the reader calls too without taking the variable as an argument of its one call. */
  predicate Crowded(val: Expr, calls: nat, aside: bool) {
    HasImpureCall(val) && calls > 0 && (calls > 1 || aside)
  }

  /** The first statement after the definition that reads the variable. */
  ghost predicate FirstReader(b: Block, x: string, i: nat, j: nat) {
    i < j < |b.stmts| && StmtReads(b.stmts[j], x) > 0 && forall k :: i < k < j ==> StmtReads(b.stmts[k], x) == 0
  }

  ghost predicate ReadByNone(b: Block, x: string, i: nat) {
    forall k :: i < k < |b.stmts| ==> StmtReads(b.stmts[k], x) == 0
  }

  /** An expression that the block ends with reads the variable. */
  predicate ExitReads(b: Block, x: string, site: Site) {
    !site.InStmt? && CountReads(FieldAt(b, site), x) > 0
  }

  ghost predicate HeldBefore(b: Block, i: nat, j: nat, x: string, val: Expr) {
    FirstReader(b, x, i, j) ==>
      || Crowded(val, CountImpureCalls(b.stmts[j].rhs) + CountImpureCalls(b.stmts[j].lhs),
                 ReadsOutsideCallArgs(b.stmts[j].rhs, x) || ReadsOutsideCallArgs(b.stmts[j].lhs, x))
      || Obstructed(b, i, j, val, false)
  }

  ghost predicate HeldFromExit(b: Block, i: nat, x: string, val: Expr) {
    (exists site :: ExitReads(b, x, site)) && ReadByNone(b, x, i) ==>
      || (exists site :: ExitReads(b, x, site) && Crowded(val, CountImpureCalls(FieldAt(b, site)),
                                                          ReadsOutsideCallArgs(FieldAt(b, site), x)))
      || Obstructed(b, i, |b.stmts|, val, true)
  }

  /** The definition stays, for a reason. */
  ghost predicate Held(b: Block, i: nat)
    requires i < |b.stmts| && b.stmts[i].Defines()
  {
    var x, val := b.stmts[i].lhs.kind.name, b.stmts[i].rhs;
    HeldFromExit(b, i, x, val) && forall j: nat :: HeldBefore(b, i, j, x, val)
  }

  /** Everything that is used once stays for a reason. */
  ghost predicate AllHeld(p: Program, arrays: set<string>, addr: set<string>) {
    forall k: nat, i: nat :: UsedOnce(p, k, i, arrays, addr) ==> Held(p[k], i)
  }

  lemma {:induction false} CallsAreCounted(e: Expr)
    ensures HasImpureCall(e) <==> CountImpureCalls(e) > 0
  {
    if e.Null? {
    } else {
      hide IsPureCallee;
      CallsAreCounted(e.a);
      CallsAreCounted(e.b);
      CallsAreCounted(e.c);
      CallsAreCounted(e.args);
    }
  }

  lemma PassesUnlessObstructs(s: Stmt, val: Expr, exit: bool)
    ensures Passes(s, val, exit) <==> (exit && s.kind.Comment?) || !Obstructs(s, val)
  {
    if s.lhs.IsVar() {
      ReadIsCounted(val, s.lhs.kind.name);
    }
    hide HasCall, HasImpureCall, ReadsMem, Reads, CountReads;
  }

  lemma ClearUnlessObstructed(b: Block, i: nat, end: nat, val: Expr, exit: bool)
    requires end <= |b.stmts|
    ensures Clear(b.stmts, val, i, end, exit) <==> !Obstructed(b, i, end, val, exit)
  {
    hide Passes, Obstructs;
    forall k | i < k < end
      ensures Passes(b.stmts[k], val, exit) <==>
              (exit && b.stmts[k].kind.Comment?) || !Obstructs(b.stmts[k], val)
    {
      PassesUnlessObstructs(b.stmts[k], val, exit);
    }
  }

  lemma {:induction false} ReadIsCounted(e: Expr, x: string)
    ensures x in Reads(e) <==> CountReads(e, x) > 0
  {
    if e.Null? {
    } else {
      ReadIsCounted(e.a, x);
      ReadIsCounted(e.b, x);
      ReadIsCounted(e.c, x);
      ReadIsCounted(e.args, x);
    }
  }

  /** There is no place in the block's statements to move to if and only if a reason holds for each reader. */
  lemma HeldBeforeExactly(b: Block, i: nat, j: nat)
    requires i < |b.stmts| && b.stmts[i].Defines()
    ensures HeldBefore(b, i, j, b.stmts[i].lhs.kind.name, b.stmts[i].rhs) <==> !Movable(b, i, InStmt(j))
  {
    ghost var x, val := b.stmts[i].lhs.kind.name, b.stmts[i].rhs;
    if i < j < |b.stmts| {
      ClearUnlessObstructed(b, i, j, val, false);
    }
    hide Clear, Obstructed, StmtReads, HasImpureCall, CountImpureCalls, ReadsOutsideCallArgs;
  }

  /** If the exit reads the variable and a move there is refused, a reason holds. */
  lemma HeldFromExitIs(b: Block, i: nat)
    requires i < |b.stmts| && b.stmts[i].Defines() && !Movable(b, i, ExitSite(b, b.stmts[i].lhs.kind.name))
    ensures HeldFromExit(b, i, b.stmts[i].lhs.kind.name, b.stmts[i].rhs)
  {
    ghost var x, val := b.stmts[i].lhs.kind.name, b.stmts[i].rhs;
    ghost var exit := ExitSite(b, x);
    if site :| ExitReads(b, x, site) {
      SomeExit(b, x, site);
      CallsAreCounted(FieldAt(b, exit));
      ClearUnlessObstructed(b, i, |b.stmts|, val, true);
      hide Clear, Obstructed, StmtReads, HasImpureCall, CountImpureCalls, ReadsOutsideCallArgs, ExitSite, CountReads;
      assert ExitReads(b, x, exit);
    }
  }

  lemma SomeExit(b: Block, x: string, site: Site)
    requires ExitReads(b, x, site)
    ensures !ExitSite(b, x).InStmt?
  {
    hide CountReads;
  }

  /** Where nothing can be moved, a definition stays for a reason. */
  lemma StaysForAReason(b: Block, i: nat)
    requires i < |b.stmts| && b.stmts[i].Defines() && forall site :: !Movable(b, i, site)
    ensures Held(b, i)
  {
    hide Movable, HeldBefore, HeldFromExit, ExitSite;
    HeldFromExitIs(b, i);
    forall j: nat ensures HeldBefore(b, i, j, b.stmts[i].lhs.kind.name, b.stmts[i].rhs) {
      HeldBeforeExactly(b, i, j);
    }
  }
}
