/**
  Copy propagation: which moves it makes, and that it keeps every run.

  The pass moves what its scan lets pass.  It keeps the runs of every function in which each
  move it makes is safe by the statements between the definition and its reader and by the
  reader.  A condition on the function it starts from is enough for that: every definition
  it may come to move has a value without effects that reads no address-taken variable and,
  if it loads, stands in a block that makes no impure call and assigns no such variable.
*/
module CopyProp {
  import opened IR
  import opened InlineCounts
  import opened Moving
  import opened CallOrder
  import opened MovesLeft

  // ---------- the moves of a pass ----------

  datatype Move = Move(block: nat, def: nat, site: Site)

  ghost predicate Possible(p: Program, mv: Move) {
    mv.block < |p| && Movable(p[mv.block], mv.def, mv.site)
  }

  ghost function After(p: Program, mv: Move, fold: Expr -> Expr): Program
    requires Possible(p, mv)
  {
    p[mv.block := Inlined(p[mv.block], mv.def, mv.site, fold)]
  }

  /** The moves, one after the other, lead from `p` to `q`. */
  ghost predicate Made(p: Program, moves: seq<Move>, fold: Expr -> Expr, q: Program)
    decreases |moves|
  {
    if moves == [] then p == q
    else Possible(p, moves[0]) && Made(After(p, moves[0], fold), moves[1..], fold, q)
  }

  ghost predicate SafeAt(p: Program, mv: Move, addr: set<string>) {
    Possible(p, mv) && SafeMove(p[mv.block], mv.def, mv.site, addr)
  }

  /** Each move is safe where it is made. */
  ghost predicate AllSafe(p: Program, moves: seq<Move>, fold: Expr -> Expr, addr: set<string>)
    decreases |moves|
  {
    moves == [] || (SafeAt(p, moves[0], addr) && AllSafe(After(p, moves[0], fold), moves[1..], fold, addr))
  }

  lemma {:induction false} OneMoreMove(p: Program, moves: seq<Move>, fold: Expr -> Expr, addr: set<string>, q: Program,
          mv: Move)
    requires Made(p, moves, fold, q) && Possible(q, mv)
    ensures Made(p, moves + [mv], fold, After(q, mv, fold))
    ensures AllSafe(p, moves + [mv], fold, addr) <==> AllSafe(p, moves, fold, addr) && SafeAt(q, mv, addr)
    decreases |moves|
  {
    hide Movable, Inlined, SafeMove;
    if moves == [] {
      assert [mv][1..] == [] && moves + [mv] == [mv];
      assert Made(After(q, mv, fold), [], fold, After(q, mv, fold));
    } else {
      ghost var all := moves + [mv];
      assert all[0] == moves[0] && all[1..] == moves[1..] + [mv];
      OneMoreMove(After(p, moves[0], fold), moves[1..], fold, addr, q, mv);
    }
  }

  /**
    A move of a variable that is used once.  If it is of a call result, and neither that nor the reader has
    conditions or stands in the arguments of an intrinsic, the order of the calls is kept.
  */
  ghost predicate Ordered(p: Program, mv: Move, fold: Expr -> Expr, arrays: set<string>, addr: set<string>) {
    && Possible(p, mv) && UsedOnce(p, mv.block, mv.def, arrays, addr)
    && (StraightMove(p[mv.block], mv.def, mv.site) && !IntrinsicReader(p[mv.block], mv.def, mv.site) ==>
          OrderOnAll(p[mv.block], mv.def, mv.site, fold))
  }

  ghost predicate OrderOnAll(b: Block, i: nat, site: Site, fold: Expr -> Expr)
    requires Movable(b, i, site)
  {
    forall m: Machine :: FoldKeepsValue(m, fold) ==> KeepsOrder(m, b, i, site, fold)
  }

  /** So is each move where it is made. */
  ghost predicate AllOrdered(p: Program, moves: seq<Move>, fold: Expr -> Expr, arrays: set<string>, addr: set<string>)
    decreases |moves|
  {
    || moves == []
    || (&& Ordered(p, moves[0], fold, arrays, addr)
        && AllOrdered(After(p, moves[0], fold), moves[1..], fold, arrays, addr))
  }

  lemma {:induction false} OneMoreOrdered(p: Program, moves: seq<Move>, fold: Expr -> Expr, arrays: set<string>,
                                          addr: set<string>, q: Program, mv: Move)
    requires Made(p, moves, fold, q) && AllOrdered(p, moves, fold, arrays, addr) && Ordered(q, mv, fold, arrays, addr)
    ensures AllOrdered(p, moves + [mv], fold, arrays, addr)
    decreases |moves|
  {
    hide Movable, Inlined, UsedOnce, OrderOnAll, StraightMove, IntrinsicReader;
    if moves == [] {
      assert [mv][1..] == [] && moves + [mv] == [mv];
    } else {
      ghost var all := moves + [mv];
      assert all[0] == moves[0] && all[1..] == moves[1..] + [mv];
      hide Ordered;
      OneMoreOrdered(After(p, moves[0], fold), moves[1..], fold, arrays, addr, q, mv);
    }
  }

  lemma CandidateIs(p: Program, k: nat, i: nat, arrays: set<string>, addr: set<string>)
    requires k < |p| && i < |p[k].stmts| && p[k].stmts[i].Defines()
    ensures UsedOnce(p, k, i, arrays, addr) <==> Candidate(p, p[k].stmts[i].lhs.kind.name, arrays, addr)
  {
    ghost var x := p[k].stmts[i].lhs.kind.name;
    assert IsParam(x) ==> x == ['a', x[1]];
    hide TotalReads, TotalWrites;
  }

  lemma MoveIsOrdered(p: Program, mv: Move, fold: Expr -> Expr, arrays: set<string>, addr: set<string>)
    requires Possible(p, mv) && Offered(p[mv.block], mv.def, mv.site, addr)
    requires Candidate(p, p[mv.block].stmts[mv.def].lhs.kind.name, arrays, addr)
    ensures Ordered(p, mv, fold, arrays, addr)
  {
    ghost var b, i, site := p[mv.block], mv.def, mv.site;
    CandidateIs(p, mv.block, mv.def, arrays, addr);
    hide Movable, Candidate, StraightMove, IntrinsicReader, Offered, FoldKeepsValue, KeepsOrder, UsedOnce;
    if StraightMove(b, i, site) && !IntrinsicReader(b, i, site) {
      forall m: Machine | FoldKeepsValue(m, fold) ensures KeepsOrder(m, b, i, site, fold) {
        OrderKept(m, b, i, site, addr, fold);
      }
    }
  }

  // ---------- a fragment in which every move is safe ----------

  /** A block in which memory and the variables living there change only through memory destinations. */
  ghost predicate Settled(b: Block, addr: set<string>) {
    && (forall j :: 0 <= j < |b.stmts| ==> SettledStmt(b.stmts[j], addr))
    && !HasImpureCall(b.cond) && !HasImpureCall(b.retValue) && !HasImpureCall(b.retRaw)
    && !HasImpureCall(b.switchVar) && !HasImpureCall(b.tailCall)
  }

  ghost predicate SettledStmt(s: Stmt, addr: set<string>) {
    !HasImpureCall(s.rhs) && !HasImpureCall(s.lhs) && (s.Defines() ==> s.lhs.kind.name !in addr)
  }

  /** A value that may be moved anywhere within the block. */
  ghost predicate Portable(b: Block, val: Expr, addr: set<string>) {
    && IsValue(val) && !HasImpureCall(val) && Reads(val) !! addr
    && (ReadsMem(val) ==> Settled(b, addr))
  }

  lemma {:induction false} QuietIsEarly(e: Expr, x: string)
    requires !HasImpureCall(e)
    ensures Early(e, x)
  {
    if e.Null? {
    } else {
      hide CountReads, IsPureCallee;
      QuietIsEarly(e.a, x);
      QuietIsEarly(e.b, x);
      QuietIsEarly(e.c, x);
      QuietIsEarly(e.args, x);
    }
  }

  lemma SettledCrosses(s: Stmt, val: Expr, terminal: bool, addr: set<string>)
    requires Passes(s, val, terminal) && SettledStmt(s, addr) && ReadsMem(val) && !HasImpureCall(val)
    ensures MayCross(s, val, addr)
  {
    hide HasImpureCall, ReadsMem, Reads, HasCall;
  }

  lemma SettledReader(s: Stmt, x: string, val: Expr, addr: set<string>)
    requires SettledStmt(s, addr) && !HasImpureCall(val)
    ensures ReaderTakes(s, x, val, addr)
  {
    QuietIsEarly(s.rhs, x);
    if s.lhs.IsMem() {
      QuietIsEarly(s.lhs.a, x);
    }
    hide CountReads, Early, HasImpureCall, Free, First;
  }

  lemma FreeReader(s: Stmt, x: string, val: Expr, addr: set<string>)
    requires Free(val, addr)
    ensures ReaderTakes(s, x, val, addr) && MayCross(s, val, addr)
  {
    hide CountReads, Early, First;
  }

  /** A portable value moves safely wherever the scan lets it. */
  lemma PortableIsSafe(b: Block, i: nat, site: Site, addr: set<string>)
    requires Movable(b, i, site) && Portable(b, b.stmts[i].rhs, addr)
    ensures SafeMove(b, i, site, addr)
  {
    ghost var x, val := b.stmts[i].lhs.kind.name, b.stmts[i].rhs;
    ghost var end := if site.InStmt? then site.at else |b.stmts|;
    assert Clear(b.stmts, val, i, end, !site.InStmt?);
    assert !ReadsMem(val) ==> Free(val, addr);
    assert ReadsMem(val) ==> !HasImpureCall(FieldAt(b, site));
    hide Movable, Passes, MayCross, ReaderTakes, Free, HasImpureCall, ReadsMem, Reads, SettledStmt, TakenAt, Early;
    forall k | i < k < end && 0 <= k < |b.stmts| ensures MayCross(b.stmts[k], val, addr) {
      if ReadsMem(val) {
        SettledCrosses(b.stmts[k], val, !site.InStmt?, addr);
      } else {
        FreeReader(b.stmts[k], x, val, addr);
      }
    }
    if site.InStmt? {
      MovableSite(b, i, site);
      if ReadsMem(val) {
        SettledReader(b.stmts[site.at], x, val, addr);
      } else {
        FreeReader(b.stmts[site.at], x, val, addr);
      }
    } else {
      TakenByField(b, x, val, FieldAt(b, site), addr);
    }
    SafeByParts(b, i, site, addr);
  }

  lemma MovableSite(b: Block, i: nat, site: Site)
    requires Movable(b, i, site)
    ensures site.InStmt? ==> i < site.at < |b.stmts|
  {
  }

  lemma TakenByField(b: Block, x: string, val: Expr, e: Expr, addr: set<string>)
    requires !HasImpureCall(val) && (Free(val, addr) || !HasImpureCall(e))
    ensures TakenAt(e, x, val, addr)
  {
    if !Free(val, addr) {
      QuietIsEarly(e, x);
    }
    hide Free, Early, HasImpureCall;
  }

  lemma SafeByParts(b: Block, i: nat, site: Site, addr: set<string>)
    requires Movable(b, i, site)
    requires var x, val, end := b.stmts[i].lhs.kind.name, b.stmts[i].rhs, if site.InStmt? then site.at else |b.stmts|;
             && IsValue(val) && !HasImpureCall(val)
             && (forall k :: i < k < end && 0 <= k < |b.stmts| ==> MayCross(b.stmts[k], val, addr))
             && (site.InStmt? ==> i < site.at < |b.stmts| && ReaderTakes(b.stmts[site.at], x, val, addr))
             && (!site.InStmt? ==> TakenAt(FieldAt(b, site), x, val, addr))
    ensures SafeMove(b, i, site, addr)
  {
    hide Movable, MayCross, ReaderTakes, TakenAt, HasImpureCall, ExitTakes;
  }

  // ---------- the fragment is kept ----------

  /** The parameters `a1` to `a4`. */
  predicate IsParam(x: string) {
    |x| == 2 && x[0] == 'a' && '1' <= x[1] <= '4'
  }

  predicate Unprotected(x: string, arrays: set<string>, addr: set<string>) {
    !IsParam(x) && x !in arrays && x !in addr
  }

  ghost predicate Candidate(p: Program, x: string, arrays: set<string>, addr: set<string>) {
    Unprotected(x, arrays, addr) && TotalWrites(p, x) == 1 && TotalReads(p, x) == 1
  }

  /**
    What may be moved now or in a later round.  When folding keeps all reads (`exact`) only
    a candidate ever is; otherwise any variable written once may become one.
  */
  ghost predicate MayMove(p: Program, x: string, arrays: set<string>, addr: set<string>, exact: bool) {
    Unprotected(x, arrays, addr) && TotalWrites(p, x) == 1 && (exact ==> TotalReads(p, x) == 1)
  }

  ghost predicate Folds(fold: Expr -> Expr, exact: bool) {
    FoldAddsNoReads(fold) && FoldAddsNothing(fold) && (exact ==> FoldKeepsReads(fold))
  }

  /** Every definition the pass may want to move is one it may move. */
  ghost predicate Fragment(p: Program, arrays: set<string>, addr: set<string>, exact: bool) {
    forall k :: 0 <= k < |p| ==> AddressesIn(p[k], addr) && PortableDefs(p, p[k], arrays, addr, exact)
  }

  ghost predicate PortableDefs(p: Program, b: Block, arrays: set<string>, addr: set<string>, exact: bool) {
    forall i :: 0 <= i < |b.stmts| && b.stmts[i].Defines() ==>
      MayMove(p, b.stmts[i].lhs.kind.name, arrays, addr, exact) ==> Portable(b, b.stmts[i].rhs, addr)
  }

  /** Re-folding brings in no call, no memory access, no address and no odd node. */
  ghost predicate FoldAddsNothing(fold: Expr -> Expr) {
    forall e: Expr {:trigger fold(e)} ::
      && (HasImpureCall(fold(e)) ==> HasImpureCall(e))
      && (ReadsMem(fold(e)) ==> ReadsMem(e))
      && (LeafVars(e) ==> LeafVars(fold(e)))
      && (IsValue(e) ==> IsValue(fold(e)))
      && AddrTakenIn(fold(e)) <= AddrTakenIn(e)
  }

  lemma FoldAddsNothingAt(fold: Expr -> Expr, e: Expr)
    requires FoldAddsNothing(fold)
    ensures HasImpureCall(fold(e)) ==> HasImpureCall(e)
    ensures ReadsMem(fold(e)) ==> ReadsMem(e)
    ensures LeafVars(e) ==> LeafVars(fold(e))
    ensures IsValue(e) ==> IsValue(fold(e))
    ensures AddrTakenIn(fold(e)) <= AddrTakenIn(e)
  {
    hide HasImpureCall, ReadsMem, LeafVars, IsValue, AddrTakenIn;
    ghost var r := fold(e);
  }

  /** One expression after the value has been put in and folded. */
  lemma Refolded(e: Expr, x: string, val: Expr, fold: Expr -> Expr, addr: set<string>)
    requires FoldAddsNoReads(fold) && FoldAddsNothing(fold)
    requires LeafVars(e) && LeafVars(val)
    requires x !in addr && AddrTakenIn(e) <= addr && AddrTakenIn(val) <= addr
    ensures var s := Subst(e, x, val);
            var r := fold(s);
            && LeafVars(s) && LeafVars(r) && AddrTakenIn(s) <= addr && AddrTakenIn(r) <= addr
            && (HasImpureCall(s) || HasImpureCall(r) ==> HasImpureCall(e) || HasImpureCall(val))
            && (ReadsMem(r) ==> ReadsMem(e) || ReadsMem(val))
            && Reads(r) <= Reads(e) + Reads(val)
  {
    ghost var s := Subst(e, x, val);
    hide HasImpureCall, ReadsMem, LeafVars, AddrTakenIn, Subst, Reads, CountReads;
    SubstLeaves(e, x, val);
    SubstKeeps(e, x, val);
    SubstReads(e, x, val);
    forall y | y in AddrTakenIn(s) ensures y in addr {
      SubstAddresses(e, x, val, y);
    }
    FoldAddsNothingAt(fold, s);
    forall y | y in Reads(fold(s)) ensures y in Reads(s) {
      NotCounted(fold(s), y);
      NotCounted(s, y);
      FoldAt(fold, s, y);
    }
  }

  lemma ValueStays(e: Expr, x: string, val: Expr, fold: Expr -> Expr)
    requires FoldAddsNothing(fold) && IsValue(e) && IsValue(val)
    ensures IsValue(fold(Subst(e, x, val)))
  {
    FoldAddsNothingAt(fold, Subst(e, x, val));
  }

  /** The rewritten reader. */
  lemma UseKeeps(s: Stmt, x: string, val: Expr, fold: Expr -> Expr, addr: set<string>)
    requires FoldAddsNoReads(fold) && FoldAddsNothing(fold) && TidyStmt(s) && LeafVars(val)
    requires x !in addr && StmtAddr(s) <= addr && AddrTakenIn(val) <= addr && !s.DefinesVar(x)
    ensures var u := UseWith(s, x, val, fold);
            && TidyStmt(u) && StmtAddr(u) <= addr
            && (SettledStmt(s, addr) && !HasImpureCall(val) ==> SettledStmt(u, addr))
            && u.Defines() == s.Defines() && (s.Defines() ==> u.lhs == s.lhs)
            && u.rhs == fold(Subst(s.rhs, x, val))
  {
    Refolded(s.rhs, x, val, fold, addr);
    Refolded(s.lhs, x, val, fold, addr);
    hide HasImpureCall, ReadsMem, LeafVars, AddrTakenIn, Reads, FoldAddsNoReads, FoldAddsNothing;
    if s.lhs.IsMem() {
      assert Subst(s.lhs, x, val).IsMem();
      FoldAt(fold, Subst(s.lhs, x, val), x);
    } else if s.lhs.Node? {
      DestinationCounts(s.lhs, x, val, fold, x);
    }
  }

  /** Where a statement of the new block comes from. */
  lemma StmtOrigin(b: Block, i: nat, site: Site, fold: Expr -> Expr, n: nat) returns (o: nat)
    requires Movable(b, i, site) && n < |Inlined(b, i, site, fold).stmts|
    ensures o < |b.stmts| && o != i
    ensures var x, val := b.stmts[i].lhs.kind.name, b.stmts[i].rhs;
            Inlined(b, i, site, fold).stmts[n]
            == if site == InStmt(o) then UseWith(b.stmts[o], x, val, fold) else b.stmts[o]
  {
    hide Passes, CallsNest, CallsNestAtExit, Clear, Unread, ExitSite, UseWith;
    o := if n < i then n else n + 1;
  }

  /** The block keeps its good form. */
  lemma InlinedKeeps(b: Block, i: nat, site: Site, addr: set<string>, fold: Expr -> Expr)
    requires Offered(b, i, site, addr) && FoldAddsNoReads(fold) && FoldAddsNothing(fold)
    ensures var c := Inlined(b, i, site, fold);
            TidyBlock(c) && AddressesIn(c, addr) && (Settled(b, addr) ==> Settled(c, addr))
  {
    ghost var c := Inlined(b, i, site, fold);
    hide LeafVars, AddrTakenIn, HasImpureCall, Offered, Inlined, FoldAddsNoReads, FoldAddsNothing, SettledStmt,
         TidyStmt, StmtAddr;
    forall n | 0 <= n < |c.stmts|
      ensures TidyStmt(c.stmts[n]) && StmtAddr(c.stmts[n]) <= addr &&
              (Settled(b, addr) ==> SettledStmt(c.stmts[n], addr))
    {
      StmtKeeps(b, i, site, addr, fold, n);
    }
    FieldKeeps(b, i, site, addr, fold, InCond);
    FieldKeeps(b, i, site, addr, fold, InRetValue);
    FieldKeeps(b, i, site, addr, fold, InRetRaw);
    FieldKeeps(b, i, site, addr, fold, InSwitch);
    FieldKeeps(b, i, site, addr, fold, InTailCall);
  }

  lemma DefinitionFacts(b: Block, i: nat, site: Site, addr: set<string>)
    requires Offered(b, i, site, addr)
    ensures i < |b.stmts| && TidyStmt(b.stmts[i]) && StmtAddr(b.stmts[i]) <= addr
    ensures var x, val := b.stmts[i].lhs.kind.name, b.stmts[i].rhs;
            x !in addr && LeafVars(val) && AddrTakenIn(val) <= addr && (Settled(b, addr) ==> !HasImpureCall(val))
  {
    hide LeafVars, AddrTakenIn, HasImpureCall, BlockReads, StmtsWrites;
    assert TidyStmt(b.stmts[i]) && StmtAddr(b.stmts[i]) <= addr;
    assert Settled(b, addr) ==> SettledStmt(b.stmts[i], addr);
  }

  lemma FieldFacts(b: Block, i: nat, site: Site, addr: set<string>, f: Site)
    requires Offered(b, i, site, addr) && !f.InStmt?
    ensures var e := FieldAt(b, f);
            LeafVars(e) && AddrTakenIn(e) <= addr && (Settled(b, addr) ==> !HasImpureCall(e))
  {
    hide LeafVars, AddrTakenIn, HasImpureCall, BlockReads, StmtsWrites, Movable;
  }

  lemma StmtFacts(b: Block, i: nat, site: Site, addr: set<string>, o: nat)
    requires Offered(b, i, site, addr) && o < |b.stmts|
    ensures TidyStmt(b.stmts[o]) && StmtAddr(b.stmts[o]) <= addr && (Settled(b, addr) ==> SettledStmt(b.stmts[o], addr))
    ensures o != i ==> !b.stmts[o].DefinesVar(b.stmts[i].lhs.kind.name)
  {
    hide TidyStmt, StmtAddr, SettledStmt, BlockReads, StmtsWrites, Movable;
    OnlyReader(b, i, site, o);
  }

  lemma FieldAfter(b: Block, i: nat, site: Site, fold: Expr -> Expr, f: Site)
    requires Movable(b, i, site) && !f.InStmt?
    ensures FieldAt(Inlined(b, i, site, fold), f)
            == if site == f then fold(Subst(FieldAt(b, f), b.stmts[i].lhs.kind.name, b.stmts[i].rhs)) else FieldAt(b, f)
  {
    hide Movable, Subst;
  }

  lemma FieldKeeps(b: Block, i: nat, site: Site, addr: set<string>, fold: Expr -> Expr, f: Site)
    requires Offered(b, i, site, addr) && FoldAddsNoReads(fold) && FoldAddsNothing(fold) && !f.InStmt?
    ensures var e := FieldAt(Inlined(b, i, site, fold), f);
            LeafVars(e) && AddrTakenIn(e) <= addr && (Settled(b, addr) ==> !HasImpureCall(e))
  {
    hide *;
    OfferedParts(b, i, site, addr);
    DefinitionFacts(b, i, site, addr);
    FieldFacts(b, i, site, addr, f);
    FieldAfter(b, i, site, fold, f);
    Refolded(FieldAt(b, f), b.stmts[i].lhs.kind.name, b.stmts[i].rhs, fold, addr);
  }

  lemma StmtKeeps(b: Block, i: nat, site: Site, addr: set<string>, fold: Expr -> Expr, n: nat)
    requires Offered(b, i, site, addr) && FoldAddsNoReads(fold) && FoldAddsNothing(fold)
    requires n < |Inlined(b, i, site, fold).stmts|
    ensures var s := Inlined(b, i, site, fold).stmts[n];
            TidyStmt(s) && StmtAddr(s) <= addr && (Settled(b, addr) ==> SettledStmt(s, addr))
  {
    hide *;
    OfferedParts(b, i, site, addr);
    DefinitionFacts(b, i, site, addr);
    ghost var o := StmtOrigin(b, i, site, fold, n);
    StmtFacts(b, i, site, addr, o);
    if site == InStmt(o) {
      UseKeeps(b.stmts[o], b.stmts[i].lhs.kind.name, b.stmts[i].rhs, fold, addr);
    }
  }

  /** A definition in the new block may still be moved whenever it could be before. */
  lemma StillPortable(b: Block, i: nat, site: Site, addr: set<string>, fold: Expr -> Expr, n: nat, o: nat)
    requires Offered(b, i, site, addr) && Portable(b, b.stmts[i].rhs, addr) && FoldAddsNoReads(fold) &&
             FoldAddsNothing(fold)
    requires o < |b.stmts| && b.stmts[o].Defines() && Portable(b, b.stmts[o].rhs, addr)
    requires var c := Inlined(b, i, site, fold);
             n < |c.stmts|
             && c.stmts[n] == if site == InStmt(o) then UseWith(b.stmts[o], b.stmts[i].lhs.kind.name, b.stmts[i].rhs,
                 fold)
                              else b.stmts[o]
    ensures var c := Inlined(b, i, site, fold); Portable(c, c.stmts[n].rhs, addr)
  {
    ghost var x, val := b.stmts[i].lhs.kind.name, b.stmts[i].rhs;
    InlinedKeeps(b, i, site, addr, fold);
    DefinitionFacts(b, i, site, addr);
    StmtFacts(b, i, site, addr, o);
    hide LeafVars, HasImpureCall, ReadsMem, Reads, AddrTakenIn, Inlined, Offered, Settled, TidyBlock, AddressesIn,
         Subst,
      FoldAddsNoReads, FoldAddsNothing, IsValue;
    if site == InStmt(o) {
      Refolded(b.stmts[o].rhs, x, val, fold, addr);
      ValueStays(b.stmts[o].rhs, x, val, fold);
    }
  }

  /** A variable still defined after the move could be moved before. */
  lemma CouldMoveBefore(p: Program, k: nat, i: nat, site: Site, fold: Expr -> Expr, y: string, arrays: set<string>,
          addr: set<string>, exact: bool, j: nat, n: nat)
    requires k < |p| && Movable(p[k], i, site) && Folds(fold, exact) && TidyProgram(p)
    requires Candidate(p, p[k].stmts[i].lhs.kind.name, arrays, addr)
    requires var q := p[k := Inlined(p[k], i, site, fold)];
             j < |q| && n < |q[j].stmts| && q[j].stmts[n].DefinesVar(y) && MayMove(q, y, arrays, addr, exact)
    ensures MayMove(p, y, arrays, addr, exact)
  {
    hide TotalReads, TotalWrites, Movable, Inlined, TidyProgram, FoldAddsNoReads, FoldAddsNothing, FoldKeepsReads;
    CountsAfterMove(p, k, i, site, fold, y);
    if exact {
      NoneLost(p[k], i, site, fold, y);
    }
  }

  /** What the scan offers at `i` of block `k`. */
  lemma OfferedHere(p: Program, k: nat, i: nat, site: Site, arrays: set<string>, addr: set<string>)
    requires k < |p| && Movable(p[k], i, site) && TidyProgram(p) && AddressesIn(p[k], addr)
    requires Candidate(p, p[k].stmts[i].lhs.kind.name, arrays, addr)
    ensures Offered(p[k], i, site, addr)
  {
    hide TotalReads, TotalWrites, BlockReads, StmtsWrites, TidyBlock, AddressesIn;
    ReaderIsHere(p, k, i, site);
    assert TidyBlock(p[k]);
  }

  lemma FragmentKept(p: Program, k: nat, i: nat, site: Site, fold: Expr -> Expr, arrays: set<string>, addr: set<string>,
          exact: bool)
    requires k < |p| && Movable(p[k], i, site) && TidyProgram(p) && Folds(fold, exact)
    requires Fragment(p, arrays, addr, exact) && Candidate(p, p[k].stmts[i].lhs.kind.name, arrays, addr)
    ensures var q := p[k := Inlined(p[k], i, site, fold)]; Fragment(q, arrays, addr, exact)
    ensures SafeMove(p[k], i, site, addr)
  {
    ghost var b := p[k];
    ghost var c := Inlined(b, i, site, fold);
    ghost var q := p[k := c];
    OfferedHere(p, k, i, site, arrays, addr);
    InlinedKeeps(b, i, site, addr, fold);
    MovedIsPortable(p, k, i, site, arrays, addr, exact);
    PortableIsSafe(b, i, site, addr);
    hide Folds, FoldAddsNoReads, FoldAddsNothing, Portable, TidyBlock, AddressesIn, Movable, Inlined, TidyProgram,
         Candidate,
      MayMove, Offered, SafeMove;
    forall j | 0 <= j < |q| ensures AddressesIn(q[j], addr) && PortableDefs(q, q[j], arrays, addr, exact) {
      assert AddressesIn(p[j], addr) && PortableDefs(p, p[j], arrays, addr, exact);
      forall n | 0 <= n < |q[j].stmts| && q[j].stmts[n].Defines() &&
             MayMove(q, q[j].stmts[n].lhs.kind.name, arrays, addr, exact)
        ensures Portable(q[j], q[j].stmts[n].rhs, addr)
      {
        ghost var y := q[j].stmts[n].lhs.kind.name;
        CouldMoveBefore(p, k, i, site, fold, y, arrays, addr, exact, j, n);
        if j == k {
          ghost var o := StmtOrigin(b, i, site, fold, n);
          OriginDefines(b, i, site, addr, fold, n, o);
          StillPortable(b, i, site, addr, fold, n, o);
        }
      }
    }
  }

  lemma MovedIsPortable(p: Program, k: nat, i: nat, site: Site, arrays: set<string>, addr: set<string>, exact: bool)
    requires k < |p| && Movable(p[k], i, site) && Fragment(p, arrays, addr, exact)
    requires Candidate(p, p[k].stmts[i].lhs.kind.name, arrays, addr)
    ensures Portable(p[k], p[k].stmts[i].rhs, addr)
  {
    hide Portable, TotalReads, TotalWrites, AddressesIn;
    assert PortableDefs(p, p[k], arrays, addr, exact);
  }

  lemma OriginDefines(b: Block, i: nat, site: Site, addr: set<string>, fold: Expr -> Expr, n: nat, o: nat)
    requires Offered(b, i, site, addr) && FoldAddsNoReads(fold) && FoldAddsNothing(fold) && o < |b.stmts| && o != i
    requires n < |Inlined(b, i, site, fold).stmts|
    requires Inlined(b, i, site, fold).stmts[n]
             == if site == InStmt(o) then UseWith(b.stmts[o], b.stmts[i].lhs.kind.name, b.stmts[i].rhs, fold)
                 else b.stmts[o]
    ensures var s := Inlined(b, i, site, fold).stmts[n];
            s.Defines() == b.stmts[o].Defines() && (s.Defines() ==> s.lhs == b.stmts[o].lhs)
  {
    OfferedParts(b, i, site, addr);
    DefinitionFacts(b, i, site, addr);
    StmtFacts(b, i, site, addr, o);
    hide LeafVars, HasImpureCall, ReadsMem, Reads, CountReads, Movable, UseWith, Inlined, BlockReads, StmtsWrites,
      FoldAddsNoReads, FoldAddsNothing, AddrTakenIn, SettledStmt, Offered;
    if site == InStmt(o) {
      UseKeeps(b.stmts[o], b.stmts[i].lhs.kind.name, b.stmts[i].rhs, fold, addr);
    }
  }

  lemma TidyKept(p: Program, k: nat, i: nat, site: Site, fold: Expr -> Expr)
    requires k < |p| && Movable(p[k], i, site) && TidyProgram(p) && FoldAddsNoReads(fold) && FoldAddsNothing(fold)
    requires var x := p[k].stmts[i].lhs.kind.name; TotalReads(p, x) == 1 && TotalWrites(p, x) == 1
    ensures TidyProgram(p[k := Inlined(p[k], i, site, fold)])
  {
    ghost var b := p[k];
    ghost var x, val := b.stmts[i].lhs.kind.name, b.stmts[i].rhs;
    ghost var c := Inlined(b, i, site, fold);
    ReaderIsHere(p, k, i, site);
    assert TidyBlock(b) && TidyStmt(b.stmts[i]);
    forall n | 0 <= n < |c.stmts| ensures TidyStmt(c.stmts[n]) {
      ghost var o := StmtOrigin(b, i, site, fold, n);
      OnlyReader(b, i, site, o);
      assert TidyStmt(b.stmts[o]);
      hide Movable, Inlined, TotalReads, TotalWrites, BlockReads, StmtsWrites, FoldAddsNoReads, FoldAddsNothing,
           UseWith;
      if site == InStmt(o) {
        TidyUse(b.stmts[o], x, val, fold);
      }
    }
    if !site.InStmt? {
      SubstLeaves(FieldAt(b, site), x, val);
      FoldAddsNothingAt(fold, Subst(FieldAt(b, site), x, val));
    }
    hide LeafVars, TidyStmt, Movable, TotalReads, TotalWrites, BlockReads, StmtsWrites, FoldAddsNoReads,
         FoldAddsNothing, UseWith, Subst;
    assert TidyBlock(c);
  }

  lemma TidyUse(s: Stmt, x: string, val: Expr, fold: Expr -> Expr)
    requires TidyStmt(s) && LeafVars(val) && FoldAddsNothing(fold) && !s.DefinesVar(x)
    ensures TidyStmt(UseWith(s, x, val, fold))
  {
    SubstLeaves(s.rhs, x, val);
    SubstLeaves(s.lhs, x, val);
    FoldAddsNothingAt(fold, Subst(s.rhs, x, val));
    FoldAddsNothingAt(fold, Subst(s.lhs, x, val));
    hide LeafVars, FoldAddsNothing;
  }

  // ---------- the pass ----------

  /** For every variable still assigned somewhere the tallies have the right writes and no fewer reads. */
  ghost predicate Tracks(p: Program, rd: Tally, wr: Tally) {
    forall x {:trigger TotalWrites(p, x)} ::
      (TotalReads(p, x) <= CountOf(rd, x) && TotalWrites(p, x) == CountOf(wr, x)) || TotalWrites(p, x) == 0
  }

  /** The snapshot lets the pass look at this definition. */
  predicate Wanted(s: Stmt, arrays: set<string>, addr: set<string>, rd: Tally, wr: Tally) {
    s.Defines() && Unprotected(s.lhs.kind.name, arrays, addr) && CountOf(wr, s.lhs.kind.name) == 1 &&
        CountOf(rd, s.lhs.kind.name) == 1
  }

  /** No definition of the block can be moved. */
  ghost predicate Idle(b: Block, arrays: set<string>, addr: set<string>, rd: Tally, wr: Tally, upTo: int) {
    forall i: nat, site ::
      i < upTo && i < |b.stmts| && Wanted(b.stmts[i], arrays, addr, rd, wr) ==> !Movable(b, i, site)
  }

  /**
    What the pass has kept since it started from `p`: `q` is `p` after the moves, and if each
    of them was safe every run is the same; in the fragment each of them was.
  */
  ghost predicate Kept(p: Program, q: Program, moves: seq<Move>, arrays: set<string>, addr: set<string>,
          fold: Expr -> Expr, exact: bool) {
    && Made(p, moves, fold, q)
    && (forall k :: 0 <= k < |q| ==> AddressesIn(q[k], addr))
    && (AllSafe(p, moves, fold, addr) ==> AllRunsKept(p, q, addr, fold)) && AllOrdered(p, moves, fold, arrays, addr)
    && (Fragment(p, arrays, addr, exact) ==> Fragment(q, arrays, addr, exact) && AllSafe(p, moves, fold, addr))
  }

  ghost predicate AllRunsKept(p: Program, q: Program, addr: set<string>, fold: Expr -> Expr) {
    forall m: Machine {:trigger SameRuns(m, p, q)} ::
      m.aliased <= addr && FoldKeepsValue(m, fold) ==> SameRuns(m, p, q)
  }

  /** A definition still in place that the snapshot offers and that has a reader is a candidate. */
  lemma WantedIsCandidate(p: Program, k: nat, i: nat, site: Site, arrays: set<string>, addr: set<string>, rd: Tally,
          wr: Tally)
    requires k < |p| && Movable(p[k], i, site) && Wanted(p[k].stmts[i], arrays, addr, rd, wr) && Tracks(p, rd, wr)
    ensures Candidate(p, p[k].stmts[i].lhs.kind.name, arrays, addr)
  {
    ghost var x := p[k].stmts[i].lhs.kind.name;
    StmtsErased(p[k].stmts, i, x);
    if site.InStmt? {
      StmtsErased(p[k].stmts, site.at, x);
    }
    TotalsAt(p, x, k);
    assert TotalWrites(p, x) > 0 && TotalReads(p, x) > 0;
    hide CountOf, Unprotected, TotalReads, StmtsReads, Movable;
  }

  /** One safe move, after moves that kept every run. */
  lemma MoveKeepsRuns(p0: Program, p: Program, k: nat, i: nat, site: Site, fold: Expr -> Expr, arrays: set<string>,
          addr: set<string>)
    requires k < |p| && Movable(p[k], i, site) && Offered(p[k], i, site, addr) && SafeMove(p[k], i, site, addr)
    requires Candidate(p, p[k].stmts[i].lhs.kind.name, arrays, addr) && AllRunsKept(p0, p, addr, fold)
    ensures AllRunsKept(p0, p[k := Inlined(p[k], i, site, fold)], addr, fold)
  {
    ghost var q := p[k := Inlined(p[k], i, site, fold)];
    hide Movable, Inlined, TotalReads, TotalWrites, FoldKeepsValue, SameRuns, Offered, SafeMove;
    forall m: Machine {:trigger SameRuns(m, p0, q)} | m.aliased <= addr && FoldKeepsValue(m, fold)
      ensures SameRuns(m, p0, q)
    {
      assert SameRuns(m, p0, p);
      InliningKeepsRuns(m, p, k, i, site, addr, fold);
      SameRunsTransitive(m, p0, p, q);
    }
  }

  /** One inlining keeps the tallies, the form and what the pass has kept. */
  lemma InliningKeeps(p0: Program, p: Program, moves: seq<Move>, k: nat, i: nat, site: Site, fold: Expr -> Expr,
                      arrays: set<string>, addr: set<string>, exact: bool, rd: Tally, wr: Tally)
    requires k < |p| && Movable(p[k], i, site) && TidyProgram(p) && Folds(fold, exact)
    requires Candidate(p, p[k].stmts[i].lhs.kind.name, arrays, addr) && Tracks(p, rd, wr)
    requires Kept(p0, p, moves, arrays, addr, fold, exact)
    ensures var q := p[k := Inlined(p[k], i, site, fold)];
            TidyProgram(q) && Tracks(q, rd, wr) && Kept(p0, q, moves + [Move(k, i, site)], arrays, addr, fold, exact)
  {
    ghost var q := p[k := Inlined(p[k], i, site, fold)];
    ghost var mv := Move(k, i, site);
    hide Movable, Inlined, TidyProgram, FoldAddsNoReads, FoldAddsNothing, TotalReads, TotalWrites, CountOf, Fragment,
      AllRunsKept, SafeMove, AllSafe, Made, AddressesIn, Offered, Ordered, AllOrdered;
    TidyKept(p, k, i, site, fold);
    forall y {:trigger TotalWrites(q, y)}
      ensures (TotalReads(q, y) <= CountOf(rd, y) && TotalWrites(q, y) == CountOf(wr, y)) || TotalWrites(q, y) == 0
    {
      assert TotalWrites(p, y) == TotalWrites(p, y);
      CountsAfterMove(p, k, i, site, fold, y);
    }
    OfferedHere(p, k, i, site, arrays, addr);
    InlinedKeeps(p[k], i, site, addr, fold);
    assert Possible(p, mv) && After(p, mv, fold) == q;
    OneMoreMove(p0, moves, fold, addr, p, mv);
    MoveIsOrdered(p, mv, fold, arrays, addr);
    OneMoreOrdered(p0, moves, fold, arrays, addr, p, mv);
    if AllSafe(p0, moves + [mv], fold, addr) {
      MoveKeepsRuns(p0, p, k, i, site, fold, arrays, addr);
    }
    if Fragment(p0, arrays, addr, exact) {
      FragmentKept(p, k, i, site, fold, arrays, addr, exact);
    }
  }

  /** The same for the definition that one step of the pass has picked. */
  lemma WantedKeeps(p0: Program, p: Program, moves: seq<Move>, k: nat, i: nat, site: Site, fold: Expr -> Expr,
                    arrays: set<string>, addr: set<string>, exact: bool, rd: Tally, wr: Tally)
    requires k < |p| && Movable(p[k], i, site) && Wanted(p[k].stmts[i], arrays, addr, rd, wr)
    requires TidyProgram(p) && Folds(fold, exact) && Tracks(p, rd, wr)
    requires Kept(p0, p, moves, arrays, addr, fold, exact)
    ensures var q := p[k := Inlined(p[k], i, site, fold)];
            TidyProgram(q) && Tracks(q, rd, wr) && Kept(p0, q, moves + [Move(k, i, site)], arrays, addr, fold, exact)
  {
    WantedDefines(p[k].stmts[i], arrays, addr, rd, wr);
    hide *;
    WantedIsCandidate(p, k, i, site, arrays, addr, rd, wr);
    InliningKeeps(p0, p, moves, k, i, site, fold, arrays, addr, exact, rd, wr);
  }

  /** Every definition the pass may come to move is one it may move. */
  ghost predicate AllPortable(p: Program, arrays: set<string>, exact: bool) {
    forall k :: 0 <= k < |p| ==> PortableDefs(p, p[k], arrays, AddrTaken(p), exact)
  }

  lemma AddressesOf(p: Program, k: nat)
    requires k < |p|
    ensures AddressesIn(p[k], AddrTaken(p))
  {
    hide AddrTaken, AddrTakenStmts, AddrTakenIn;
    AddrTakenCovers(p, k);
    forall j | 0 <= j < |p[k].stmts| ensures StmtAddr(p[k].stmts[j]) <= AddrTaken(p) {
      StmtAddrCovered(p[k].stmts, j);
    }
  }

  lemma WholeFragment(p: Program, arrays: set<string>, exact: bool)
    ensures Fragment(p, arrays, AddrTaken(p), exact) <==> AllPortable(p, arrays, exact)
  {
    hide AddrTaken, PortableDefs, AddressesIn;
    forall k | 0 <= k < |p| ensures AddressesIn(p[k], AddrTaken(p)) {
      AddressesOf(p, k);
    }
  }

  class Pass {
    var blocks: Program
    var arrayLocals: set<string>

    constructor (p: Program, arrays: set<string>)
      ensures blocks == p && arrayLocals == arrays
    {
      blocks, arrayLocals := p, arrays;
    }

    /** The first later statement that reads the variable, or -1. */
    method FindReader(ss: seq<Stmt>, i: nat, x: string) returns (use: int)
      requires i < |ss|
      ensures use < 0 ==> use == -1 && Unread(ss, x, i, |ss|)
      ensures use >= 0 ==> i < use < |ss| && StmtReads(ss[use], x) > 0 && Unread(ss, x, i, use)
    {
      hide StmtReads;
      var j := i + 1;
      use := -1;
      while j < |ss|
        invariant i < j <= |ss| && Unread(ss, x, i, j)
      {
        if StmtReads(ss[j], x) > 0 {
          use := j;
          return;
        }
        j := j + 1;
      }
    }

    /** The hazard scan over the statements strictly between. */
    method FindHazard(ss: seq<Stmt>, val: Expr, i: nat, end: nat, terminal: bool) returns (hazard: bool)
      requires i < end <= |ss|
      ensures hazard <==> !Clear(ss, val, i, end, terminal)
    {
      hide Passes;
      hazard := false;
      var j := i + 1;
      while j < end
        invariant i < j <= end && Clear(ss, val, i, j, terminal)
      {
        if !Passes(ss[j], val, terminal) {
          return true;
        }
        j := j + 1;
      }
    }

    /** Where the definition at `i` can be moved, if the scans allow it. */
    method FindSite(b: Block, i: nat) returns (found: bool, site: Site)
      requires i < |b.stmts| && b.stmts[i].Defines()
      ensures found ==> Movable(b, i, site)
      ensures !found ==> forall s :: !Movable(b, i, s)
    {
      var x, val := b.stmts[i].lhs.kind.name, b.stmts[i].rhs;
      var use := FindReader(b.stmts, i, x);
      hide Passes, CallsNest, CallsNestAtExit, StmtReads, Clear, CountReads;
      if use < 0 {
        site := ExitSite(b, x);
        if site.InStmt? {
          found := false;
        } else if !CallsNestAtExit(FieldAt(b, site), x, val) {
          found := false;
        } else {
          var hazard := FindHazard(b.stmts, val, i, |b.stmts|, true);
          found := !hazard;
        }
      } else {
        site := InStmt(use);
        if !CallsNest(b.stmts[use], x, val) {
          found := false;
        } else {
          var hazard := FindHazard(b.stmts, val, i, use, false);
          found := !hazard;
        }
      }
    }

    /** One block: the first definition that can be moved is moved, and no more. */
    method PropagateBlock(k: nat, addr: set<string>, rd: Tally, wr: Tally, fold: Expr -> Expr)
      returns (changed: bool, ghost at: nat, ghost site: Site)
      requires k < |blocks|
      modifies this`blocks
      ensures !changed ==> blocks == old(blocks) && Idle(blocks[k], arrayLocals, addr, rd, wr, |blocks[k].stmts|)
      ensures changed ==>
                && at < |old(blocks[k]).stmts| && Wanted(old(blocks[k]).stmts[at], arrayLocals, addr, rd, wr)
                && Movable(old(blocks[k]), at, site) && Idle(old(blocks[k]), arrayLocals, addr, rd, wr, at)
                && blocks == old(blocks)[k := Inlined(old(blocks[k]), at, site, fold)]
    {
      hide Movable, Wanted, Inlined;
      var b := blocks[k];
      changed, at, site := false, 0, InStmt(0);
      var i := 0;
      while i < |b.stmts|
        invariant 0 <= i <= |b.stmts| && Idle(b, arrayLocals, addr, rd, wr, i)
        invariant blocks == old(blocks)
      {
        if Wanted(b.stmts[i], arrayLocals, addr, rd, wr) {
          WantedDefines(b.stmts[i], arrayLocals, addr, rd, wr);
          var found, s := FindSite(b, i);
          if found {
            blocks := blocks[k := Inlined(b, i, s, fold)];
            changed, at, site := true, i, s;
            return;
          }
        }
        i := i + 1;
      }
    }

    /**
      The pass, at most eight rounds.  It says which moves it has made.  If each of them was
      safe where it was made, every run is left as it was, for every machine whose memory
      operations reach no more than the address-taken variables; in the fragment each of
      them is.  Whatever is moved, call results are not moved past other calls, but for reads
      in the arguments of an intrinsic.  When the pass says it is finished, no definition is
      left that the scan would let pass, and each that is used once stays for a reason in
      the text; it is finished, unless each of the eight rounds has made a
      move, or each of those for which there was time (`budget`).  With a fold that keeps all
      reads (`exact`) the fragment restricts single-read definitions only, otherwise every
      definition of a variable written once.
    */
    method CopyPropagate(fold: Expr -> Expr, budget: nat, ghost exact: bool)
      returns (finished: bool, ghost moves: seq<Move>)
      requires TidyProgram(blocks) && Folds(fold, exact)
      modifies this`blocks
      ensures |blocks| == |old(blocks)| && TidyProgram(blocks)
      ensures Made(old(blocks), moves, fold, blocks)
      ensures AllSafe(old(blocks), moves, fold, AddrTaken(old(blocks))) ==>
                forall m: Machine {:trigger SameRuns(m, old(blocks), blocks)} ::
                  m.aliased <= AddrTaken(old(blocks)) && FoldKeepsValue(m, fold) ==> SameRuns(m, old(blocks), blocks)
      ensures AllPortable(old(blocks), arrayLocals, exact) ==> AllSafe(old(blocks), moves, fold, AddrTaken(old(blocks)))
      ensures AllOrdered(old(blocks), moves, fold, arrayLocals, AddrTaken(old(blocks)))
      ensures finished || |moves| >= 8 || |moves| >= budget
      ensures finished ==>
                forall k: nat, i: nat, site {:trigger Movable(blocks[k], i, site)} ::
                  k < |blocks| && Movable(blocks[k], i, site) ==>
                  !Candidate(blocks, blocks[k].stmts[i].lhs.kind.name, arrayLocals, AddrTaken(old(blocks)))
      ensures finished ==> AllHeld(blocks, arrayLocals, AddrTaken(old(blocks)))
    {
      var addr := AddrTaken(blocks);
      var changed, guard := true, 0;
      finished := false;
      ghost var p0 := blocks;
      moves := [];
      NothingMoved(p0, arrayLocals, fold, exact);
      while changed && guard < 8
        invariant |blocks| == |p0| && TidyProgram(blocks) && Kept(p0, blocks, moves, arrayLocals, addr, fold, exact)
        invariant !changed ==> AllIdle(blocks, arrayLocals, addr)
        invariant !finished && (changed ==> |moves| >= guard)
        decreases 8 - guard
      {
        if guard >= budget {
          break;
        }
        guard := guard + 1;
        changed, moves := Round(p0, moves, addr, fold, exact);
      }
      finished := !changed;
      if finished {
        IdleIsHeld(blocks, arrayLocals, addr);
      }
      WholeFragment(p0, arrayLocals, exact);
    }

    /** One block in a round, and what the pass goes on to keep. */
    method RoundBlock(ghost p0: Program, ghost moves0: seq<Move>, k: nat, addr: set<string>, rd: Tally, wr: Tally,
                      fold: Expr -> Expr, ghost exact: bool)
      returns (changed: bool, ghost moves: seq<Move>)
      requires k < |blocks| && TidyProgram(blocks) && Folds(fold, exact) && Tracks(blocks, rd, wr)
      requires Kept(p0, blocks, moves0, arrayLocals, addr, fold, exact)
      modifies this`blocks
      ensures |blocks| == |old(blocks)| && TidyProgram(blocks) && Tracks(blocks, rd, wr)
      ensures Kept(p0, blocks, moves, arrayLocals, addr, fold, exact)
      ensures |moves| == |moves0| + if changed then 1 else 0
      ensures !changed ==> blocks == old(blocks) && Idle(blocks[k], arrayLocals, addr, rd, wr, |blocks[k].stmts|)
    {
      ghost var p := blocks;
      ghost var at, site;
      hide *;
      changed, at, site := PropagateBlock(k, addr, rd, wr, fold);
      moves := moves0;
      if changed {
        WantedKeeps(p0, p, moves, k, at, site, fold, arrayLocals, addr, exact, rd, wr);
        moves := moves + [Move(k, at, site)];
      }
    }

    /** One round with the counts as the round found them. */
    method Round(ghost p0: Program, ghost moves0: seq<Move>, addr: set<string>, fold: Expr -> Expr, ghost exact: bool)
      returns (changed: bool, ghost moves: seq<Move>)
      requires TidyProgram(blocks) && Folds(fold, exact) && Kept(p0, blocks, moves0, arrayLocals, addr, fold, exact)
      modifies this`blocks
      ensures |blocks| == |old(blocks)| && TidyProgram(blocks) &&
              Kept(p0, blocks, moves, arrayLocals, addr, fold, exact)
      ensures |moves| >= |moves0| + if changed then 1 else 0
      ensures !changed ==> blocks == old(blocks) && AllIdle(blocks, arrayLocals, addr)
    {
      hide *;
      var rd, wr := Snapshot(blocks);
      SnapshotTracks(blocks, rd, wr);
      ghost var start := blocks;
      changed, moves := false, moves0;
      NothingIdleYet(start, arrayLocals, addr, rd, wr);
      var k := 0;
      while k < |blocks|
        invariant 0 <= k <= |blocks| == |start|
        invariant TidyProgram(blocks) && Tracks(blocks, rd, wr) &&
                  Kept(p0, blocks, moves, arrayLocals, addr, fold, exact)
        invariant !changed ==> blocks == start
        invariant |moves| >= |moves0| + if changed then 1 else 0
        invariant !changed ==> IdleBelow(start, k, arrayLocals, addr, rd, wr)
      {
        var c;
        c, moves := RoundBlock(p0, moves, k, addr, rd, wr, fold, exact);
        changed := changed || c;
        if !changed {
          IdleOneMore(start, k, arrayLocals, addr, rd, wr);
        }
        k := k + 1;
      }
      if !changed {
        EveryBlockIdle(start, arrayLocals, addr, rd, wr);
      }
    }
  }

  lemma NothingMoved(p: Program, arrays: set<string>, fold: Expr -> Expr, exact: bool)
    ensures Kept(p, p, [], arrays, AddrTaken(p), fold, exact)
  {
    forall k | 0 <= k < |p| ensures AddressesIn(p[k], AddrTaken(p)) {
      AddressesOf(p, k);
    }
  }

  lemma WantedDefines(s: Stmt, arrays: set<string>, addr: set<string>, rd: Tally, wr: Tally)
    requires Wanted(s, arrays, addr, rd, wr)
    ensures s.Defines() && s.lhs.Node? && s.lhs.kind.Var?
  {
  }

  /** The tallies are the counts of the function. */
  ghost predicate Snapped(p: Program, rd: Tally, wr: Tally) {
    forall x {:trigger TotalWrites(p, x)} :: TotalReads(p, x) == CountOf(rd, x) && TotalWrites(p, x) == CountOf(wr, x)
  }

  lemma SnapshotTracks(p: Program, rd: Tally, wr: Tally)
    requires TalliesAre(rd, wr, x => TotalReads(p, x), x => TotalWrites(p, x))
    ensures Snapped(p, rd, wr) && Tracks(p, rd, wr)
  {
    hide TotalReads, TotalWrites;
    forall x {:trigger TotalWrites(p, x)}
      ensures TotalReads(p, x) == CountOf(rd, x) && TotalWrites(p, x) == CountOf(wr, x)
    {
      assert CountOf(rd, x) == (x => TotalReads(p, x))(x);
    }
  }

  /** No definition anywhere can be moved. */
  ghost predicate AllIdle(p: Program, arrays: set<string>, addr: set<string>) {
    forall k: nat, i: nat, site {:trigger Movable(p[k], i, site)} :: k < |p| && Movable(p[k], i, site) ==>
      !Candidate(p, p[k].stmts[i].lhs.kind.name, arrays, addr)
  }

  lemma IdleIsHeld(p: Program, arrays: set<string>, addr: set<string>)
    requires AllIdle(p, arrays, addr)
    ensures AllHeld(p, arrays, addr)
  {
    forall k: nat, i: nat | UsedOnce(p, k, i, arrays, addr) ensures Held(p[k], i) {
      CandidateIs(p, k, i, arrays, addr);
      hide Movable, Candidate, Held, TotalReads, TotalWrites, Spared;
      StaysForAReason(p[k], i);
    }
  }

  /** The first `k` blocks offer nothing to move. */
  ghost predicate IdleBelow(p: Program, k: nat, arrays: set<string>, addr: set<string>, rd: Tally, wr: Tally) {
    k <= |p| && forall j :: 0 <= j < k ==> Idle(p[j], arrays, addr, rd, wr, |p[j].stmts|)
  }

  lemma NothingIdleYet(p: Program, arrays: set<string>, addr: set<string>, rd: Tally, wr: Tally)
    ensures IdleBelow(p, 0, arrays, addr, rd, wr)
  {
  }

  lemma IdleOneMore(p: Program, k: nat, arrays: set<string>, addr: set<string>, rd: Tally, wr: Tally)
    requires IdleBelow(p, k, arrays, addr, rd, wr) && k < |p| && Idle(p[k], arrays, addr, rd, wr, |p[k].stmts|)
    ensures IdleBelow(p, k + 1, arrays, addr, rd, wr)
  {
    hide Idle;
  }

  lemma EveryBlockIdle(p: Program, arrays: set<string>, addr: set<string>, rd: Tally, wr: Tally)
    requires Snapped(p, rd, wr) && IdleBelow(p, |p|, arrays, addr, rd, wr)
    ensures AllIdle(p, arrays, addr)
  {
    forall k: nat, i: nat, site {:trigger Movable(p[k], i, site)} | k < |p| && Movable(p[k], i, site)
      ensures !Candidate(p, p[k].stmts[i].lhs.kind.name, arrays, addr)
    {
      assert i < |p[k].stmts| && p[k].stmts[i].Defines();
      ghost var x := p[k].stmts[i].lhs.kind.name;
      hide Movable, TotalReads, TotalWrites, CountOf;
      assert Idle(p[k], arrays, addr, rd, wr, |p[k].stmts|);
      assert TotalWrites(p, x) == CountOf(wr, x) && TotalReads(p, x) == CountOf(rd, x);
    }
  }
}
