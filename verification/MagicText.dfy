/**
  When the temps that a recognised division is looked through still hold their definitions,
  read off the text: the temp is defined in the block, and nothing from there to the fold
  assigns it, a variable its definition reads, or the memory its definition depends on.
*/
module MagicText {
  import opened IR
  import opened InlineCounts
  import opened Moving
  import opened WordOps
  import MagicMatch
  import opened MagicFold
  import opened MagicDivision
  import opened MagicModulo

  // ---------- the temps ----------

  /** Some assignment of the function gives `x` the value of `e`. */
  ghost predicate DefinedAs(p: Program, x: string, e: Expr) {
    exists k, i :: DefinedAt(p, k, i, x, e)
  }

  predicate DefinedAt(p: Program, k: int, i: int, x: string, e: Expr) {
    && 0 <= k < |p| && 0 <= i < |p[k].stmts| && p[k].stmts[i].DefinesVar(x) && p[k].stmts[i].rhs == e
  }

  lemma OneWriteInBlock(ss: seq<Stmt>, x: string, i: nat)
    requires i < |ss| && ss[i].DefinesVar(x)
    ensures StmtsWrites(ss, x) >= 1
  {
    StmtsErased(ss, i, x);
  }

  /** A variable written once has one definition. */
  lemma SoleDefinition(p: Program, x: string, k: int, i: int, e: Expr, k': int, i': int, e': Expr)
    requires TotalWrites(p, x) == 1 && DefinedAt(p, k, i, x, e) && DefinedAt(p, k', i', x, e')
    ensures k == k' && i == i' && e == e'
  {
    OneWriteInBlock(p[k].stmts, x, i);
    OneWriteInBlock(p[k'].stmts, x, i');
    if k != k' {
      OtherBlockReads(p, x, k, k');
    } else {
      TotalsAt(p, x, k);
      if i < i' {
        TwoReads(p[k].stmts, x, i, i');
      } else if i' < i {
        TwoReads(p[k].stmts, x, i', i);
      }
    }
  }

  /** What makes a definition one to look through: `barred` are the address-taken and the array names. */
  predicate Peekable(s: Stmt, writes: Tally, barred: set<string>) {
    && s.Defines() && s.rhs.Node? && !HasCall(s.rhs)
    && CountOf(writes, s.lhs.kind.name) == 1 && s.lhs.kind.name !in barred
  }

  ghost predicate Collected(p: Program, writes: Tally, barred: set<string>, k: int, i: int, x: string, e: Expr) {
    DefinedAt(p, k, i, x, e) && Peekable(p[k].stmts[i], writes, barred)
  }

  /** The map after the blocks before `k` and the statements before `i` of block `k`. */
  ghost predicate UpTo(p: Program, writes: Tally, barred: set<string>, k: int, i: int, defs: map<string, Expr>) {
    && (forall x :: x in defs ==>
          exists k', i' :: (k' < k || (k' == k && i' < i)) && Collected(p, writes, barred, k', i', x, defs[x]))
    && (forall k', i', x, e :: (k' < k || (k' == k && i' < i)) && Collected(p, writes, barred, k', i', x, e) ==>
        x in defs)
  }

  lemma UpToNext(p: Program, writes: Tally, barred: set<string>, k: int, i: int, defs: map<string, Expr>)
    requires 0 <= k < |p| && 0 <= i < |p[k].stmts| && UpTo(p, writes, barred, k, i, defs)
    ensures var s := p[k].stmts[i];
            UpTo(p, writes, barred, k, i + 1,
                if Peekable(s, writes, barred) then defs[s.lhs.kind.name := s.rhs] else defs)
  {
    ghost var s := p[k].stmts[i];
    hide Peekable;
    if Peekable(s, writes, barred) {
      PeekableDefines(s, writes, barred);
      ghost var after := defs[s.lhs.kind.name := s.rhs];
      assert Collected(p, writes, barred, k, i, s.lhs.kind.name, s.rhs);
      forall x | x in after
        ensures exists k', i' ::
                  (k' < k || (k' == k && i' < i + 1)) && Collected(p, writes, barred, k', i', x, after[x])
      {
        if x != s.lhs.kind.name {
          ghost var k', i' :| (k' < k || (k' == k && i' < i)) && Collected(p, writes, barred, k', i', x, defs[x]);
        }
      }
    } else {
      forall x | x in defs
        ensures exists k', i' :: (k' < k || (k' == k && i' < i + 1)) && Collected(p, writes, barred, k', i', x, defs[x])
      {
        ghost var k', i' :| (k' < k || (k' == k && i' < i)) && Collected(p, writes, barred, k', i', x, defs[x]);
      }
    }
  }

  lemma PeekableDefines(s: Stmt, writes: Tally, barred: set<string>)
    requires Peekable(s, writes, barred)
    ensures s.Defines() && s.lhs.Node? && s.lhs.kind.Var?
  {
  }

  lemma UpToBlockEnd(p: Program, writes: Tally, barred: set<string>, k: int, defs: map<string, Expr>)
    requires 0 <= k < |p| && UpTo(p, writes, barred, k, |p[k].stmts|, defs)
    ensures UpTo(p, writes, barred, k + 1, 0, defs)
  {
    hide Peekable;
    forall x | x in defs
      ensures exists k', i' ::
                (k' < k + 1 || (k' == k + 1 && i' < 0)) && Collected(p, writes, barred, k', i', x, defs[x])
    {
      ghost var k', i' :|
        (k' < k || (k' == k && i' < |p[k].stmts|)) && Collected(p, writes, barred, k', i', x, defs[x]);
    }
  }

  /** The definitions of the variables written once, call-free, in no array and never address-taken. */
  ghost predicate AreTemps(p: Program, arrays: set<string>, defs: map<string, Expr>) {
    && (forall x :: x in defs ==> TempOf(p, arrays, x, defs[x]))
    && (forall x, e :: TempOf(p, arrays, x, e) ==> x in defs)
  }

  ghost predicate TempOf(p: Program, arrays: set<string>, x: string, e: Expr) {
    && TotalWrites(p, x) == 1 && DefinedAs(p, x, e) && e.Node? && !HasCall(e)
    && x !in AddrTaken(p) && x !in arrays
  }

  lemma CollectedIffTemp(p: Program, arrays: set<string>, writes: Tally, x: string, e: Expr)
    requires forall y :: CountOf(writes, y) == TotalWrites(p, y)
    ensures (exists k, i :: Collected(p, writes, AddrTaken(p) + arrays, k, i, x, e)) <==> TempOf(p, arrays, x, e)
  {
    hide TotalWrites, CountOf, AddrTaken, HasCall;
    if TempOf(p, arrays, x, e) {
      ghost var k, i :| DefinedAt(p, k, i, x, e);
      assert Collected(p, writes, AddrTaken(p) + arrays, k, i, x, e);
    }
  }

  lemma CollectedAll(p: Program, arrays: set<string>, writes: Tally, defs: map<string, Expr>)
    requires forall y :: CountOf(writes, y) == TotalWrites(p, y)
    requires UpTo(p, writes, AddrTaken(p) + arrays, |p|, 0, defs)
    ensures AreTemps(p, arrays, defs)
  {
    hide Peekable, TempOf, CountOf, TotalWrites;
    forall x | x in defs ensures TempOf(p, arrays, x, defs[x]) {
      CollectedIffTemp(p, arrays, writes, x, defs[x]);
    }
    forall x, e | TempOf(p, arrays, x, e) ensures x in defs {
      CollectedIffTemp(p, arrays, writes, x, e);
      ghost var k, i :| Collected(p, writes, AddrTaken(p) + arrays, k, i, x, e);
      assert k < |p|;
    }
  }

  /** `md_build_defs`: exactly the temps, each with its one definition. */
  method MdBuildDefs(p: Program, arrays: set<string>) returns (defs: map<string, Expr>)
    ensures AreTemps(p, arrays, defs)
  {
    hide *;
    var addr := AddrTaken(p);
    var rd, writes := Snapshot(p);
    WritesCounted(p, rd, writes);
    defs := map[];
    NothingYet(p, writes, addr + arrays);
    var k := 0;
    while k < |p|
      invariant 0 <= k <= |p| && UpTo(p, writes, addr + arrays, k, 0, defs)
    {
      var i := 0;
      while i < |p[k].stmts|
        invariant 0 <= i <= |p[k].stmts| && UpTo(p, writes, addr + arrays, k, i, defs)
      {
        var s := p[k].stmts[i];
        UpToNext(p, writes, addr + arrays, k, i, defs);
        if Peekable(s, writes, addr + arrays) {
          PeekableDefines(s, writes, addr + arrays);
          defs := defs[s.lhs.kind.name := s.rhs];
        }
        i := i + 1;
      }
      UpToBlockEnd(p, writes, addr + arrays, k, defs);
      k := k + 1;
    }
    CollectedAll(p, arrays, writes, defs);
  }

  lemma WritesCounted(p: Program, rd: Tally, writes: Tally)
    requires TalliesAre(rd, writes, x => TotalReads(p, x), x => TotalWrites(p, x))
    ensures forall y :: CountOf(writes, y) == TotalWrites(p, y)
  {
    hide TotalReads, TotalWrites, CountOf;
  }

  lemma NothingYet(p: Program, writes: Tally, barred: set<string>)
    ensures UpTo(p, writes, barred, 0, 0, map[])
  {
    hide Peekable;
  }

  // ---------- from the text to the run ----------

  /** The statement may change `x`, or the value of its definition `def`. */
  predicate Disturbs(s: Stmt, x: string, def: Expr, addr: set<string>) {
    s.DefinesVar(x) || DisturbsOperands(s, def, addr)
  }

  /** The statement may change the value of the definition. */
  predicate DisturbsOperands(s: Stmt, def: Expr, addr: set<string>) {
    || (s.Defines() && s.lhs.kind.name in Reads(def))
    || (!Free(def, addr) && Writes(s, addr))
  }

  /** The statement may change memory: a call, a store, or an assignment to an address-taken variable. */
  predicate Writes(s: Stmt, addr: set<string>) {
    || HasImpureCall(s.rhs)
    || (s.kind.Assign? && s.lhs.IsMem())
    || (s.Defines() && s.lhs.kind.name in addr)
  }

  /** The definition at `i`, undisturbed up to `k`. */
  predicate HeldFrom(ss: seq<Stmt>, i: int, k: int, x: string, def: Expr, addr: set<string>) {
    && 0 <= i < k <= |ss| && ss[i].DefinesVar(x) && ss[i].rhs == def
    && x !in addr && x !in Reads(def) && IsValue(def) && !HasImpureCall(def)
    && forall j :: i < j < k ==> !Disturbs(ss[j], x, def, addr)
  }

  /**
    Of a collected temp with its definition in the block nothing else is asked than that it
    is not one of its own operands, and nothing since disturbs the operands.
  */
  lemma TempHeldExactly(p: Program, arrays: set<string>, defs: map<string, Expr>, b: int, i: int, k: int, x: string)
    requires AreTemps(p, arrays, defs) && x in defs
    requires 0 <= b < |p| && 0 <= i < k <= |p[b].stmts| && p[b].stmts[i].DefinesVar(x)
    ensures HeldFrom(p[b].stmts, i, k, x, defs[x], AddrTaken(p))
            <==> && x !in Reads(defs[x]) && IsValue(defs[x])
                 && forall j :: i < j < k ==> !DisturbsOperands(p[b].stmts[j], defs[x], AddrTaken(p))
  {
    hide DisturbsOperands, TotalWrites, Reads, IsValue, AddrTaken, HasCall, HasImpureCall;
    ghost var ss, def := p[b].stmts, defs[x];
    assert TempOf(p, arrays, x, def);
    CallsCoverImpureCalls(def);
    ghost var b', i' :| DefinedAt(p, b', i', x, def);
    assert DefinedAt(p, b, i, x, ss[i].rhs);
    SoleDefinition(p, x, b, i, ss[i].rhs, b', i', def);
    forall j | i < j < k ensures !ss[j].DefinesVar(x) {
      if ss[j].DefinesVar(x) {
        assert DefinedAt(p, b, j, x, ss[j].rhs);
        SoleDefinition(p, x, b, j, ss[j].rhs, b', i', def);
      }
    }
  }

  ghost predicate Held(ss: seq<Stmt>, k: int, x: string, def: Expr, addr: set<string>) {
    exists i :: HeldFrom(ss, i, k, x, def, addr)
  }

  /** Every temp of interest is defined in the block and undisturbed since. */
  ghost predicate TextCurrent(ss: seq<Stmt>, k: int, temps: Temps, names: set<string>, addr: set<string>) {
    forall x :: x in names && x in temps.defs ==>
      Built(temps.defs[x]) && Reads(temps.defs[x]) <= names && Held(ss, k, x, temps.defs[x], addr)
  }

  ghost predicate HoldsNow(m: Machine, x: string, def: Expr, st: State) {
    Eval(m, def, st.env, st.w) == Out([Lookup(st.env, x)], st.w)
  }

  lemma DefinitionHolds(m: Machine, s: Stmt, x: string, st: State)
    requires s.DefinesVar(x) && x !in m.aliased && x !in Reads(s.rhs) && IsValue(s.rhs) && !HasImpureCall(s.rhs)
    ensures HoldsNow(m, x, s.rhs, ExecStmt(m, s, st))
  {
    PureKeepsWorld(m, s.rhs, st.env, st.w);
    AValueIsAWord(m, s.rhs, st.env, st.w);
    ghost var v := Word(Eval(m, s.rhs, st.env, st.w).val);
    OtherWritten(m, s.rhs, x, v, st.env, st.w);
    assert ExecStmt(m, s, st) == State(st.env[x := v], st.w) by { hide Eval; }
    hide Eval, ExecStmt;
  }

  /** What a statement that does not write leaves of the world. */
  lemma QuietStep(m: Machine, s: Stmt, addr: set<string>, st: State)
    requires !Writes(s, addr) && m.aliased <= addr
    ensures ExecStmt(m, s, st).w == st.w
  {
    PureKeepsWorld(m, s.rhs, st.env, st.w);
    hide Eval, HasImpureCall;
  }

  lemma StepEnv(m: Machine, s: Stmt, st: State) returns (v: int)
    ensures var t := ExecStmt(m, s, st);
            t.env == st.env || (s.Defines() && t.env == st.env[s.lhs.kind.name := v])
  {
    v := Word(Eval(m, s.rhs, st.env, st.w).val);
    hide Eval;
  }

  lemma StepHolds(m: Machine, s: Stmt, x: string, def: Expr, addr: set<string>, st: State)
    requires !Disturbs(s, x, def, addr) && m.aliased <= addr && HoldsNow(m, x, def, st)
    ensures HoldsNow(m, x, def, ExecStmt(m, s, st))
  {
    ghost var t := ExecStmt(m, s, st);
    ghost var v := StepEnv(m, s, st);
    hide ExecStmt, Eval, Reads, HasImpureCall, ReadsMem;
    if t.env != st.env {
      OtherWritten(m, def, s.lhs.kind.name, v, st.env, st.w);
    }
    if Free(def, addr) {
      FreeOfLess(def, addr, m.aliased);
      FreeValue(m, def, t.env, st.w, t.w);
      FreeValue(m, def, t.env, t.w, st.w);
    } else {
      QuietStep(m, s, addr, st);
    }
  }

  lemma {:induction false} ExecHolds(m: Machine, ss: seq<Stmt>, x: string, def: Expr, addr: set<string>, st: State)
    requires m.aliased <= addr && HoldsNow(m, x, def, st)
    requires forall j :: 0 <= j < |ss| ==> !Disturbs(ss[j], x, def, addr)
    ensures HoldsNow(m, x, def, Exec(m, ss, st))
  {
    hide HoldsNow, Disturbs, ExecStmt;
    if ss == [] {
    } else {
      StepHolds(m, ss[0], x, def, addr, st);
      ExecHolds(m, ss[1..], x, def, addr, ExecStmt(m, ss[0], st));
    }
  }

  lemma ExecSplit(m: Machine, ss: seq<Stmt>, i: nat, k: nat, st: State)
    requires i < k <= |ss|
    ensures Exec(m, ss[..k], st) == Exec(m, ss[i + 1..k], ExecStmt(m, ss[i], Exec(m, ss[..i], st)))
  {
    hide ExecStmt;
    assert ss[..k] == ss[..i] + ([ss[i]] + ss[i + 1..k]);
    ExecInThree(m, ss[..i], [ss[i]], ss[i + 1..k], st);
    ExecOne(m, ss[i], Exec(m, ss[..i], st));
  }

  /** A definition undisturbed in the text holds in every run. */
  lemma HeldHolds(m: Machine, ss: seq<Stmt>, k: nat, x: string, def: Expr, addr: set<string>, st: State)
    requires k <= |ss| && m.aliased <= addr && Held(ss, k, x, def, addr)
    ensures HoldsNow(m, x, def, Exec(m, ss[..k], st))
  {
    ghost var i :| HeldFrom(ss, i, k, x, def, addr);
    hide Disturbs, HoldsNow, Exec, ExecStmt;
    ExecSplit(m, ss, i, k, st);
    ghost var before := Exec(m, ss[..i], st);
    DefinitionHolds(m, ss[i], x, before);
    ExecHolds(m, ss[i + 1..k], x, def, addr, ExecStmt(m, ss[i], before));
  }

  /** The moment before statement `k`, or at the exit when there is none. */
  ghost function PointAt(m: Machine, temps: Temps, names: set<string>, ss: seq<Stmt>, k: nat, st: State): Point
    requires k <= |ss|
  {
    var now := Exec(m, ss[..k], st);
    Point(m, temps, names, now.env, now.w)
  }

  /** What the text says of the temps holds at that moment of every run. */
  lemma CurrentFromText(m: Machine, temps: Temps, names: set<string>, ss: seq<Stmt>, k: nat, addr: set<string>,
          st: State)
    requires Wordwise(m) && m.aliased <= addr && k <= |ss| && TextCurrent(ss, k, temps, names, addr)
    ensures Current(PointAt(m, temps, names, ss, k, st))
  {
    ghost var p := PointAt(m, temps, names, ss, k, st);
    hide Wordwise, Built, Eval, Exec, Reads;
    forall x | x in names && x in temps.defs ensures TempHolds(p, x) {
      HeldHolds(m, ss, k, x, temps.defs[x], addr, st);
      NotAliased(ss, k, x, temps.defs[x], addr);
    }
  }

  lemma NotAliased(ss: seq<Stmt>, k: int, x: string, def: Expr, addr: set<string>)
    requires Held(ss, k, x, def, addr)
    ensures x !in addr
  {
  }

  /**
    The fold of a quotient in a block: whatever the recogniser finds at statement `k` or at
    the exit, the fold has the value of the expression in every run, if the temps are
    current in the text and every node keeps the words it handles.
  */
  lemma FoldInTextKeepsQuotient(m: Machine, temps: Temps, names: set<string>, ss: seq<Stmt>, k: nat, addr: set<string>,
                                st: State, n: Expr, q: Quot, v: int)
    requires Found(n, temps, q) && ShapesTyped(n, temps) && Built(n) && Reads(n) <= names
    requires Wordwise(m) && m.aliased <= addr && k <= |ss| && TextCurrent(ss, k, temps, names, addr)
    requires Dividend(PointAt(m, temps, names, ss, k, st), q.x, v, 8 * q.bytes, q.uns)
    ensures q.d != 0 && SameQuotient(PointAt(m, temps, names, ss, k, st), n, q, v)
  {
    hide Found, ShapesTyped, Dividend, SameQuotient, Current, TextCurrent, Built, Reads, Exec;
    CurrentFromText(m, temps, names, ss, k, addr, st);
    FoldKeepsQuotient(PointAt(m, temps, names, ss, k, st), n, q, v);
  }

  /** The same for a remainder. */
  lemma FoldInTextKeepsRemainder(m: Machine, temps: Temps, names: set<string>, ss: seq<Stmt>, k: nat, addr: set<string>,
                                 st: State, e: Expr, v: int)
    requires MatchModulo(e, temps).Modulo? && ModuloTyped(e, temps) && Built(e) && Reads(e) <= names
    requires Wordwise(m) && m.aliased <= addr && k <= |ss| && TextCurrent(ss, k, temps, names, addr)
    requires var mo := MatchModulo(e, temps);
             && Fit(mo.d, mo.q.width, mo.q.isUnsigned) != 0
             && Gives(PointAt(m, temps, names, ss, k, st), MagicMatch.Strip(mo.q.a, temps), v)
    ensures var mo, p := MatchModulo(e, temps), PointAt(m, temps, names, ss, k, st);
            Gives(p, e, Remainder(mo, v)) && Gives(p, FoldedModulo(mo), Remainder(mo, v))
  {
    hide MatchModulo, Gives, Remainder, FoldedModulo, Current, TextCurrent, Built, Reads, Exec, Fit, MagicMatch.Strip;
    CurrentFromText(m, temps, names, ss, k, addr, st);
    FoldKeepsRemainder(PointAt(m, temps, names, ss, k, st), e, v);
  }
}
