/**
  One step of copy propagation and what it does to the read and write counts.

  A variable written once and read once is replaced, at its one reader, by the expression
  it was given.  The pass counts reads and writes once per round and goes on using those
  counts while it moves definitions; here is why they stay right.
*/
module InlineCounts {
  import opened IR

  // ---------- counting reads and writes ----------

  /** `count_var_reads(rhs)` plus the reads of a memory destination's address. */
  function StmtReads(s: Stmt, x: string): nat {
    CountReads(s.rhs, x) + if s.lhs.IsMem() then CountReads(s.lhs.a, x) else 0
  }

  function StmtsReads(ss: seq<Stmt>, x: string): nat {
    if ss == [] then 0 else StmtReads(ss[0], x) + StmtsReads(ss[1..], x)
  }

  function FieldReads(b: Block, x: string): nat {
    CountReads(b.cond, x) + CountReads(b.retValue, x) + CountReads(b.retRaw, x)
    + CountReads(b.switchVar, x) + CountReads(b.tailCall, x)
  }

  function BlockReads(b: Block, x: string): nat {
    StmtsReads(b.stmts, x) + FieldReads(b, x)
  }

  function TotalReads(p: Program, x: string): nat {
    if p == [] then 0 else BlockReads(p[0], x) + TotalReads(p[1..], x)
  }

  function StmtsWrites(ss: seq<Stmt>, x: string): nat {
    if ss == [] then 0 else (if ss[0].DefinesVar(x) then 1 else 0) + StmtsWrites(ss[1..], x)
  }

  function TotalWrites(p: Program, x: string): nat {
    if p == [] then 0 else StmtsWrites(p[0].stmts, x) + TotalWrites(p[1..], x)
  }

  lemma {:induction false} NotCounted(e: Expr, x: string)
    ensures CountReads(e, x) == 0 <==> x !in Reads(e)
  {
    if e.Null? {
    } else {
      NotCounted(e.a, x);
      NotCounted(e.b, x);
      NotCounted(e.c, x);
      NotCounted(e.args, x);
    }
  }

  lemma {:induction false} StmtsReadsAt(ss: seq<Stmt>, x: string, j: nat)
    requires j < |ss|
    ensures StmtsReads(ss, x) == StmtsReads(ss[..j], x) + StmtReads(ss[j], x) + StmtsReads(ss[j + 1..], x)
  {
    if j == 0 {
    } else {
      StmtsReadsAt(ss[1..], x, j - 1);
      assert ss[..j][1..] == ss[1..][..j - 1] && ss[1..][j..] == ss[j + 1..];
    }
  }

  lemma {:induction false} StmtsReadsAppend(ss: seq<Stmt>, tt: seq<Stmt>, x: string)
    ensures StmtsReads(ss + tt, x) == StmtsReads(ss, x) + StmtsReads(tt, x)
    ensures StmtsWrites(ss + tt, x) == StmtsWrites(ss, x) + StmtsWrites(tt, x)
  {
    if ss == [] {
      assert ss + tt == tt;
    } else {
      assert (ss + tt)[1..] == ss[1..] + tt;
      StmtsReadsAppend(ss[1..], tt, x);
    }
  }

  lemma {:induction false} TotalsAt(p: Program, x: string, i: nat)
    requires i < |p|
    ensures TotalReads(p, x) == TotalReads(p[..i], x) + BlockReads(p[i], x) + TotalReads(p[i + 1..], x)
    ensures TotalWrites(p, x) == TotalWrites(p[..i], x) + StmtsWrites(p[i].stmts, x) + TotalWrites(p[i + 1..], x)
  {
    if i == 0 {
    } else {
      TotalsAt(p[1..], x, i - 1);
      assert p[..i][1..] == p[1..][..i - 1] && p[1..][i..] == p[i + 1..];
    }
  }

  lemma TotalsUpdated(p: Program, x: string, i: nat, b: Block)
    requires i < |p|
    ensures TotalReads(p[i := b], x) == TotalReads(p, x) - BlockReads(p[i], x) + BlockReads(b, x)
    ensures TotalWrites(p[i := b], x) == TotalWrites(p, x) - StmtsWrites(p[i].stmts, x) + StmtsWrites(b.stmts, x)
  {
    ghost var q := p[i := b];
    TotalsAt(p, x, i);
    TotalsAt(q, x, i);
    assert q[..i] == p[..i] && q[i + 1..] == p[i + 1..];
  }

  lemma {:induction false} OtherBlockReads(p: Program, x: string, i: nat, j: nat)
    requires i < |p| && j < |p| && i != j
    ensures BlockReads(p[i], x) + BlockReads(p[j], x) <= TotalReads(p, x)
    ensures StmtsWrites(p[i].stmts, x) + StmtsWrites(p[j].stmts, x) <= TotalWrites(p, x)
  {
    if i < j {
      TotalsAt(p, x, i);
      TotalsAt(p[i + 1..], x, j - i - 1);
    } else {
      TotalsAt(p, x, j);
      TotalsAt(p[j + 1..], x, i - j - 1);
    }
  }

  // ---------- substitution ----------

  /** Every reference to `x` replaced by `val`. */
  function Subst(e: Expr, x: string, val: Expr): Expr {
    match e
    case Null => Null
    case Node(k, w, u, a, b, c, args) =>
      if k == Var(x) then val
      else Node(k, w, u, Subst(a, x, val), Subst(b, x, val), Subst(c, x, val), Subst(args, x, val))
  }

  /** Variable nodes are leaves, as `mkVar` builds them. */
  predicate LeafVars(e: Expr) {
    e.Node? ==> (
      && (e.kind.Var? ==> e.a.Null? && e.b.Null? && e.c.Null? && e.args.Null?)
      && LeafVars(e.a) && LeafVars(e.b) && LeafVars(e.c) && LeafVars(e.args))
  }

  lemma Distribute(a: nat, b: nat, c: nat, d: nat, k: nat)
    ensures (a + b + c + d) * k == a * k + b * k + c * k + d * k
  {
  }

  lemma NullCounts(x: string, val: Expr, y: string)
    ensures CountReads(Null, x) == CountReads(Null, y) == 0 && Subst(Null, x, val) == Null
  {
  }

  lemma CountParts(e: Expr, y: string)
    requires e.Node?
    ensures CountReads(e, y) == (if e.kind == Var(y) then 1 else 0) + CountReads(e.a, y) + CountReads(e.b, y)
                                + CountReads(e.c, y) + CountReads(e.args, y)
  {
  }

  lemma SubstShape(e: Expr, x: string, val: Expr)
    requires e.Node?
    ensures Subst(e, x, val)
            == if e.kind == Var(x) then val
               else Node(e.kind, e.width, e.isUnsigned, Subst(e.a, x, val), Subst(e.b, x, val),
                         Subst(e.c, x, val), Subst(e.args, x, val))
  {
  }

  lemma LeafCounts(e: Expr, y: string)
    requires LeafVars(e) && e.Node?
    ensures LeafVars(e.a) && LeafVars(e.b) && LeafVars(e.c) && LeafVars(e.args)
    ensures e.kind.Var? ==> CountReads(e, y) == if e.kind.name == y then 1 else 0
  {
  }

  /** The reads brought by `n` references. */
  function Brought(n: nat, each: nat): nat {
    n * each
  }

  lemma BroughtAdds(a: nat, b: nat, c: nat, d: nat, each: nat)
    ensures Brought(a + b + c + d, each) == Brought(a, each) + Brought(b, each) + Brought(c, each) + Brought(d, each)
    ensures Brought(0, each) == 0 && Brought(1, each) == each
  {
    Distribute(a, b, c, d, each);
  }

  lemma {:induction false} SubstBrings(e: Expr, x: string, val: Expr, y: string)
    requires LeafVars(e)
    ensures CountReads(Subst(e, x, val), y)
            == (if y == x then 0 else CountReads(e, y)) + Brought(CountReads(e, x), CountReads(val, y))
  {
    hide *;
    ghost var each := CountReads(val, y);
    BroughtAdds(0, 0, 0, 0, each);
    if e.Null? {
      NullCounts(x, val, y);
    } else {
      LeafCounts(e, x);
      LeafCounts(e, y);
      SubstShape(e, x, val);
      if e.kind != Var(x) {
        ghost var n := Subst(e, x, val);
        CountParts(e, x);
        CountParts(e, y);
        CountParts(n, y);
        SubstBrings(e.a, x, val, y);
        SubstBrings(e.b, x, val, y);
        SubstBrings(e.c, x, val, y);
        SubstBrings(e.args, x, val, y);
        BroughtAdds(CountReads(e.a, x), CountReads(e.b, x), CountReads(e.c, x), CountReads(e.args, x), each);
      }
    }
  }

  /** Substitution moves the counts: each replaced reference brings the reads of its value. */
  lemma SubstCounts(e: Expr, x: string, val: Expr, y: string)
    requires LeafVars(e)
    ensures CountReads(Subst(e, x, val), y)
            == (if y == x then 0 else CountReads(e, y)) + CountReads(e, x) * CountReads(val, y)
  {
    SubstBrings(e, x, val, y);
    hide CountReads, Subst, LeafVars;
  }

  lemma {:induction false} SubstLeaves(e: Expr, x: string, val: Expr)
    requires LeafVars(e) && LeafVars(val)
    ensures LeafVars(Subst(e, x, val))
  {
    if e.Node? && e.kind != Var(x) {
      SubstLeaves(e.a, x, val);
      SubstLeaves(e.b, x, val);
      SubstLeaves(e.c, x, val);
      SubstLeaves(e.args, x, val);
    }
  }

  /** What substitution cannot bring in unless its value does. */
  lemma {:induction false} SubstKeeps(e: Expr, x: string, val: Expr)
    ensures HasImpureCall(Subst(e, x, val)) ==> HasImpureCall(e) || HasImpureCall(val)
    ensures ReadsMem(Subst(e, x, val)) ==> ReadsMem(e) || ReadsMem(val)
  {
    hide IsPureCallee;
    if e.Node? && e.kind != Var(x) {
      SubstKeeps(e.a, x, val);
      SubstKeeps(e.b, x, val);
      SubstKeeps(e.c, x, val);
      SubstKeeps(e.args, x, val);
    }
  }

  lemma SubstReads(e: Expr, x: string, val: Expr)
    requires LeafVars(e)
    ensures Reads(Subst(e, x, val)) <= Reads(e) + Reads(val)
  {
    hide Reads, CountReads, Subst;
    forall y | y in Reads(Subst(e, x, val)) ensures y in Reads(e) + Reads(val) {
      NotCounted(Subst(e, x, val), y);
      NotCounted(e, y);
      NotCounted(val, y);
      SubstCounts(e, x, val, y);
    }
  }

  /** Nor an address-of node, as long as the variable itself is not under one. */
  lemma {:induction false} SubstAddresses(e: Expr, x: string, val: Expr, y: string)
    requires x !in AddrTakenIn(e) && y in AddrTakenIn(Subst(e, x, val))
    ensures y in AddrTakenIn(e) || y in AddrTakenIn(val)
  {
    if e.Node? && e.kind != Var(x) {
      ghost var n := Subst(e, x, val);
      hide Subst;
      if n.kind.AddrOf? && n.a.IsVar() && n.a.kind.name == y {
        AddressLeaf(e.a, x, val);
      } else if y in AddrTakenIn(n.a) {
        SubstAddresses(e.a, x, val, y);
      } else if y in AddrTakenIn(n.b) {
        SubstAddresses(e.b, x, val, y);
      } else if y in AddrTakenIn(n.c) {
        SubstAddresses(e.c, x, val, y);
      } else {
        SubstAddresses(e.args, x, val, y);
      }
    }
  }

  lemma AddressLeaf(e: Expr, x: string, val: Expr)
    requires e.Node? && e.kind != Var(x)
    ensures Subst(e, x, val).Node? && Subst(e, x, val).kind == e.kind
  {
  }

  // ---------- one inlining ----------

  /** Where the single reader is: a later statement, or one of the exit's five expressions. */
  datatype Site = InStmt(at: nat) | InCond | InRetValue | InRetRaw | InSwitch | InTailCall

  function FieldAt(b: Block, site: Site): Expr {
    match site
    case InStmt(_) => Null
    case InCond => b.cond
    case InRetValue => b.retValue
    case InRetRaw => b.retRaw
    case InSwitch => b.switchVar
    case InTailCall => b.tailCall
  }

  function WithField(b: Block, site: Site, e: Expr): Block {
    match site
    case InStmt(_) => b
    case InCond => b.(cond := e)
    case InRetValue => b.(retValue := e)
    case InRetRaw => b.(retRaw := e)
    case InSwitch => b.(switchVar := e)
    case InTailCall => b.(tailCall := e)
  }

  function CountImpureCalls(e: Expr): nat {
    match e
    case Null => 0
    case Node(k, _, _, a, b, c, args) =>
      (if k.Call? && !IsPureCallee(k.callee) then 1 else 0)
      + CountImpureCalls(a) + CountImpureCalls(b) + CountImpureCalls(c) + CountImpureCalls(args)
  }

  /** Is the variable read at a place that is not inside some call's arguments? */
  predicate ReadsOutsideCallArgs(e: Expr, x: string) {
    match e
    case Null => false
    case Node(k, _, _, a, b, c, args) =>
      if k.Var? then k.name == x
      else if k.Call? then ReadsOutsideCallArgs(a, x)
      else ReadsOutsideCallArgs(a, x) || ReadsOutsideCallArgs(b, x) || ReadsOutsideCallArgs(c, x)
           || ReadsOutsideCallArgs(args, x)
  }

  /** A statement the definition `x = val` may be moved across. */
  predicate Passes(s: Stmt, val: Expr, terminal: bool) {
    || (terminal && s.kind.Comment?)
    || (&& s.kind.Assign?
        && !HasCall(s.rhs)
        && !(s.lhs.IsMem() && (ReadsMem(val) || HasImpureCall(val)))
        && !(HasImpureCall(val) && ReadsMem(s.rhs))
        && !(s.lhs.IsVar() && s.lhs.kind.name in Reads(val)))
  }

  /** A call result may join a use that has a call of its own only inside that call's arguments. */
  predicate CallsNest(s: Stmt, x: string, val: Expr) {
    var calls := CountImpureCalls(s.rhs) + CountImpureCalls(s.lhs);
    HasImpureCall(val) && calls > 0 ==>
      calls == 1 && !ReadsOutsideCallArgs(s.rhs, x) && !ReadsOutsideCallArgs(s.lhs, x)
  }

  predicate CallsNestAtExit(e: Expr, x: string, val: Expr) {
    HasImpureCall(val) && HasImpureCall(e) ==> CountImpureCalls(e) == 1 && !ReadsOutsideCallArgs(e, x)
  }

  /** No statement strictly between `i` and `j` mentions the variable. */
  predicate Unread(ss: seq<Stmt>, x: string, i: int, j: int) {
    forall k :: i < k < j && 0 <= k < |ss| ==> StmtReads(ss[k], x) == 0
  }

  predicate Clear(ss: seq<Stmt>, val: Expr, i: int, j: int, terminal: bool) {
    forall k :: i < k < j && 0 <= k < |ss| ==> Passes(ss[k], val, terminal)
  }

  /** The exit expression that is looked at first, in the order of the source. */
  function ExitSite(b: Block, x: string): (r: Site)
    ensures r.InStmt? ==>
              CountReads(b.cond, x) + CountReads(b.retValue, x) + CountReads(b.retRaw, x)
              + CountReads(b.switchVar, x) + CountReads(b.tailCall, x) == 0
    ensures !r.InStmt? ==> CountReads(FieldAt(b, r), x) > 0
  {
    if CountReads(b.cond, x) > 0 then InCond
    else if CountReads(b.retValue, x) > 0 then InRetValue
    else if CountReads(b.retRaw, x) > 0 then InRetRaw
    else if CountReads(b.switchVar, x) > 0 then InSwitch
    else if CountReads(b.tailCall, x) > 0 then InTailCall
    else InStmt(0)
  }

  /** The definition at `i` may be moved to `site`. */
  predicate Movable(b: Block, i: nat, site: Site) {
    && i < |b.stmts|
    && b.stmts[i].Defines()
    && var x, val := b.stmts[i].lhs.kind.name, b.stmts[i].rhs;
       match site
       case InStmt(j) =>
         && i < j < |b.stmts| && StmtReads(b.stmts[j], x) > 0 && Unread(b.stmts, x, i, j)
         && CallsNest(b.stmts[j], x, val) && Clear(b.stmts, val, i, j, false)
       case _ =>
         && site == ExitSite(b, x) && Unread(b.stmts, x, i, |b.stmts|)
         && CallsNestAtExit(FieldAt(b, site), x, val) && Clear(b.stmts, val, i, |b.stmts|, true)
  }

  function Erased(ss: seq<Stmt>, i: nat): seq<Stmt>
    requires i < |ss|
  {
    ss[..i] + ss[i + 1..]
  }

  /** The reader with the value put in and folded again. */
  function UseWith(s: Stmt, x: string, val: Expr, fold: Expr -> Expr): Stmt {
    var lhs := Subst(s.lhs, x, val);
    s.(rhs := fold(Subst(s.rhs, x, val)), lhs := if lhs.IsMem() then fold(lhs) else lhs)
  }

  /** The block after the definition at `i` has moved to its reader. */
  function Inlined(b: Block, i: nat, site: Site, fold: Expr -> Expr): Block
    requires Movable(b, i, site)
  {
    var x, val := b.stmts[i].lhs.kind.name, b.stmts[i].rhs;
    match site
    case InStmt(j) => b.(stmts := Erased(b.stmts[j := UseWith(b.stmts[j], x, val, fold)], i))
    case _ => WithField(b, site, fold(Subst(FieldAt(b, site), x, val))).(stmts := Erased(b.stmts, i))
  }

  // ---------- how far the snapshot stays exact ----------

  /** What is asked of re-folding an expression: it may lose reads but adds none, and a destination stays one. */
  ghost predicate FoldAddsNoReads(fold: Expr -> Expr) {
    forall e: Expr {:trigger fold(e)} ::
      && (forall x :: CountReads(fold(e), x) <= CountReads(e, x))
      && (e.IsMem() ==> fold(e).IsMem() && forall x :: CountReads(fold(e).a, x) <= CountReads(e.a, x))
  }

  /** Reads of `y` that folding an expression loses, as in `y * 0`. */
  function Lost(e: Expr, fold: Expr -> Expr, y: string): int {
    CountReads(e, y) - CountReads(fold(e), y)
  }

  function LostInDestination(d: Expr, fold: Expr -> Expr, y: string): int {
    if d.IsMem() && fold(d).IsMem() then CountReads(d.a, y) - CountReads(fold(d).a, y) else 0
  }

  function LostInUse(s: Stmt, x: string, val: Expr, fold: Expr -> Expr, y: string): int {
    Lost(Subst(s.rhs, x, val), fold, y) + LostInDestination(Subst(s.lhs, x, val), fold, y)
  }

  /** Reads of `y` lost when the reader is folded again after the move. */
  function LostReads(b: Block, i: nat, site: Site, fold: Expr -> Expr, y: string): int
    requires Movable(b, i, site)
  {
    var x, val := b.stmts[i].lhs.kind.name, b.stmts[i].rhs;
    match site
    case InStmt(j) => LostInUse(b.stmts[j], x, val, fold, y)
    case _ => Lost(Subst(FieldAt(b, site), x, val), fold, y)
  }

  lemma NoneAppear(b: Block, i: nat, site: Site, fold: Expr -> Expr, y: string)
    requires Movable(b, i, site) && FoldAddsNoReads(fold)
    ensures LostReads(b, i, site, fold, y) >= 0
  {
    hide CountReads, Subst, Passes, CallsNest, CallsNestAtExit, Clear, Unread, StmtReads, FoldAddsNoReads;
    ghost var x, val := b.stmts[i].lhs.kind.name, b.stmts[i].rhs;
    if site.InStmt? {
      FoldAt(fold, Subst(b.stmts[site.at].rhs, x, val), y);
      FoldAt(fold, Subst(b.stmts[site.at].lhs, x, val), y);
    } else {
      FoldAt(fold, Subst(FieldAt(b, site), x, val), y);
    }
  }

  /** As the lifter builds them: variables are leaves, and only an assignment has a destination. */
  predicate TidyStmt(s: Stmt) {
    LeafVars(s.lhs) && LeafVars(s.rhs) && (s.kind.Assign? || s.lhs.Null?)
  }

  predicate TidyBlock(b: Block) {
    && (forall j :: 0 <= j < |b.stmts| ==> TidyStmt(b.stmts[j]))
    && LeafVars(b.cond) && LeafVars(b.retValue) && LeafVars(b.retRaw) && LeafVars(b.switchVar) && LeafVars(b.tailCall)
  }

  lemma TwoReads(ss: seq<Stmt>, x: string, i: nat, j: nat)
    requires i < j < |ss|
    ensures StmtReads(ss[i], x) + StmtReads(ss[j], x) <= StmtsReads(ss, x)
    ensures (if ss[i].DefinesVar(x) then 1 else 0) + (if ss[j].DefinesVar(x) then 1 else 0) <= StmtsWrites(ss, x)
  {
    StmtsErased(ss, j, x);
    StmtsErased(Erased(ss, j), i, x);
  }

  lemma StmtsErased(ss: seq<Stmt>, i: nat, y: string)
    requires i < |ss|
    ensures StmtsReads(Erased(ss, i), y) == StmtsReads(ss, y) - StmtReads(ss[i], y)
    ensures StmtsWrites(Erased(ss, i), y) == StmtsWrites(ss, y) - (if ss[i].DefinesVar(y) then 1 else 0)
  {
    StmtsReadsAppend(ss[..i], ss[i + 1..], y);
    StmtsReadsAppend(ss[..i], ss[i..], y);
    assert ss == ss[..i] + ss[i..] && ss[i..][1..] == ss[i + 1..];
  }

  lemma StmtsReplaced(ss: seq<Stmt>, j: nat, s: Stmt, y: string)
    requires j < |ss|
    ensures StmtsReads(ss[j := s], y) == StmtsReads(ss, y) - StmtReads(ss[j], y) + StmtReads(s, y)
    ensures StmtsWrites(ss[j := s], y)
            == StmtsWrites(ss, y) - (if ss[j].DefinesVar(y) then 1 else 0) + (if s.DefinesVar(y) then 1 else 0)
  {
    ghost var tt := ss[j := s];
    StmtsErased(ss, j, y);
    StmtsErased(tt, j, y);
    assert Erased(tt, j) == Erased(ss, j);
  }

  lemma DestinationCounts(d: Expr, x: string, val: Expr, fold: Expr -> Expr, y: string)
    requires FoldAddsNoReads(fold) && LeafVars(d) && !(d.IsVar() && d.kind.name == x)
    ensures var n := Subst(d, x, val);
            && n.IsMem() == d.IsMem() && n.IsVar() == d.IsVar() && (d.IsVar() ==> n == d)
            && (d.IsMem() ==> n.a == Subst(d.a, x, val) && fold(n).IsMem()
                              && CountReads(fold(n).a, y) == CountReads(n.a, y) - LostInDestination(n, fold, y))
            && (!d.IsMem() ==> LostInDestination(n, fold, y) == 0)
  {
    ghost var n := Subst(d, x, val);
    if d.Node? {
      AddressLeaf(d, x, val);
      if d.IsMem() {
        hide CountReads, Subst, FoldAddsNoReads;
        FoldAt(fold, n, y);
      }
    }
  }

  lemma FoldAt(fold: Expr -> Expr, e: Expr, y: string)
    requires FoldAddsNoReads(fold)
    ensures CountReads(fold(e), y) <= CountReads(e, y)
    ensures e.IsMem() ==> fold(e).IsMem() && CountReads(fold(e).a, y) <= CountReads(e.a, y)
  {
    ghost var l := fold(e);
  }

  /** The reader gains the reads of the value once for every reference it had, and loses what folding drops. */
  lemma UseCounts(s: Stmt, x: string, val: Expr, fold: Expr -> Expr, y: string)
    requires FoldAddsNoReads(fold) && LeafVars(s.lhs) && LeafVars(s.rhs) && !(s.lhs.IsVar() && s.lhs.kind.name == x)
    ensures StmtReads(UseWith(s, x, val, fold), y)
            == (if y == x then 0 else StmtReads(s, y)) +
                StmtReads(s, x) * CountReads(val, y) - LostInUse(s, x, val, fold, y)
    ensures UseWith(s, x, val, fold).DefinesVar(y) == s.DefinesVar(y)
  {
    hide CountReads, Subst, LeafVars, FoldAddsNoReads, LostInDestination;
    ghost var k := CountReads(val, y);
    SubstCounts(s.rhs, x, val, y);
    DestinationCounts(s.lhs, x, val, fold, y);
    if s.lhs.IsMem() {
      LeafParts(s.lhs);
      SubstCounts(s.lhs.a, x, val, y);
      Distribute(CountReads(s.rhs, x), CountReads(s.lhs.a, x), 0, 0, k);
    }
  }

  lemma LeafParts(e: Expr)
    requires LeafVars(e)
    ensures e.Node? ==> LeafVars(e.a) && LeafVars(e.b) && LeafVars(e.c) && LeafVars(e.args)
  {
  }

  /** Moving into a later statement. */
  lemma StmtInlinedCounts(ss: seq<Stmt>, i: nat, j: nat, fold: Expr -> Expr, y: string)
    requires i < j < |ss| && ss[i].Defines() && FoldAddsNoReads(fold) && TidyStmt(ss[j])
    requires var x := ss[i].lhs.kind.name;
             StmtReads(ss[j], x) > 0 && StmtsReads(ss, x) == 1 && StmtsWrites(ss, x) == 1
    ensures var x, val := ss[i].lhs.kind.name, ss[i].rhs;
            var tt := Erased(ss[j := UseWith(ss[j], x, val, fold)], i);
            && StmtsReads(tt, y) == (if y == x then 0 else StmtsReads(ss, y)) - LostInUse(ss[j], x, val, fold, y)
            && StmtsWrites(tt, y) == if y == x then 0 else StmtsWrites(ss, y)
  {
    ghost var x, val, def, use := ss[i].lhs.kind.name, ss[i].rhs, ss[i], ss[j];
    ghost var with := UseWith(use, x, val, fold);
    assert LeafVars(use.lhs) && LeafVars(use.rhs) && (use.kind.Assign? || use.lhs.Null?);
    DefinitionReads(def, y);
    DefinitionReads(def, x);
    TwoReads(ss, x, i, j);
    hide CountReads, Subst, LeafVars, FoldAddsNoReads, StmtsReads, StmtsWrites, UseWith, StmtReads;
    UseCounts(use, x, val, fold, y);
    StmtsReplaced(ss, j, with, y);
    StmtsErased(ss[j := with], i, y);
  }

  /** Moving into an exit expression. */
  lemma FieldInlinedCounts(b: Block, i: nat, site: Site, fold: Expr -> Expr, y: string)
    requires Movable(b, i, site) && !site.InStmt? && FoldAddsNoReads(fold) && TidyBlock(b)
    requires BlockReads(b, b.stmts[i].lhs.kind.name) == 1
    ensures var x := b.stmts[i].lhs.kind.name;
            var c := Inlined(b, i, site, fold);
            FieldReads(c, y)
            == (if y == x then 0 else FieldReads(b, y) + CountReads(b.stmts[i].rhs, y)) - LostReads(b, i, site, fold, y)
  {
    ghost var x, val := b.stmts[i].lhs.kind.name, b.stmts[i].rhs;
    ghost var e := FieldAt(b, site);
    OneReadAtExit(b, i, site);
    SubstCounts(e, x, val, y);
    FieldReplaced(b, i, site, fold, y);
    assert CountReads(e, x) * CountReads(val, y) == CountReads(val, y);
    hide *;
  }

  /** Only the rewritten exit expression counts differently. */
  lemma FieldReplaced(b: Block, i: nat, site: Site, fold: Expr -> Expr, y: string)
    requires Movable(b, i, site) && !site.InStmt?
    ensures var x, e := b.stmts[i].lhs.kind.name, FieldAt(b, site);
            FieldReads(Inlined(b, i, site, fold), y)
            == FieldReads(b, y) - CountReads(e, y) + CountReads(Subst(e, x, b.stmts[i].rhs), y)
               - LostReads(b, i, site, fold, y)
  {
    hide CountReads, Subst, Movable;
  }

  /** The exit expression holds the one read of the moved variable. */
  lemma OneReadAtExit(b: Block, i: nat, site: Site)
    requires Movable(b, i, site) && !site.InStmt? && TidyBlock(b)
    requires BlockReads(b, b.stmts[i].lhs.kind.name) == 1
    ensures var x, e := b.stmts[i].lhs.kind.name, FieldAt(b, site);
            && CountReads(e, x) == 1 && FieldReads(b, x) == 1 && LeafVars(e) && CountReads(b.stmts[i].rhs, x) == 0
  {
    ghost var x := b.stmts[i].lhs.kind.name;
    DefinitionReads(b.stmts[i], x);
    StmtsErased(b.stmts, i, x);
    hide CountReads, LeafVars, Passes, CallsNest, CallsNestAtExit, StmtsReads, Clear, Unread;
  }

  /** What the move does to one block's counts. */
  lemma InlinedCounts(b: Block, i: nat, site: Site, fold: Expr -> Expr, y: string)
    requires Movable(b, i, site) && FoldAddsNoReads(fold) && TidyBlock(b)
    requires var x := b.stmts[i].lhs.kind.name;
             BlockReads(b, x) == 1 && StmtsWrites(b.stmts, x) == 1
    ensures var x := b.stmts[i].lhs.kind.name;
            var c := Inlined(b, i, site, fold);
            && BlockReads(c, y) == (if y == x then 0 else BlockReads(b, y)) - LostReads(b, i, site, fold, y)
            && StmtsWrites(c.stmts, y) == if y == x then 0 else StmtsWrites(b.stmts, y)
  {
    ghost var x := b.stmts[i].lhs.kind.name;
    if site.InStmt? {
      StmtsErased(b.stmts, site.at, x);
      assert TidyStmt(b.stmts[site.at]);
      hide CountReads, Subst, LeafVars, FoldAddsNoReads, Passes, CallsNest, CallsNestAtExit, StmtsReads, StmtsWrites,
           UseWith, Clear,
        Unread, StmtReads, Erased;
      StmtInlinedCounts(b.stmts, i, site.at, fold, y);
    } else {
      FieldInlinedCounts(b, i, site, fold, y);
      DefinitionReads(b.stmts[i], y);
      StmtsErased(b.stmts, i, y);
      StmtsErased(b.stmts, i, x);
      hide CountReads, Subst, LeafVars, FoldAddsNoReads, Passes, CallsNest, CallsNestAtExit, StmtsReads, StmtsWrites,
           UseWith, Clear,
        Unread, StmtReads, Erased, FieldReads;
    }
  }

  lemma DefinitionReads(s: Stmt, y: string)
    requires s.Defines()
    ensures StmtReads(s, y) == CountReads(s.rhs, y) && (s.DefinesVar(y) <==> y == s.lhs.kind.name)
  {
  }

  ghost predicate TidyProgram(p: Program) {
    forall i :: 0 <= i < |p| ==> TidyBlock(p[i])
  }

  /** The reader is in the block, so it is the only one in the function. */
  lemma ReaderIsHere(p: Program, k: nat, i: nat, site: Site)
    requires k < |p| && Movable(p[k], i, site)
    requires var x := p[k].stmts[i].lhs.kind.name;
             TotalReads(p, x) == 1 && TotalWrites(p, x) == 1
    ensures var x := p[k].stmts[i].lhs.kind.name;
            && BlockReads(p[k], x) == 1 && StmtsWrites(p[k].stmts, x) == 1
            && forall j :: 0 <= j < |p| && j != k ==> BlockReads(p[j], x) == 0
  {
    ghost var x := p[k].stmts[i].lhs.kind.name;
    hide TotalReads, TotalWrites, StmtReads, CountReads, Passes, CallsNest, CallsNestAtExit, Clear;
    TotalsAt(p, x, k);
    StmtsErased(p[k].stmts, i, x);
    if site.InStmt? {
      StmtsErased(p[k].stmts, site.at, x);
    }
    assert BlockReads(p[k], x) == 1;
    hide BlockReads;
    forall j | 0 <= j < |p| && j != k ensures BlockReads(p[j], x) == 0 {
      OtherBlockReads(p, x, k, j);
    }
  }

  /**
    After a definition has moved to its reader the moved variable is gone, every other
    variable is written exactly as often as before, and read as often as before except for
    what folding the reader again loses.  So the snapshot stays exact for a variable if and
    only if folding loses none of its reads, and it never undercounts.
  */
  lemma CountsAfterMove(p: Program, k: nat, i: nat, site: Site, fold: Expr -> Expr, y: string)
    requires k < |p| && Movable(p[k], i, site) && FoldAddsNoReads(fold) && TidyProgram(p)
    requires var x := p[k].stmts[i].lhs.kind.name;
             TotalReads(p, x) == 1 && TotalWrites(p, x) == 1
    ensures var x := p[k].stmts[i].lhs.kind.name;
            var q := p[k := Inlined(p[k], i, site, fold)];
            && TotalWrites(q, y) == (if y == x then 0 else TotalWrites(p, y))
            && TotalReads(q, y) == (if y == x then 0 else TotalReads(p, y) - LostReads(p[k], i, site, fold, y))
            && TotalReads(q, y) <= TotalReads(p, y)
            && (y != x ==> (TotalReads(q, y) == TotalReads(p, y) <==> LostReads(p[k], i, site, fold, y) == 0))
  {
    ReaderIsHere(p, k, i, site);
    InlinedCounts(p[k], i, site, fold, y);
    NoneAppear(p[k], i, site, fold, y);
    TotalsUpdated(p, y, k, Inlined(p[k], i, site, fold));
  }

  /** A fold that reads exactly what it read. */
  ghost predicate FoldKeepsReads(fold: Expr -> Expr) {
    forall e: Expr {:trigger fold(e)} ::
      && (forall x :: CountReads(fold(e), x) == CountReads(e, x))
      && (e.IsMem() ==> fold(e).IsMem() && forall x :: CountReads(fold(e).a, x) == CountReads(e.a, x))
  }

  lemma KeptAt(fold: Expr -> Expr, e: Expr, y: string)
    requires FoldKeepsReads(fold)
    ensures CountReads(fold(e), y) == CountReads(e, y)
    ensures e.IsMem() ==> CountReads(fold(e).a, y) == CountReads(e.a, y)
  {
    ghost var l := fold(e);
  }

  lemma NoneLost(b: Block, i: nat, site: Site, fold: Expr -> Expr, y: string)
    requires Movable(b, i, site) && FoldKeepsReads(fold)
    ensures LostReads(b, i, site, fold, y) == 0
  {
    hide CountReads, Subst, Passes, CallsNest, CallsNestAtExit, Clear, Unread, StmtReads, FoldKeepsReads;
    ghost var x, val := b.stmts[i].lhs.kind.name, b.stmts[i].rhs;
    if site.InStmt? {
      KeptAt(fold, Subst(b.stmts[site.at].rhs, x, val), y);
      KeptAt(fold, Subst(b.stmts[site.at].lhs, x, val), y);
    } else {
      KeptAt(fold, Subst(FieldAt(b, site), x, val), y);
    }
  }

  /** A fold that turns a product with zero into zero, and nothing else. */
  function DropZeroProduct(e: Expr): Expr {
    if e.Node? && e.kind == Binary(Named("*")) && e.b == MkConst(0) then MkConst(0) else e
  }

  lemma DropZeroProductAddsNoReads()
    ensures FoldAddsNoReads(DropZeroProduct)
  {
  }

  function ZeroProductBlock(y: string, t: string, r: string): Block {
    Block(0, [Stmt(Assign, MkVar(t), MkVar(y)),
              Stmt(Assign, MkVar(r), Node(Binary(Named("*")), 4, false, MkVar(t), MkConst(0), Null, Null))],
          Null, MkVar(r), Null, Null, Null, true, [], [], -1, -1, -1, [], false, true, false, false)
  }

  /** `t = y; r = t * 0;`: after the move the snapshot still says that `y` is read once, but nothing reads it. */
  lemma SnapshotOutdated(y: string, t: string, r: string)
    requires y != t && t != r && y != r
    ensures var b := ZeroProductBlock(y, t, r);
            && Movable(b, 0, InStmt(1)) && FoldAddsNoReads(DropZeroProduct)
            && TotalReads([b], y) == 1 && TotalReads([Inlined(b, 0, InStmt(1), DropZeroProduct)], y) == 0
  {
    ghost var b := ZeroProductBlock(y, t, r);
    ZeroProductMoves(y, t, r);
    ZeroProductReads(y, t, r);
    hide *;
    DropZeroProductAddsNoReads();
    TotalsOfOne(b, y);
    TotalsOfOne(Inlined(b, 0, InStmt(1), DropZeroProduct), y);
  }

  lemma TotalsOfOne(b: Block, y: string)
    ensures TotalReads([b], y) == BlockReads(b, y)
  {
    assert TotalReads([], y) == 0;
  }

  /** The rewritten reader is `r = 0`. */
  lemma ZeroProductMoves(y: string, t: string, r: string)
    requires y != t && t != r && y != r
    ensures var b := ZeroProductBlock(y, t, r);
            && Movable(b, 0, InStmt(1))
            && Inlined(b, 0, InStmt(1), DropZeroProduct) == b.(stmts := [Stmt(Assign, MkVar(r), MkConst(0))])
  {
    ghost var b := ZeroProductBlock(y, t, r);
    ghost var use := b.stmts[1];
    assert CountReads(use.rhs, t) >= 1 by { assert CountReads(MkVar(t), t) == 1; }
    assert Subst(MkVar(t), t, MkVar(y)) == MkVar(y) && Subst(MkVar(r), t, MkVar(y)) == MkVar(r);
    assert Subst(MkConst(0), t, MkVar(y)) == MkConst(0);
    assert !HasImpureCall(MkVar(y));
    hide CountReads, HasImpureCall;
    ghost var u := UseWith(use, t, MkVar(y), DropZeroProduct);
    assert u == Stmt(Assign, MkVar(r), MkConst(0));
    hide Subst;
    assert Erased([b.stmts[0], u], 0) == [u];
  }

  lemma ZeroProductReads(y: string, t: string, r: string)
    requires y != t && t != r && y != r
    ensures var b := ZeroProductBlock(y, t, r);
            BlockReads(b, y) == 1 && BlockReads(b.(stmts := [Stmt(Assign, MkVar(r), MkConst(0))]), y) == 0
  {
    ghost var b, u := ZeroProductBlock(y, t, r), Stmt(Assign, MkVar(r), MkConst(0));
    ghost var use := b.stmts[1];
    assert CountReads(MkVar(y), y) == 1 && CountReads(MkVar(t), y) == 0 && CountReads(MkVar(r), y) == 0 &&
           CountReads(MkConst(0), y) == 0;
    assert CountReads(use.rhs, y) == 0;
    assert CountReads(Null, y) == 0;
    hide CountReads;
    assert b.stmts[1..] == [use] && [use][1..] == [] && [u][1..] == [];
    assert StmtsReads([use], y) == StmtReads(use, y) + StmtsReads([], y);
    assert StmtsReads([u], y) == StmtReads(u, y) + StmtsReads([], y);
  }

  // ---------- the tallies ----------

  type Tally = map<string, nat>

  function CountOf(t: Tally, x: string): nat {
    if x in t then t[x] else 0
  }

  function Bump(t: Tally, x: string): Tally {
    t[x := CountOf(t, x) + 1]
  }

  /** One walk over an expression counts every variable at once. */
  function TallyReads(e: Expr, t: Tally): Tally {
    match e
    case Null => t
    case Node(k, _, _, a, b, c, args) =>
      var t0 := if k.Var? then Bump(t, k.name) else t;
      TallyReads(args, TallyReads(c, TallyReads(b, TallyReads(a, t0))))
  }

  lemma {:induction false} TallyCounts(e: Expr, t: Tally, x: string)
    ensures CountOf(TallyReads(e, t), x) == CountOf(t, x) + CountReads(e, x)
  {
    if e.Null? {
    } else {
      ghost var t0 := if e.kind.Var? then Bump(t, e.kind.name) else t;
      ghost var t1 := TallyReads(e.a, t0);
      ghost var t2 := TallyReads(e.b, t1);
      ghost var t3 := TallyReads(e.c, t2);
      TallyCounts(e.a, t0, x);
      TallyCounts(e.b, t1, x);
      TallyCounts(e.c, t2, x);
      TallyCounts(e.args, t3, x);
    }
  }

  /** Reads of one statement, memory destinations included, added to the tally. */
  function TallyStmt(s: Stmt, t: Tally): Tally {
    var t1 := TallyReads(s.rhs, t);
    if s.lhs.IsMem() then TallyReads(s.lhs.a, t1) else t1
  }

  function TallyFields(b: Block, t: Tally): Tally {
    TallyReads(b.tailCall, TallyReads(b.switchVar, TallyReads(b.retRaw, TallyReads(b.retValue, TallyReads(b.cond, t)))))
  }

  lemma TallyStmtCounts(s: Stmt, t: Tally, x: string)
    ensures CountOf(TallyStmt(s, t), x) == CountOf(t, x) + StmtReads(s, x)
  {
    hide TallyReads, CountReads;
    TallyCounts(s.rhs, t, x);
    if s.lhs.IsMem() {
      TallyCounts(s.lhs.a, TallyReads(s.rhs, t), x);
    }
  }

  lemma TallyFieldCounts(b: Block, t: Tally, x: string)
    ensures CountOf(TallyFields(b, t), x) == CountOf(t, x) + FieldReads(b, x)
  {
    hide TallyReads, CountReads;
    ghost var t1 := TallyReads(b.cond, t);
    ghost var t2 := TallyReads(b.retValue, t1);
    ghost var t3 := TallyReads(b.retRaw, t2);
    ghost var t4 := TallyReads(b.switchVar, t3);
    TallyCounts(b.cond, t, x);
    TallyCounts(b.retValue, t1, x);
    TallyCounts(b.retRaw, t2, x);
    TallyCounts(b.switchVar, t3, x);
    TallyCounts(b.tailCall, t4, x);
  }

  ghost predicate TalliesAre(rd: Tally, wr: Tally, r: string -> nat, w: string -> nat) {
    forall x :: CountOf(rd, x) == r(x) && CountOf(wr, x) == w(x)
  }

  lemma StmtsSnoc(ss: seq<Stmt>, j: nat, x: string)
    requires j < |ss|
    ensures StmtsReads(ss[..j + 1], x) == StmtsReads(ss[..j], x) + StmtReads(ss[j], x)
    ensures StmtsWrites(ss[..j + 1], x) == StmtsWrites(ss[..j], x) + (if ss[j].DefinesVar(x) then 1 else 0)
  {
    StmtsReadsAppend(ss[..j], [ss[j]], x);
    assert ss[..j + 1] == ss[..j] + [ss[j]];
  }

  /** The statements of one block, added to both tallies. */
  method TallyStmts(ss: seq<Stmt>, rd0: Tally, wr0: Tally) returns (rd: Tally, wr: Tally)
    ensures TalliesAre(rd, wr, x => CountOf(rd0, x) + StmtsReads(ss, x), x => CountOf(wr0, x) + StmtsWrites(ss, x))
  {
    hide CountOf, StmtReads, TallyStmt;
    rd, wr := rd0, wr0;
    var j := 0;
    while j < |ss|
      invariant 0 <= j <= |ss|
      invariant TalliesAre(rd, wr, x => CountOf(rd0, x) + StmtsReads(ss[..j], x),
                x => CountOf(wr0, x) + StmtsWrites(ss[..j], x))
    {
      ghost var r, w := rd, wr;
      rd := TallyStmt(ss[j], rd);
      if ss[j].Defines() {
        wr := Bump(wr, ss[j].lhs.kind.name);
      }
      forall x
        ensures CountOf(rd, x) == CountOf(r, x) + StmtReads(ss[j], x)
        ensures CountOf(wr, x) == CountOf(w, x) + if ss[j].DefinesVar(x) then 1 else 0
        ensures StmtsReads(ss[..j + 1], x) == StmtsReads(ss[..j], x) + StmtReads(ss[j], x)
        ensures StmtsWrites(ss[..j + 1], x) == StmtsWrites(ss[..j], x) + if ss[j].DefinesVar(x) then 1 else 0
      {
        TallyStmtCounts(ss[j], r, x);
        StmtsSnoc(ss, j, x);
        if ss[j].Defines() {
          BumpCounts(w, ss[j].lhs.kind.name, x);
        }
      }
      j := j + 1;
    }
    assert ss[..j] == ss;
  }

  lemma BumpCounts(t: Tally, d: string, x: string)
    ensures CountOf(Bump(t, d), x) == CountOf(t, x) + if x == d then 1 else 0
  {
  }

  /** The snapshot: whole-function counts of every variable in one pass over the blocks. */
  method Snapshot(p: Program) returns (rd: Tally, wr: Tally)
    ensures TalliesAre(rd, wr, x => TotalReads(p, x), x => TotalWrites(p, x))
  {
    hide StmtReads, TallyFields, FieldReads, StmtsReads, StmtsWrites;
    rd, wr := map[], map[];
    var i := 0;
    while i < |p|
      invariant 0 <= i <= |p|
      invariant TalliesAre(rd, wr, x => TotalReads(p[..i], x), x => TotalWrites(p[..i], x))
    {
      ghost var r0, w0 := rd, wr;
      rd, wr := TallyStmts(p[i].stmts, rd, wr);
      ghost var r1, w1 := rd, wr;
      rd := TallyFields(p[i], rd);
      forall x
        ensures CountOf(rd, x) == TotalReads(p[..i + 1], x) && CountOf(wr, x) == TotalWrites(p[..i + 1], x)
      {
        assert CountOf(r1, x) == CountOf(r0, x) + StmtsReads(p[i].stmts, x);
        assert CountOf(w1, x) == CountOf(w0, x) + StmtsWrites(p[i].stmts, x);
        assert CountOf(r0, x) == TotalReads(p[..i], x) && CountOf(w0, x) == TotalWrites(p[..i], x);
        TallyFieldCounts(p[i], r1, x);
        TotalsSnoc(p, i, x);
      }
      i := i + 1;
    }
    assert p[..i] == p;
  }

  lemma TotalsSnoc(p: Program, i: nat, x: string)
    requires i < |p|
    ensures TotalReads(p[..i + 1], x) == TotalReads(p[..i], x) + BlockReads(p[i], x)
    ensures TotalWrites(p[..i + 1], x) == TotalWrites(p[..i], x) + StmtsWrites(p[i].stmts, x)
  {
    TotalsAt(p[..i + 1], x, i);
    assert p[..i + 1][..i] == p[..i] && p[..i + 1][i + 1..] == [];
  }
}
