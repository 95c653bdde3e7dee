/**
  The line-level passes over an emitted body: unreachable lines after an unconditional
  transfer, repeated label definitions, labels nothing jumps to.

  A body is a sequence of classified lines.  Where control goes from a line depends on the
  text in three ways: to the next line, to the first definition of a label it names, and,
  by the nesting of braces, to some line with a brace or a case label.  The last way is a
  parameter: what is proved holds for every nesting.
*/
module Labels {

  datatype Line =
    | Blank
    | Label(name: string)            // a bare `L_xxxx:;`
    | CaseLabel(refs: seq<string>)   // `case ...` or `default:`, and the labels of the gotos in it
    | Brace(refs: seq<string>)       // any line with a brace, and the labels of the gotos in it
    | Goto(target: string)           // `goto ...;`
    | Exit                           // `return ...;`
    | Leave                          // `break;` or `continue;`
    | Plain(refs: seq<string>)       // any other statement, and the labels of the gotos in it
  {
    /** `is_uncond_transfer_line` on a line without braces. */
    predicate Transfers() {
      Goto? || Exit? || Leave?
    }

    /** Lines the brace structure can send control to. */
    predicate Anchor() {
      Brace? || CaseLabel?
    }

    /** Lines from which the brace structure can send control elsewhere. */
    predicate Structural() {
      Brace? || CaseLabel? || Leave? || Plain?
    }

    predicate Names(l: string) {
      match this
      case CaseLabel(refs) => l in refs
      case Brace(refs) => l in refs
      case Plain(refs) => l in refs
      case Goto(target) => l == target
      case _ => false
    }
  }

  type Body = seq<Line>

  // ---------- what a run may do ----------

  /** Where the brace structure sends control: from a line with so many anchors before it, to the n-th anchor. */
  type Flow = (Line, nat, nat) -> bool

  function AnchorsBefore(body: Body, i: nat): nat
    requires i <= |body|
  {
    if i == 0 then 0 else AnchorsBefore(body, i - 1) + if body[i - 1].Anchor() then 1 else 0
  }

  /** The first definition of a label at or after `i`, or the end of the body. */
  function FirstDef(body: Body, l: string, i: nat): (r: nat)
    requires i <= |body|
    ensures i <= r <= |body|
    ensures r < |body| ==> body[r] == Label(l)
    ensures forall k :: i <= k < r ==> body[k] != Label(l)
    decreases |body| - i
  {
    if i == |body| || body[i] == Label(l) then i else FirstDef(body, l, i + 1)
  }

  predicate FallsTo(body: Body, i: nat, j: nat) {
    i < |body| && j == i + 1 && !body[i].Transfers()
  }

  predicate JumpsTo(body: Body, i: nat, j: nat) {
    i < |body| && j < |body| && body[j].Label? && body[i].Names(body[j].name) && FirstDef(body, body[j].name, 0) == j
  }

  predicate FlowsTo(flow: Flow, body: Body, i: nat, j: nat) {
    i < |body| && j < |body| && body[i].Structural() && body[j].Anchor()
    && flow(body[i], AnchorsBefore(body, i), AnchorsBefore(body, j))
  }

  /** From line `i` control may go on at line `j`; the end of the body counts as a line. */
  predicate Steps(flow: Flow, body: Body, i: nat, j: nat) {
    FallsTo(body, i, j) || JumpsTo(body, i, j) || FlowsTo(flow, body, i, j)
  }

  /** Where runs start: the first line, and labels entered from outside. */
  predicate Starts(body: Body, extern: set<string>, i: nat) {
    i == 0 || EntersAt(body, extern, i)
  }

  predicate EntersAt(body: Body, extern: set<string>, i: nat) {
    i < |body| && body[i].Label? && body[i].name in extern && FirstDef(body, body[i].name, 0) == i
  }

  ghost predicate IsRun(flow: Flow, body: Body, extern: set<string>, run: seq<nat>) {
    && |run| > 0 && Starts(body, extern, run[0])
    && forall k :: 0 <= k < |run| - 1 ==> Steps(flow, body, run[k], run[k + 1])
  }

  ghost predicate Reachable(flow: Flow, body: Body, extern: set<string>, i: nat) {
    exists run :: IsRun(flow, body, extern, run) && run[|run| - 1] == i
  }

  /** A set of lines that holds the starts and is closed under steps holds every reachable line. */
  lemma {:induction false} ClosedHoldsRun(flow: Flow, body: Body, extern: set<string>, inv: nat -> bool, run: seq<nat>)
    requires IsRun(flow, body, extern, run)
    requires forall i: nat :: Starts(body, extern, i) ==> inv(i)
    requires forall i: nat, j: nat :: inv(i) && Steps(flow, body, i, j) ==> inv(j)
    ensures inv(run[|run| - 1])
    decreases |run|
  {
    hide Steps, Starts;
    if |run| > 1 {
      ghost var shorter := run[..|run| - 1];
      forall k | 0 <= k < |shorter| - 1 ensures Steps(flow, body, shorter[k], shorter[k + 1]) {
        assert Steps(flow, body, run[k], run[k + 1]);
      }
      ClosedHoldsRun(flow, body, extern, inv, shorter);
      assert Steps(flow, body, run[|run| - 2], run[|run| - 1]);
    }
  }

  // ---------- dropping lines ----------

  function Filter(body: Body, keep: seq<bool>): Body
    requires |keep| == |body|
  {
    if body == [] then [] else (if keep[0] then [body[0]] else []) + Filter(body[1..], keep[1..])
  }

  /** Where line `i` is, or would be, after the others have gone. */
  function Pos(keep: seq<bool>, i: nat): (r: nat)
    requires i <= |keep|
  {
    if i == 0 then 0 else Pos(keep, i - 1) + if keep[i - 1] then 1 else 0
  }

  lemma {:induction false} FilterSnoc(body: Body, keep: seq<bool>)
    requires |keep| == |body| > 0
    ensures var n := |body| - 1;
            Filter(body, keep) == Filter(body[..n], keep[..n]) + if keep[n] then [body[n]] else []
  {
    ghost var n := |body| - 1;
    if n > 0 {
      FilterSnoc(body[1..], keep[1..]);
      assert body[1..][..n - 1] == body[..n][1..] && keep[1..][..n - 1] == keep[..n][1..];
      assert body[..n][0] == body[0];
    } else {
      assert body[1..] == [] && body[..n] == [];
    }
  }

  /** The filtered body up to where line `i` was. */
  lemma {:induction false} FilterPrefix(body: Body, keep: seq<bool>, i: nat)
    requires |keep| == |body| && i <= |body|
    ensures |Filter(body[..i], keep[..i])| == Pos(keep, i) <= |Filter(body, keep)|
    ensures Filter(body[..i], keep[..i]) <= Filter(body, keep)
    ensures i < |body| && keep[i] ==> Pos(keep, i) < |Filter(body, keep)| && Filter(body, keep)[Pos(keep, i)] == body[i]
    ensures i == |body| ==> Pos(keep, i) == |Filter(body, keep)|
    decreases |body|
  {
    ghost var n := |body|;
    if n > 0 {
      FilterSnoc(body, keep);
      if i < n {
        FilterPrefix(body[..n - 1], keep[..n - 1], i);
        assert body[..n - 1][..i] == body[..i] && keep[..n - 1][..i] == keep[..i];
        PosOfPrefix(keep, n - 1, i);
        if i == n - 1 {
          assert body[..i] == body[..n - 1];
        }
      } else {
        FilterPrefix(body[..n - 1], keep[..n - 1], n - 1);
        assert body[..n - 1][..n - 1] == body[..n - 1] && keep[..n - 1][..n - 1] == keep[..n - 1];
        PosOfPrefix(keep, n - 1, n - 1);
        assert body[..i] == body && keep[..i] == keep;
      }
    }
  }

  lemma {:induction false} PosOfPrefix(keep: seq<bool>, n: nat, i: nat)
    requires i <= n <= |keep|
    ensures Pos(keep[..n], i) == Pos(keep, i)
  {
    if i == 0 {
    } else {
      PosOfPrefix(keep, n, i - 1);
    }
  }

  /** Each line of the filtered body comes from one kept line. */
  lemma {:induction false} Origin(body: Body, keep: seq<bool>, a: nat, n: nat) returns (i: nat)
    requires |keep| == |body| && n <= |body| && a < Pos(keep, n)
    ensures i < n && keep[i] && Pos(keep, i) == a
  {
    if keep[n - 1] && Pos(keep, n - 1) == a {
      i := n - 1;
    } else {
      i := Origin(body, keep, a, n - 1);
    }
  }

  lemma {:induction false} PosGrows(keep: seq<bool>, i: nat, j: nat)
    requires i <= j <= |keep|
    ensures Pos(keep, i) <= Pos(keep, j) <= Pos(keep, i) + (j - i)
    ensures i < j && keep[i] ==> Pos(keep, i) < Pos(keep, j)
    ensures Pos(keep, i) == Pos(keep, j) <==> forall k :: i <= k < j ==> !keep[k]
  {
    if i < j {
      PosGrows(keep, i, j - 1);
    }
  }

  /** Kept, or the end of the body. */
  predicate Kept(keep: seq<bool>, i: nat) {
    i == |keep| || (i < |keep| && keep[i])
  }

  lemma {:induction false} AnchorsMove(body: Body, keep: seq<bool>, i: nat)
    requires |keep| == |body| && i <= |body| && forall k :: 0 <= k < |body| && body[k].Anchor() ==> keep[k]
    ensures Pos(keep, i) <= |Filter(body, keep)| &&
            AnchorsBefore(Filter(body, keep), Pos(keep, i)) == AnchorsBefore(body, i)
  {
    FilterPrefix(body, keep, i);
    if i == 0 {
    } else {
      AnchorsMove(body, keep, i - 1);
      FilterPrefix(body, keep, i - 1);
    }
  }

  lemma SamePos(keep: seq<bool>, i: nat, j: nat)
    requires i <= |keep| && j <= |keep| && Kept(keep, i) && Kept(keep, j) && Pos(keep, i) == Pos(keep, j)
    ensures i == j
  {
    if i < j {
      PosGrows(keep, i, j);
    } else if j < i {
      PosGrows(keep, j, i);
    }
  }

  lemma FirstDefIs(body: Body, l: string, d: nat)
    requires d <= |body| && (d < |body| ==> body[d] == Label(l)) && forall k :: 0 <= k < d ==> body[k] != Label(l)
    ensures FirstDef(body, l, 0) == d
  {
  }

  /** A first definition that is kept is the first one afterwards. */
  lemma FirstDefMoves(body: Body, keep: seq<bool>, l: string)
    requires |keep| == |body| && Kept(keep, FirstDef(body, l, 0))
    ensures FirstDef(Filter(body, keep), l, 0) == Pos(keep, FirstDef(body, l, 0))
  {
    ghost var d := FirstDef(body, l, 0);
    ghost var new_ := Filter(body, keep);
    hide Filter, FirstDef;
    FilterPrefix(body, keep, d);
    forall a | 0 <= a < Pos(keep, d) ensures new_[a] != Label(l) {
      ghost var i := Origin(body, keep, a, d);
      FilterPrefix(body, keep, i);
      FirstDefBefore(body, l, i);
    }
    FirstDefFound(body, l);
    FirstDefIs(new_, l, Pos(keep, d));
  }

  lemma FirstDefBefore(body: Body, l: string, i: nat)
    requires i < FirstDef(body, l, 0)
    ensures i < |body| && body[i] != Label(l)
  {
  }

  lemma FirstDefFound(body: Body, l: string)
    ensures FirstDef(body, l, 0) < |body| ==> body[FirstDef(body, l, 0)] == Label(l)
  {
  }

  /** Falling from `i` to the next kept line. */
  predicate FallsOver(body: Body, keep: seq<bool>, i: nat, j: nat)
    requires |keep| == |body|
  {
    i < j <= |body| && !body[i].Transfers() && forall k :: i < k < j ==> !keep[k]
  }

  /** No anchor is dropped, and no first definition of a label that line `i` names. */
  predicate Spares(body: Body, keep: seq<bool>, i: nat)
    requires |keep| == |body| && i < |body|
  {
    && (forall k :: 0 <= k < |body| && body[k].Anchor() ==> keep[k])
    && forall d :: 0 <= d < |body| && JumpsTo(body, i, d) ==> keep[d]
  }

  lemma NamedIsKept(body: Body, keep: seq<bool>, i: nat, l: string)
    requires |keep| == |body| && i < |body| && Spares(body, keep, i) && body[i].Names(l)
    ensures Kept(keep, FirstDef(body, l, 0))
  {
    ghost var d := FirstDef(body, l, 0);
    FirstDefFound(body, l);
    hide FirstDef;
    if d < |body| {
      assert JumpsTo(body, i, d);
    }
  }

  lemma JumpsMove(body: Body, keep: seq<bool>, i: nat, j: nat)
    requires |keep| == |body| && i < |body| && keep[i] && j <= |body| && Kept(keep, j) && Spares(body, keep, i)
    ensures JumpsTo(Filter(body, keep), Pos(keep, i), Pos(keep, j)) <==> JumpsTo(body, i, j)
  {
    hide Filter, FirstDef;
    FilterPrefix(body, keep, i);
    FilterPrefix(body, keep, j);
    if j < |body| && body[j].Label? && body[i].Names(body[j].name) {
      ghost var l := body[j].name;
      NamedIsKept(body, keep, i, l);
      FirstDefMoves(body, keep, l);
      ghost var d := FirstDef(body, l, 0);
      if Pos(keep, d) == Pos(keep, j) {
        SamePos(keep, d, j);
      }
    }
  }

  lemma FlowsMove(flow: Flow, body: Body, keep: seq<bool>, i: nat, j: nat)
    requires |keep| == |body| && i < |body| && keep[i] && j <= |body| && Kept(keep, j) && Spares(body, keep, i)
    ensures FlowsTo(flow, Filter(body, keep), Pos(keep, i), Pos(keep, j)) <==> FlowsTo(flow, body, i, j)
  {
    AnchorsMove(body, keep, i);
    AnchorsMove(body, keep, j);
    FilterPrefix(body, keep, i);
    FilterPrefix(body, keep, j);
    hide Filter, AnchorsBefore;
  }

  lemma FallsMove(body: Body, keep: seq<bool>, i: nat, j: nat)
    requires |keep| == |body| && i < |body| && keep[i] && j <= |body| && Kept(keep, j)
    ensures FallsTo(Filter(body, keep), Pos(keep, i), Pos(keep, j)) <==> FallsOver(body, keep, i, j)
  {
    hide Filter;
    FilterPrefix(body, keep, i);
    PosGrows(keep, i, i + 1);
    if i < j {
      PosGrows(keep, i + 1, j);
    } else {
      PosGrows(keep, j, i);
    }
  }

  /** Steps between kept lines, before and after the others have gone. */
  lemma StepsMove(flow: Flow, body: Body, keep: seq<bool>, i: nat, j: nat)
    requires |keep| == |body| && i < |body| && keep[i] && j <= |body| && Kept(keep, j) && Spares(body, keep, i)
    ensures Steps(flow, Filter(body, keep), Pos(keep, i), Pos(keep, j))
            <==> FallsOver(body, keep, i, j) || JumpsTo(body, i, j) || FlowsTo(flow, body, i, j)
  {
    hide FallsTo, FallsOver, JumpsTo, FlowsTo, Filter, Spares;
    FallsMove(body, keep, i, j);
    JumpsMove(body, keep, i, j);
    FlowsMove(flow, body, keep, i, j);
  }

  // ---------- unreachable lines after a transfer ----------

  /** Some line of the body names the label. */
  predicate Referenced(body: Body, l: string) {
    exists i :: 0 <= i < |body| && body[i].Names(l)
  }

  /** `block_label` makes labels of this form only. */
  predicate IsBlockLabel(l: string) {
    |l| >= 2 && l[..2] == "L_"
  }

  predicate OnlyBlockLabels(body: Body) {
    forall i :: 0 <= i < |body| && body[i].Label? ==> IsBlockLabel(body[i].name)
  }

  /** `is_reachable_target`. */
  predicate IsTarget(body: Body, extern: set<string>, line: Line) {
    line.CaseLabel? || (line.Label? && IsBlockLabel(line.name) && (Referenced(body, line.name) || line.name in extern))
  }

  /** The scanner is in a dead run when it comes to line `i`. */
  predicate DeadBefore(body: Body, extern: set<string>, i: nat)
    requires i <= |body|
  {
    if i == 0 then false
    else
      var line := body[i - 1];
      if DeadBefore(body, extern, i - 1) && !line.Brace? && !IsTarget(body, extern, line) then true
      else line.Transfers()
  }

  /** The line is inside a dead run. */
  predicate InDeadRun(body: Body, extern: set<string>, i: nat)
    requires i < |body|
  {
    DeadBefore(body, extern, i) && !body[i].Brace? && !IsTarget(body, extern, body[i])
  }

  function StripKeep(body: Body, extern: set<string>): (keep: seq<bool>)
    ensures |keep| == |body|
    ensures forall i :: 0 <= i < |body| ==> keep[i] == (body[i].Blank? || !InDeadRun(body, extern, i))
  {
    seq(|body|, i requires 0 <= i < |body| => body[i].Blank? || !InDeadRun(body, extern, i))
  }

  lemma StartsAlive(body: Body, extern: set<string>, i: nat)
    requires OnlyBlockLabels(body) && Starts(body, extern, i)
    ensures i >= |body| || !InDeadRun(body, extern, i)
  {
  }

  lemma StaysAlive(flow: Flow, body: Body, extern: set<string>, i: nat, j: nat)
    requires OnlyBlockLabels(body) && (i >= |body| || !InDeadRun(body, extern, i)) && Steps(flow, body, i, j)
    ensures j >= |body| || !InDeadRun(body, extern, j)
  {
    hide AnchorsBefore, FirstDef;
    if j < |body| && JumpsTo(body, i, j) {
      assert Referenced(body, body[j].name);
    }
  }

  /** No run comes to a line inside a dead run. */
  lemma DeadIsUnreachable(flow: Flow, body: Body, extern: set<string>, i: nat)
    requires OnlyBlockLabels(body) && i < |body| && InDeadRun(body, extern, i)
    ensures !Reachable(flow, body, extern, i)
  {
    hide Steps, Starts, InDeadRun;
    ghost var alive := (n: nat) => n >= |body| || !InDeadRun(body, extern, n);
    forall n: nat | Starts(body, extern, n) ensures alive(n) {
      StartsAlive(body, extern, n);
    }
    forall n: nat, k: nat | alive(n) && Steps(flow, body, n, k) ensures alive(k) {
      StaysAlive(flow, body, extern, n, k);
    }
    forall run | IsRun(flow, body, extern, run) ensures run[|run| - 1] != i {
      ClosedHoldsRun(flow, body, extern, alive, run);
    }
  }

  // ---------- cleaning up keeps runs ----------

  /**
    Only lines that cannot matter are dropped: among the lines runs may come to, bare labels
    that nothing jumps to and that are not entered from outside.
  */
  ghost predicate Cleanup(flow: Flow, body: Body, extern: set<string>, keep: seq<bool>, alive: nat -> bool) {
    && |keep| == |body|
    && (forall i: nat :: Starts(body, extern, i) ==> alive(i))
    && (forall i: nat, j: nat :: alive(i) && Steps(flow, body, i, j) ==> alive(j))
    && (forall i: nat :: i < |body| && alive(i) && !keep[i] ==> body[i].Label?)
    && (forall i: nat :: i < |body| && alive(i) ==> Spares(body, keep, i))
    && forall i: nat :: i < |body| && EntersAt(body, extern, i) ==> keep[i]
  }

  lemma ReachExtends(flow: Flow, body: Body, extern: set<string>, i: nat, j: nat)
    requires Reachable(flow, body, extern, i) && Steps(flow, body, i, j)
    ensures Reachable(flow, body, extern, j)
  {
    hide Steps, Starts;
    ghost var run :| IsRun(flow, body, extern, run) && run[|run| - 1] == i;
    ghost var longer := run + [j];
    forall k | 0 <= k < |longer| - 1 ensures Steps(flow, body, longer[k], longer[k + 1]) {
      if k < |run| - 1 {
        assert Steps(flow, body, run[k], run[k + 1]);
      }
    }
    assert IsRun(flow, body, extern, longer);
  }

  lemma StartReaches(flow: Flow, body: Body, extern: set<string>, i: nat)
    requires Starts(body, extern, i)
    ensures Reachable(flow, body, extern, i)
  {
    hide Starts;
    assert IsRun(flow, body, extern, [i]);
  }

  lemma ReachIsAlive(flow: Flow, body: Body, extern: set<string>, keep: seq<bool>, alive: nat -> bool, i: nat)
    requires Cleanup(flow, body, extern, keep, alive) && Reachable(flow, body, extern, i)
    ensures alive(i)
  {
    hide Steps, Starts, Spares;
    ghost var run :| IsRun(flow, body, extern, run) && run[|run| - 1] == i;
    ClosedHoldsRun(flow, body, extern, alive, run);
  }

  /** A start of the old body is a start of the new one. */
  lemma StartMoves(flow: Flow, body: Body, extern: set<string>, keep: seq<bool>, alive: nat -> bool, i: nat)
    requires Cleanup(flow, body, extern, keep, alive) && Starts(body, extern, i)
    ensures Pos(keep, i) <= |Filter(body, keep)| && Starts(Filter(body, keep), extern, Pos(keep, i))
  {
    if i > 0 {
      assert EntersAt(body, extern, i) && keep[i];
      ghost var l := body[i].name;
      hide Filter, FirstDef, Steps, Spares;
      FilterPrefix(body, keep, i);
      FirstDefMoves(body, keep, l);
    }
  }

  /** One step of the old body, followed in the new one. */
  lemma StepFollows(flow: Flow, body: Body, extern: set<string>, keep: seq<bool>, alive: nat -> bool, i: nat, j: nat)
    requires Cleanup(flow, body, extern, keep, alive) && alive(i) && Steps(flow, body, i, j)
    ensures i <= |body| && j <= |body|
    ensures Pos(keep, i) == Pos(keep, j) || Steps(flow, Filter(body, keep), Pos(keep, i), Pos(keep, j))
  {
    assert i < |body| && j <= |body|;
    assert Spares(body, keep, i);
    PosGrows(keep, i, i + 1);
    if keep[i] {
      if Kept(keep, j) {
        hide Filter, FirstDef, Spares, AnchorsBefore;
        StepsMove(flow, body, keep, i, j);
      } else {
        assert FallsTo(body, i, j);
        FilterPrefix(body, keep, i);
        hide Filter;
      }
    }
  }

  lemma NewReaches(flow: Flow, body: Body, extern: set<string>, keep: seq<bool>, alive: nat -> bool, i: nat)
    requires Cleanup(flow, body, extern, keep, alive) && Reachable(flow, body, extern, i)
    ensures i <= |body| && Reachable(flow, Filter(body, keep), extern, Pos(keep, i))
  {
    ghost var new_ := Filter(body, keep);
    ghost var inv := (n: nat) => alive(n) && n <= |body| && Reachable(flow, new_, extern, Pos(keep, n));
    hide Steps, Starts, Spares, Filter, Reachable, IsRun;
    forall n: nat | Starts(body, extern, n) ensures inv(n) {
      StartInside(body, extern, n);
      StartMoves(flow, body, extern, keep, alive, n);
      StartReaches(flow, new_, extern, Pos(keep, n));
    }
    forall n: nat, k: nat | inv(n) && Steps(flow, body, n, k) ensures inv(k) {
      StepFollows(flow, body, extern, keep, alive, n, k);
      if Pos(keep, n) != Pos(keep, k) {
        ReachExtends(flow, new_, extern, Pos(keep, n), Pos(keep, k));
      }
    }
    InvHoldsReach(flow, body, extern, inv, i);
  }

  lemma StartInside(body: Body, extern: set<string>, i: nat)
    requires Starts(body, extern, i)
    ensures i <= |body|
  {
  }

  lemma InvHoldsReach(flow: Flow, body: Body, extern: set<string>, inv: nat -> bool, i: nat)
    requires Reachable(flow, body, extern, i)
    requires forall n: nat :: Starts(body, extern, n) ==> inv(n)
    requires forall n: nat, k: nat :: inv(n) && Steps(flow, body, n, k) ==> inv(k)
    ensures inv(i)
  {
    hide Steps, Starts;
    ghost var run :| IsRun(flow, body, extern, run) && run[|run| - 1] == i;
    ClosedHoldsRun(flow, body, extern, inv, run);
  }

  /** Lines between two kept ones that control falls through are labels. */
  lemma {:induction false} FallsThrough(flow: Flow, body: Body, extern: set<string>, keep: seq<bool>,
          alive: nat -> bool, i: nat, j: nat)
    requires Cleanup(flow, body, extern, keep, alive) && i <= j <= |body|
    requires Reachable(flow, body, extern, i) && forall k :: i <= k < j ==> !keep[k]
    ensures Reachable(flow, body, extern, j)
    decreases j - i
  {
    if i < j {
      ReachIsAlive(flow, body, extern, keep, alive, i);
      assert body[i].Label? && FallsTo(body, i, i + 1);
      assert Steps(flow, body, i, i + 1);
      hide Steps, Starts, Spares, Reachable, Cleanup;
      ReachExtends(flow, body, extern, i, i + 1);
      FallsThrough(flow, body, extern, keep, alive, i + 1, j);
    }
  }

  lemma OldStep(flow: Flow, body: Body, extern: set<string>, keep: seq<bool>, alive: nat -> bool, i: nat, j: nat)
    requires Cleanup(flow, body, extern, keep, alive) && Reachable(flow, body, extern, i)
    requires i < |body| && keep[i] && j <= |body| && Kept(keep, j)
    requires Steps(flow, Filter(body, keep), Pos(keep, i), Pos(keep, j))
    ensures Reachable(flow, body, extern, j)
  {
    ReachIsAlive(flow, body, extern, keep, alive, i);
    assert Spares(body, keep, i);
    hide Filter, Spares, Reachable, AnchorsBefore, FirstDef, FlowsTo, JumpsTo, Starts;
    StepsMove(flow, body, keep, i, j);
    if FallsOver(body, keep, i, j) {
      assert FallsTo(body, i, i + 1);
      ReachExtends(flow, body, extern, i, i + 1);
      FallsThrough(flow, body, extern, keep, alive, i + 1, j);
    } else {
      ReachExtends(flow, body, extern, i, j);
    }
  }

  lemma OldStart(flow: Flow, body: Body, extern: set<string>, keep: seq<bool>, alive: nat -> bool, j: nat)
    requires Cleanup(flow, body, extern, keep, alive) && j <= |body| && Kept(keep, j)
    requires Starts(Filter(body, keep), extern, Pos(keep, j))
    ensures Reachable(flow, body, extern, j)
  {
    hide Filter, Spares, Reachable, AnchorsBefore, FirstDef, Steps;
    FilterPrefix(body, keep, j);
    assert Starts(body, extern, 0);
    if Pos(keep, j) == 0 {
      PosGrows(keep, 0, j);
      StartReaches(flow, body, extern, 0);
      FallsThrough(flow, body, extern, keep, alive, 0, j);
    } else {
      ghost var l := body[j].name;
      ghost var d := FirstDef(body, l, 0);
      FirstDefFound(body, l);
      FirstDefAtMost(body, l, j);
      assert EntersAt(body, extern, d) && keep[d];
      StartReaches(flow, body, extern, d);
      FirstDefMoves(body, keep, l);
      SamePos(keep, d, j);
    }
  }

  lemma FirstDefAtMost(body: Body, l: string, j: nat)
    requires j < |body| && body[j] == Label(l)
    ensures FirstDef(body, l, 0) <= j
  {
  }

  lemma OldReaches(flow: Flow, body: Body, extern: set<string>, keep: seq<bool>, alive: nat -> bool, j: nat)
    requires Cleanup(flow, body, extern, keep, alive) && j <= |body| && Kept(keep, j)
    requires Reachable(flow, Filter(body, keep), extern, Pos(keep, j))
    ensures Reachable(flow, body, extern, j)
  {
    ghost var new_ := Filter(body, keep);
    ghost var inv := (a: nat) => forall i: nat :: i <= |body| && Kept(keep, i) && Pos(keep, i) == a ==>
        Reachable(flow, body, extern, i);
    hide Steps, Starts, Spares, Filter, Reachable, Cleanup;
    forall a: nat | Starts(new_, extern, a) ensures inv(a) {
      forall i: nat | i <= |body| && Kept(keep, i) && Pos(keep, i) == a ensures Reachable(flow, body, extern, i) {
        OldStart(flow, body, extern, keep, alive, i);
      }
    }
    forall a: nat, b: nat | inv(a) && Steps(flow, new_, a, b) ensures inv(b) {
      forall k: nat | k <= |body| && Kept(keep, k) && Pos(keep, k) == b ensures Reachable(flow, body, extern, k) {
        StepsInside(flow, new_, a, b);
        FilterPrefix(body, keep, |body|);
        ghost var i := Origin(body, keep, a, |body|);
        assert Kept(keep, i) && Pos(keep, i) == a && Reachable(flow, body, extern, i);
        OldStep(flow, body, extern, keep, alive, i, k);
      }
    }
    InvHoldsReach(flow, new_, extern, inv, Pos(keep, j));
    assert inv(Pos(keep, j));
  }

  lemma StepsInside(flow: Flow, body: Body, a: nat, b: nat)
    requires Steps(flow, body, a, b)
    ensures a < |body|
  {
  }

  /** A kept line is reached in the new body if and only if it was in the old one. */
  lemma CleanupKeepsReach(flow: Flow, body: Body, extern: set<string>, keep: seq<bool>, alive: nat -> bool, j: nat)
    requires |keep| == |body| && Cleanup(flow, body, extern, keep, alive) && j <= |body| && Kept(keep, j)
    ensures Pos(keep, j) <= |Filter(body, keep)|
    ensures Reachable(flow, body, extern, j) <==> Reachable(flow, Filter(body, keep), extern, Pos(keep, j))
  {
    hide Cleanup, Reachable, Filter;
    FilterPrefix(body, keep, j);
    if Reachable(flow, body, extern, j) {
      NewReaches(flow, body, extern, keep, alive, j);
    }
    if Reachable(flow, Filter(body, keep), extern, Pos(keep, j)) {
      OldReaches(flow, body, extern, keep, alive, j);
    }
  }

  // ---------- the three passes ----------

  lemma StripIsCleanup(flow: Flow, body: Body, extern: set<string>)
    requires OnlyBlockLabels(body)
    ensures Cleanup(flow, body, extern, StripKeep(body, extern), (n: nat) => n >= |body| || !InDeadRun(body, extern, n))
  {
    ghost var keep := StripKeep(body, extern);
    ghost var alive := (n: nat) => n >= |body| || !InDeadRun(body, extern, n);
    hide Steps, Starts, EntersAt, StripKeep, InDeadRun, Spares, Referenced;
    forall n: nat | Starts(body, extern, n) ensures alive(n) {
      StartsAlive(body, extern, n);
    }
    forall n: nat, k: nat | alive(n) && Steps(flow, body, n, k) ensures alive(k) {
      StaysAlive(flow, body, extern, n, k);
    }
    forall i: nat | i < |body| && alive(i) ensures Spares(body, keep, i) {
      StripSpares(body, extern, i);
    }
    forall i: nat | i < |body| && EntersAt(body, extern, i) ensures keep[i] {
      StripKeepsEntry(body, extern, i);
    }
  }

  lemma StripSpares(body: Body, extern: set<string>, i: nat)
    requires OnlyBlockLabels(body) && i < |body|
    ensures Spares(body, StripKeep(body, extern), i)
  {
    ghost var keep := StripKeep(body, extern);
    hide FirstDef, DeadBefore, StripKeep;
    forall d | 0 <= d < |body| && JumpsTo(body, i, d) ensures keep[d] {
      assert Referenced(body, body[d].name);
    }
  }

  lemma StripKeepsEntry(body: Body, extern: set<string>, i: nat)
    requires OnlyBlockLabels(body) && i < |body| && EntersAt(body, extern, i)
    ensures StripKeep(body, extern)[i]
  {
    hide FirstDef, DeadBefore;
  }

  /**
    `strip_unreachable_after_terminator` drops only lines no run comes to, and a line that
    stays is come to exactly when it was before.
  */
  lemma StripIsSafe(flow: Flow, body: Body, extern: set<string>, i: nat)
    requires OnlyBlockLabels(body) && i < |body|
    ensures var keep := StripKeep(body, extern);
            && (!keep[i] ==> !Reachable(flow, body, extern, i))
            && (keep[i] ==> Pos(keep, i) <= |Filter(body, keep)|
                            && (Reachable(flow, body, extern, i) <==>
                                Reachable(flow, Filter(body, keep), extern, Pos(keep, i))))
  {
    ghost var keep := StripKeep(body, extern);
    hide Reachable, Cleanup, Filter, InDeadRun;
    if keep[i] {
      StripIsCleanup(flow, body, extern);
      CleanupKeepsReach(flow, body, extern, keep, (n: nat) => n >= |body| || !InDeadRun(body, extern, n), i);
    } else {
      DeadIsUnreachable(flow, body, extern, i);
    }
  }

  /** After a transfer a dead run goes on as long as lines are blank or dropped. */
  lemma {:induction false} DeadGoesOn(body: Body, extern: set<string>, i: nat, j: nat)
    requires i < j <= |body| && body[i].Transfers()
    requires forall k :: i < k < j ==> body[k].Blank? || !StripKeep(body, extern)[k]
    ensures DeadBefore(body, extern, j)
    decreases j - i
  {
    hide *;
    DeadAfter(body, extern, j - 1);
    if i < j - 1 {
      DeadGoesOn(body, extern, i, j - 1);
      BlankIsNoTarget(body, extern, body[j - 1]);
    }
  }

  lemma DeadAfter(body: Body, extern: set<string>, k: nat)
    requires k < |body|
    ensures body[k].Transfers() ==> DeadBefore(body, extern, k + 1)
    ensures var line := body[k];
            DeadBefore(body, extern, k) && !line.Brace? && !IsTarget(body, extern, line) ==>
              DeadBefore(body, extern, k + 1)
    ensures !StripKeep(body, extern)[k] ==> InDeadRun(body, extern, k)
    ensures InDeadRun(body, extern, k) ==> !body[k].Brace? && !IsTarget(body, extern, body[k])
  {
    hide IsTarget;
  }

  lemma BlankIsNoTarget(body: Body, extern: set<string>, line: Line)
    ensures line.Blank? ==> !IsTarget(body, extern, line) && !line.Brace?
  {
  }

  /**
    Nothing dead is left: what follows a transfer in the stripped body, but for blank lines,
    is a line with a brace, a case label or a label that something enters.
  */
  lemma NothingDeadIsLeft(body: Body, extern: set<string>, a: nat, b: nat)
    requires var out := Filter(body, StripKeep(body, extern));
             && a < b < |out| && out[a].Transfers() && !out[b].Blank?
             && forall c :: a < c < b ==> out[c].Blank?
    ensures var line := Filter(body, StripKeep(body, extern))[b]; line.Brace? || IsTarget(body, extern, line)
  {
    ghost var keep := StripKeep(body, extern);
    ghost var out := Filter(body, keep);
    FilterPrefix(body, keep, |body|);
    ghost var i := Origin(body, keep, a, |body|);
    ghost var j := Origin(body, keep, b, |body|);
    FilterPrefix(body, keep, i);
    FilterPrefix(body, keep, j);
    if j <= i {
      PosGrows(keep, j, i);
    }
    hide Filter, DeadBefore, IsTarget, StripKeep;
    forall k | i < k < j ensures body[k].Blank? || !keep[k] {
      if keep[k] {
        PosGrows(keep, i, k);
        PosGrows(keep, k, j);
        FilterPrefix(body, keep, k);
        assert out[Pos(keep, k)] == body[k];
      }
    }
    DeadGoesOn(body, extern, i, j);
    assert keep[j] && !body[j].Blank?;
  }

  /** The lines that are no labels, in order. */
  function Others(body: Body): Body {
    if body == [] then [] else (if body[0].Label? then [] else [body[0]]) + Others(body[1..])
  }

  lemma {:induction false} OthersStay(body: Body, keep: seq<bool>)
    requires |keep| == |body| && forall i :: 0 <= i < |body| && !body[i].Label? ==> keep[i]
    ensures Others(Filter(body, keep)) == Others(body)
    decreases |body|
  {
    if body == [] {
    } else {
      ghost var rest := Filter(body[1..], keep[1..]);
      assert forall i :: 0 <= i < |body[1..]| ==> body[1..][i] == body[i + 1] && keep[1..][i] == keep[i + 1];
      OthersStay(body[1..], keep[1..]);
      assert ([body[0]] + rest)[1..] == rest;
      assert [] + rest == rest;
    }
  }

  /** First definitions stay, repeated ones go. */
  function DedupeKeep(body: Body): (keep: seq<bool>)
    ensures |keep| == |body|
    ensures forall i :: 0 <= i < |body| ==> keep[i] == (body[i].Label? ==> FirstDef(body, body[i].name, 0) == i)
  {
    seq(|body|, i requires 0 <= i < |body| => body[i].Label? ==> FirstDef(body, body[i].name, 0) == i)
  }

  /** Bare labels that nothing names and that are not entered from outside go. */
  function PruneKeep(body: Body, extern: set<string>): (keep: seq<bool>)
    ensures |keep| == |body|
    ensures forall i :: 0 <= i < |body| ==>
            keep[i] == !(body[i].Label? && IsBlockLabel(body[i].name) && !Referenced(body, body[i].name) &&
                body[i].name !in extern)
  {
    seq(|body|, i requires 0 <= i < |body| =>
          !(body[i].Label? && IsBlockLabel(body[i].name) && !Referenced(body, body[i].name) && body[i].name !in extern))
  }

  lemma DedupeIsCleanup(flow: Flow, body: Body, extern: set<string>)
    ensures Cleanup(flow, body, extern, DedupeKeep(body), (n: nat) => true)
  {
    hide FirstDef, FallsTo, FlowsTo;
  }

  lemma PruneIsCleanup(flow: Flow, body: Body, extern: set<string>)
    ensures Cleanup(flow, body, extern, PruneKeep(body, extern), (n: nat) => true)
  {
    ghost var keep := PruneKeep(body, extern);
    hide FirstDef, FallsTo, FlowsTo, PruneKeep;
    forall i: nat | i < |body| ensures Spares(body, keep, i) {
      forall d | 0 <= d < |body| && JumpsTo(body, i, d) ensures keep[d] {
        assert Referenced(body, body[d].name);
      }
    }
  }

  /** Deduplication and pruning, too, leave every remaining line exactly as reachable as it was. */
  lemma DedupeKeepsReach(flow: Flow, body: Body, extern: set<string>, i: nat)
    requires i < |body| && DedupeKeep(body)[i]
    ensures var keep := DedupeKeep(body);
            Pos(keep, i) <= |Filter(body, keep)|
            && (Reachable(flow, body, extern, i) <==> Reachable(flow, Filter(body, keep), extern, Pos(keep, i)))
  {
    DedupeIsCleanup(flow, body, extern);
    hide Reachable, Cleanup, Filter;
    CleanupKeepsReach(flow, body, extern, DedupeKeep(body), (n: nat) => true, i);
  }

  lemma PruneKeepsReach(flow: Flow, body: Body, extern: set<string>, i: nat)
    requires i < |body| && PruneKeep(body, extern)[i]
    ensures var keep := PruneKeep(body, extern);
            Pos(keep, i) <= |Filter(body, keep)|
            && (Reachable(flow, body, extern, i) <==> Reachable(flow, Filter(body, keep), extern, Pos(keep, i)))
  {
    PruneIsCleanup(flow, body, extern);
    hide Reachable, Cleanup, Filter;
    CleanupKeepsReach(flow, body, extern, PruneKeep(body, extern), (n: nat) => true, i);
  }

  // ---------- consistency ----------

  predicate Defined(body: Body, l: string) {
    exists i :: 0 <= i < |body| && body[i] == Label(l)
  }

  /** Some block label is defined twice (`has_duplicate_label_defs`). */
  predicate Duplicated(body: Body, l: string) {
    exists i, j :: 0 <= i < j < |body| && body[i] == Label(l) && body[j] == Label(l)
  }

  ghost predicate Consistent(body: Body) {
    && (forall l :: IsBlockLabel(l) && Referenced(body, l) ==> Defined(body, l))
    && forall l :: IsBlockLabel(l) ==> !Duplicated(body, l)
  }

  ghost predicate Dangles(body: Body) {
    exists l :: IsBlockLabel(l) && Referenced(body, l) && !Defined(body, l)
  }

  /** What a filtered body defines and names. */
  lemma FilterNames(body: Body, keep: seq<bool>, l: string)
    requires |keep| == |body|
    ensures Defined(Filter(body, keep), l) <==> exists i :: 0 <= i < |body| && keep[i] && body[i] == Label(l)
    ensures Referenced(Filter(body, keep), l) <==> exists i :: 0 <= i < |body| && keep[i] && body[i].Names(l)
    ensures Duplicated(Filter(body, keep), l)
            <==> exists i, j :: 0 <= i < j < |body| && keep[i] && keep[j] && body[i] == Label(l) && body[j] == Label(l)
  {
    ghost var new_ := Filter(body, keep);
    hide Filter;
    FilterPrefix(body, keep, |body|);
    forall i | 0 <= i < |body| && keep[i] ensures Pos(keep, i) < |new_| && new_[Pos(keep, i)] == body[i] {
      FilterPrefix(body, keep, i);
    }
    if a :| 0 <= a < |new_| && (new_[a] == Label(l) || new_[a].Names(l)) {
      ghost var i := Origin(body, keep, a, |body|);
    }
    if Defined(new_, l) {
      ghost var a :| 0 <= a < |new_| && new_[a] == Label(l);
      ghost var i := Origin(body, keep, a, |body|);
      assert keep[i] && body[i] == Label(l);
    }
    if Referenced(new_, l) {
      ghost var a :| 0 <= a < |new_| && new_[a].Names(l);
      ghost var i := Origin(body, keep, a, |body|);
      assert keep[i] && body[i].Names(l);
    }
    if Duplicated(new_, l) {
      ghost var a, b :| 0 <= a < b < |new_| && new_[a] == Label(l) && new_[b] == Label(l);
      ghost var i := Origin(body, keep, a, |body|);
      ghost var j := Origin(body, keep, b, |body|);
      if j <= i {
        PosGrows(keep, j, i);
      }
      assert keep[i] && keep[j] && i < j;
    }
    if i, j :| 0 <= i < j < |body| && keep[i] && keep[j] && body[i] == Label(l) && body[j] == Label(l) {
      PosGrows(keep, i, j);
      assert new_[Pos(keep, i)] == Label(l) && new_[Pos(keep, j)] == Label(l);
    }
  }

  /** Deduplication keeps the defined and the named labels, and every label's first definition. */
  lemma DedupeKeepsLabels(body: Body, l: string)
    ensures var keep := DedupeKeep(body);
            var new_ := Filter(body, keep);
            && (Defined(new_, l) <==> Defined(body, l)) && (Referenced(new_, l) <==> Referenced(body, l))
            && !Duplicated(new_, l)
            && FirstDef(new_, l, 0) == Pos(keep, FirstDef(body, l, 0))
  {
    ghost var keep := DedupeKeep(body);
    hide Filter, FirstDef;
    FilterNames(body, keep, l);
    ghost var d := FirstDef(body, l, 0);
    FirstDefFound(body, l);
    FirstDefMoves(body, keep, l);
    if i :| 0 <= i < |body| && body[i] == Label(l) {
      FirstDefAtMost(body, l, i);
      assert keep[d] && body[d] == Label(l);
    }
  }

  /** After deduplication the body is consistent exactly when no goto dangled before. */
  lemma DedupedIsConsistent(body: Body)
    ensures Consistent(Filter(body, DedupeKeep(body))) <==> !Dangles(body)
  {
    ghost var new_ := Filter(body, DedupeKeep(body));
    hide Filter, DedupeKeep, Defined, Referenced, Duplicated, IsBlockLabel;
    forall l
      ensures (Defined(new_, l) <==> Defined(body, l)) && (Referenced(new_, l) <==> Referenced(body, l)) &&
              !Duplicated(new_, l)
    {
      DedupeKeepsLabels(body, l);
    }
  }

  /** Deduplication and pruning take away labels only. */
  lemma OnlyLabelsGo(body: Body, extern: set<string>)
    ensures Others(Filter(body, DedupeKeep(body))) == Others(body)
    ensures Others(Filter(body, PruneKeep(body, extern))) == Others(body)
  {
    hide Filter, Others, FirstDef, Referenced, IsBlockLabel;
    OthersStay(body, DedupeKeep(body));
    OthersStay(body, PruneKeep(body, extern));
  }

  /** Pruning: what is named stays defined as it was; what stays duplicated was named or entered from outside. */
  lemma PruneKeepsLabels(body: Body, extern: set<string>, l: string)
    ensures var new_ := Filter(body, PruneKeep(body, extern));
            && (Referenced(new_, l) <==> Referenced(body, l))
            && (Referenced(body, l) || l in extern ==>
                (Defined(new_, l) <==> Defined(body, l)) && (Duplicated(new_, l) <==> Duplicated(body, l)))
            && (IsBlockLabel(l) && !Referenced(body, l) && l !in extern ==> !Defined(new_, l))
  {
    hide Filter;
    FilterNames(body, PruneKeep(body, extern), l);
  }

  /** Pruned, a body is consistent exactly when no goto dangles and no label in use is defined twice. */
  lemma PrunedIsConsistent(body: Body, extern: set<string>)
    ensures Consistent(Filter(body, PruneKeep(body, extern)))
            <==> !Dangles(body) && forall l :: IsBlockLabel(l) && (Referenced(body, l) || l in extern) ==>
                !Duplicated(body, l)
    ensures Consistent(body) ==> Consistent(Filter(body, PruneKeep(body, extern)))
  {
    ghost var new_ := Filter(body, PruneKeep(body, extern));
    forall l
      ensures Referenced(new_, l) <==> Referenced(body, l)
      ensures Referenced(body, l) || l in extern ==>
              (Defined(new_, l) <==> Defined(body, l)) && (Duplicated(new_, l) <==> Duplicated(body, l))
      ensures IsBlockLabel(l) && !Referenced(body, l) && l !in extern ==> !Defined(new_, l) && !Duplicated(new_, l)
    {
      PruneKeepsLabels(body, extern, l);
    }
    hide Filter, PruneKeep, Defined, Referenced, Duplicated, IsBlockLabel;
  }

  // ---------- the loops ----------

  function NamedBy(line: Line): (r: set<string>)
    ensures forall l :: l in r <==> line.Names(l)
  {
    match line
    case CaseLabel(refs) => set l | l in refs
    case Brace(refs) => set l | l in refs
    case Plain(refs) => set l | l in refs
    case Goto(target) => {target}
    case _ => {}
  }

  /** `scan_labels`: the labels the body defines and the labels its gotos name. */
  method ScanLabels(body: Body) returns (defined: set<string>, referenced: set<string>)
    ensures forall l :: l in defined <==> IsBlockLabel(l) && Defined(body, l)
    ensures forall l :: l in referenced <==> Referenced(body, l)
  {
    hide IsBlockLabel;
    defined, referenced := {}, {};
    var i := 0;
    while i < |body|
      invariant 0 <= i <= |body|
      invariant forall l :: l in defined <==> IsBlockLabel(l) && exists k :: 0 <= k < i && body[k] == Label(l)
      invariant forall l :: l in referenced <==> exists k :: 0 <= k < i && body[k].Names(l)
    {
      if body[i].Label? && IsBlockLabel(body[i].name) {
        defined := defined + {body[i].name};
      }
      referenced := referenced + NamedBy(body[i]);
      i := i + 1;
    }
  }

  /** `has_duplicate_label_defs`. */
  method HasDuplicate(body: Body) returns (dup: bool)
    ensures dup <==> exists l :: IsBlockLabel(l) && Duplicated(body, l)
  {
    hide IsBlockLabel;
    var seen: set<string> := {};
    var i := 0;
    while i < |body|
      invariant 0 <= i <= |body|
      invariant forall l :: l in seen <==> IsBlockLabel(l) && exists k :: 0 <= k < i && body[k] == Label(l)
      invariant forall l, a, b :: IsBlockLabel(l) && 0 <= a < b < i ==> !(body[a] == Label(l) && body[b] == Label(l))
    {
      if body[i].Label? && IsBlockLabel(body[i].name) {
        if body[i].name in seen {
          assert Duplicated(body, body[i].name);
          return true;
        }
        seen := seen + {body[i].name};
      }
      i := i + 1;
    }
    return false;
  }

  lemma FilterStep(body: Body, keep: seq<bool>, i: nat)
    requires |keep| == |body| && i < |body|
    ensures Filter(body[..i + 1], keep[..i + 1]) == Filter(body[..i], keep[..i]) + if keep[i] then [body[i]] else []
  {
    ghost var b, k := body[..i + 1], keep[..i + 1];
    FilterSnoc(b, k);
    assert b[..i] == body[..i] && k[..i] == keep[..i];
  }

  lemma FilterWhole(body: Body, keep: seq<bool>)
    requires |keep| == |body|
    ensures Filter(body[..|body|], keep[..|body|]) == Filter(body, keep)
    ensures Filter(body[..0], keep[..0]) == []
  {
    assert body[..|body|] == body && keep[..|body|] == keep;
  }

  /** `strip_unreachable_after_terminator`. */
  method StripUnreachable(body: Body, extern: set<string>) returns (out: Body)
    ensures out == Filter(body, StripKeep(body, extern))
  {
    var _, referenced := ScanLabels(body);
    ghost var keep := StripKeep(body, extern);
    hide Filter, IsBlockLabel, Referenced;
    out := [];
    FilterWhole(body, keep);
    var dead := false;
    var i := 0;
    while i < |body|
      invariant 0 <= i <= |body|
      invariant dead == DeadBefore(body, extern, i)
      invariant out == Filter(body[..i], keep[..i])
    {
      var line := body[i];
      FilterStep(body, keep, i);
      var drop := false;
      if dead {
        if !line.Blank? {
          if line.Brace? || line.CaseLabel? ||
              (line.Label? && IsBlockLabel(line.name) && (line.name in referenced || line.name in extern)) {
            dead := false;
          } else {
            drop := true;
          }
        }
      }
      if !drop {
        out := out + [line];
        if line.Transfers() {
          dead := true;
        }
      }
      i := i + 1;
    }
  }

  lemma AllKept(body: Body, keep: seq<bool>)
    requires |keep| == |body| && forall i :: 0 <= i < |body| ==> keep[i]
    ensures Filter(body, keep) == body
  {
    if body != [] {
      AllKept(body[1..], keep[1..]);
    }
  }

  /** Some block label is defined twice: what `has_duplicate_label_defs` looks for. */
  ghost predicate HasTwice(body: Body) {
    exists l :: IsBlockLabel(l) && Duplicated(body, l)
  }

  /**
    `dedupe_label_defs`: a body in which no block label is defined twice is returned as it
    is, also when a label of another form is; else every repeated definition goes.
  */
  method DedupeLabelDefs(body: Body) returns (out: Body)
    ensures out == if HasTwice(body) then Filter(body, DedupeKeep(body)) else body
    ensures OnlyBlockLabels(body) ==> out == Filter(body, DedupeKeep(body))
  {
    ghost var keep := DedupeKeep(body);
    var dup := HasDuplicate(body);
    hide Filter, IsBlockLabel, FirstDef;
    if !dup {
      if OnlyBlockLabels(body) {
        OnceIsKept(body);
      }
      return body;
    }
    var seen: set<string> := {};
    out := [];
    FilterWhole(body, keep);
    var i := 0;
    while i < |body|
      invariant 0 <= i <= |body|
      invariant forall l :: l in seen <==> exists k :: 0 <= k < i && body[k] == Label(l)
      invariant out == Filter(body[..i], keep[..i])
    {
      var line := body[i];
      FilterStep(body, keep, i);
      if line.Label? {
        FirstDefAtMost(body, line.name, i);
        FirstDefFound(body, line.name);
        FirstDefEarlier(body, line.name, i);
      }
      if line.Label? && line.name in seen {
      } else {
        if line.Label? {
          seen := seen + {line.name};
        }
        out := out + [line];
      }
      i := i + 1;
    }
  }

  lemma OnceIsKept(body: Body)
    requires OnlyBlockLabels(body) && !HasTwice(body)
    ensures Filter(body, DedupeKeep(body)) == body
  {
    hide Filter, IsBlockLabel, FirstDef;
    forall i | 0 <= i < |body| ensures DedupeKeep(body)[i] {
      if body[i].Label? {
        FirstDefAtMost(body, body[i].name, i);
        FirstDefFound(body, body[i].name);
        assert !Duplicated(body, body[i].name);
      }
    }
    AllKept(body, DedupeKeep(body));
  }

  lemma FirstDefEarlier(body: Body, l: string, i: nat)
    requires i < |body| && body[i] == Label(l)
    ensures FirstDef(body, l, 0) == i <==> !exists k :: 0 <= k < i && body[k] == Label(l)
  {
    FirstDefAtMost(body, l, i);
    FirstDefFound(body, l);
  }

  /** `labels_consistent`. */
  method LabelsConsistent(body: Body) returns (ok: bool)
    ensures ok <==> Consistent(body)
  {
    var defined, referenced := ScanLabels(body);
    var dup := HasDuplicate(body);
    hide Defined, Referenced, Duplicated, IsBlockLabel;
    var missing := set l | l in referenced && IsBlockLabel(l) && l !in defined;
    ok := missing == {} && !dup;
    if missing != {} {
      ghost var l :| l in missing;
      assert IsBlockLabel(l) && Referenced(body, l) && !Defined(body, l);
    } else {
      forall l | IsBlockLabel(l) && Referenced(body, l) ensures Defined(body, l) {
        assert l !in missing;
      }
    }
  }

  /** `prune_dead_labels`. */
  method PruneDeadLabels(body: Body, extern: set<string>) returns (out: Body)
    ensures out == Filter(body, PruneKeep(body, extern))
  {
    var defined, referenced := ScanLabels(body);
    ghost var keep := PruneKeep(body, extern);
    hide Filter, Referenced, IsBlockLabel;
    var dead := set l | l in defined && l !in referenced && l !in extern;
    if dead == {} {
      forall i | 0 <= i < |body| ensures keep[i] {
        if body[i].Label? {
          assert Defined(body, body[i].name);
          assert body[i].name !in dead;
        }
      }
      AllKept(body, keep);
      return body;
    }
    out := [];
    FilterWhole(body, keep);
    var i := 0;
    while i < |body|
      invariant 0 <= i <= |body| && out == Filter(body[..i], keep[..i])
    {
      var line := body[i];
      FilterStep(body, keep, i);
      if line.Label? {
        assert Defined(body, line.name);
      }
      if line.Label? && IsBlockLabel(line.name) && line.name in dead {
      } else {
        out := out + [line];
      }
      i := i + 1;
    }
  }

  // ---------- a label of another form ----------

  /**
    `goto x` lands on a label the stripper does not take for a target: it drops a line that
    is reached.  The emitter itself makes block labels only; the example says what the
    stripper relies on.
  */
  lemma OtherLabelsAreNotSafe(flow: Flow, l: string)
    requires !IsBlockLabel(l)
    ensures var body := [Goto(l), Label(l), Exit];
            !StripKeep(body, {})[1] && Reachable(flow, body, {}, 1)
  {
    ghost var body := [Goto(l), Label(l), Exit];
    assert DeadBefore(body, {}, 1);
    assert FirstDef(body, l, 0) == 1;
    assert JumpsTo(body, 0, 1);
    assert Steps(flow, body, 0, 1);
    hide *;
    FirstIsStart(body);
    StartReaches(flow, body, {}, 0);
    ReachExtends(flow, body, {}, 0, 1);
  }

  lemma FirstIsStart(body: Body)
    ensures Starts(body, {}, 0)
  {
  }
}
