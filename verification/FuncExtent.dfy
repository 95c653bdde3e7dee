/**
  Function extents: from each start the instructions are walked to the next start, the end
  of the segment, or a return or jump that no branch of the function reaches past.
*/
module FuncExtent {

  datatype RefKind = NoRef | CallRef | JmpRef | BranchRef | OtherRef

  datatype Insn = Insn(rva: nat, size: nat, ref: RefKind, target: nat, isRet: bool, isHlt: bool, isJmp: bool,
      hasBracket: bool)

  datatype Func = Func(rva: nat, size: nat, blocks: nat, calls: nat)

  const NO_LIMIT: nat := 0xFFFF_FFFF_FFFF_FFFF

  /** Decoded instructions: ascending, not empty, not overlapping, all below the last address. */
  ghost predicate Decoded(insns: seq<Insn>) {
    && (forall i :: 0 <= i < |insns| ==> insns[i].size > 0 && insns[i].rva + insns[i].size <= NO_LIMIT)
    && forall i :: 0 < i < |insns| ==> insns[i - 1].rva + insns[i - 1].size <= insns[i].rva
  }

  lemma {:induction false} InOrder(insns: seq<Insn>, i: nat, j: nat)
    requires Decoded(insns) && i < j < |insns|
    ensures insns[i].rva + insns[i].size <= insns[j].rva
    decreases j - i
  {
    if i < j - 1 {
      InOrder(insns, i, j - 1);
      assert insns[j - 1].rva + insns[j - 1].size <= insns[j].rva;
    }
  }

  /** `insn_index_exact`: binary search for an instruction start. */
  method InsnIndexExact(insns: seq<Insn>, rva: nat) returns (found: bool, i: nat)
    requires Decoded(insns)
    ensures found ==> i < |insns| && insns[i].rva == rva
    ensures !found ==> forall k :: 0 <= k < |insns| ==> insns[k].rva != rva
  {
    var lo, hi := 0, |insns|;
    while lo < hi
      invariant 0 <= lo <= hi <= |insns|
      invariant forall k :: 0 <= k < lo ==> insns[k].rva < rva
      invariant forall k :: hi <= k < |insns| ==> insns[k].rva >= rva
    {
      var mid := lo + (hi - lo) / 2;
      if insns[mid].rva < rva {
        forall k | 0 <= k < mid + 1 ensures insns[k].rva < rva {
          if k < mid {
            InOrder(insns, k, mid);
          }
        }
        lo := mid + 1;
      } else {
        forall k | mid <= k < |insns| ensures insns[k].rva >= rva {
          if mid < k {
            InOrder(insns, mid, k);
          }
        }
        hi := mid;
      }
    }
    if lo < |insns| && insns[lo].rva == rva {
      return true, lo;
    }
    forall k | 0 <= k < |insns| ensures insns[k].rva != rva {
      if lo < k {
        InOrder(insns, lo, k);
      }
    }
    return false, 0;
  }

  // ---------- one function ----------

  /** Where one function may lie, and what the jump-table resolver says for each instruction. */
  datatype Frame = Frame(start: nat, next: nat, segEnd: nat, tables: int -> nat)

  predicate Branches(i: Insn) {
    i.ref.BranchRef? || i.ref.JmpRef?
  }

  predicate Ends(i: Insn) {
    i.isRet || i.ref.JmpRef? || i.isHlt
  }

  predicate Indirect(i: Insn) {
    i.isJmp && !i.ref.JmpRef? && !i.ref.BranchRef? && !i.hasBracket
  }

  /** A direct branch target inside the function's bounds. */
  predicate Internal(f: Frame, t: nat) {
    f.start <= t < f.next && t < f.segEnd
  }

  function CallsIn(insns: seq<Insn>, from: nat, n: nat): nat
    requires from <= n <= |insns|
    decreases n - from
  {
    if from == n then 0 else CallsIn(insns, from, n - 1) + if insns[n - 1].ref.CallRef? then 1 else 0
  }

  /** The block leaders the instructions of a body give: the start, successors of branches, internal targets. */
  ghost predicate IsLeader(insns: seq<Insn>, f: Frame, from: nat, to: nat, a: nat)
    requires from <= to <= |insns|
  {
    || a == f.start
    || (exists k :: from <= k < to && Branches(insns[k]) && k + 1 < |insns| && insns[k + 1].rva == a && a < f.next)
    || exists k :: from <= k < to && Branches(insns[k]) && insns[k].target == a && Internal(f, a)
  }

  /** The body of a function as the walk leaves it: instructions `from` up to `to`. */
  ghost predicate IsBody(insns: seq<Insn>, f: Frame, from: nat, to: nat, g: Func)
    requires from <= to <= |insns|
  {
    && g.rva == f.start
    && InBounds(insns, f, from, to)
    && g.size == (if from == to then 0 else insns[to - 1].rva + insns[to - 1].size - f.start)
    && g.calls == CallsIn(insns, from, to)
  }

  /** Every internal target of the body that is an instruction start lies in the body. */
  ghost predicate Closed(insns: seq<Insn>, f: Frame, from: nat, to: nat, g: Func)
    requires from <= to <= |insns|
  {
    forall k, n :: from <= k < to && Branches(insns[k]) && Internal(f, insns[k].target)
                   && 0 <= n < |insns| && insns[n].rva == insns[k].target ==>
      insns[k].target < g.rva + g.size
  }

  /** No further instruction, or the next one lies past the bounds. */
  predicate Bounded(insns: seq<Insn>, f: Frame, to: nat)
    requires to <= |insns|
  {
    to == |insns| || insns[to].rva >= f.next || insns[to].rva >= f.segEnd
  }

  /** The last instruction is an end that nothing before it branches past. */
  ghost predicate EndsAt(insns: seq<Insn>, f: Frame, from: nat, to: nat)
    requires from <= to <= |insns|
  {
    && from < to && Ends(insns[to - 1])
    && (forall k :: from <= k < to && Branches(insns[k]) && Internal(f, insns[k].target) ==>
          insns[k].target < insns[to - 1].rva + insns[to - 1].size)
    && forall k :: from <= k < to && Indirect(insns[k]) ==> f.tables(k) < insns[to - 1].rva + insns[to - 1].size
  }

  /** The walk has ended for a reason: it ran into a bound, or into an end nothing branches past. */
  ghost predicate Stopped(insns: seq<Insn>, f: Frame, from: nat, to: nat)
    requires from <= to <= |insns|
  {
    Bounded(insns, f, to) || EndsAt(insns, f, from, to)
  }

  /** There was no reason to end before: the walk goes to the first one, and no further. */
  ghost predicate IsExtent(insns: seq<Insn>, f: Frame, from: nat, to: nat)
    requires from <= to <= |insns|
  {
    Stopped(insns, f, from, to) && forall n :: from <= n < to ==> !Stopped(insns, f, from, n)
  }

  /** So there is one extent. */
  lemma OneExtent(insns: seq<Insn>, f: Frame, from: nat, to: nat, to': nat)
    requires from <= to <= |insns| && from <= to' <= |insns|
    requires IsExtent(insns, f, from, to) && IsExtent(insns, f, from, to')
    ensures to == to'
  {
    hide Stopped;
  }

  lemma StoppedIsClosed(insns: seq<Insn>, f: Frame, from: nat, to: nat, g: Func)
    requires Decoded(insns) && from <= to <= |insns| && (from < |insns| ==> insns[from].rva == f.start)
    requires IsBody(insns, f, from, to, g) && Stopped(insns, f, from, to)
    ensures Closed(insns, f, from, to, g)
  {
    forall k, n | from <= k < to && Branches(insns[k]) && Internal(f, insns[k].target)
                  && 0 <= n < |insns| && insns[n].rva == insns[k].target
      ensures insns[k].target < g.rva + g.size
    {
      if n < to - 1 {
        InOrder(insns, n, to - 1);
      }
      if to < |insns| && to < n {
        InOrder(insns, to, n);
      }
      if from < to - 1 {
        InOrder(insns, from, to - 1);
      }
    }
  }

  /** The body does not reach into any later instruction. */
  lemma BodyEndsBefore(insns: seq<Insn>, f: Frame, from: nat, to: nat, g: Func, n: nat)
    requires Decoded(insns) && from < to <= n < |insns| && insns[from].rva == f.start && IsBody(insns, f, from, to, g)
    ensures g.rva + g.size <= insns[n].rva
  {
    if from < to - 1 {
      InOrder(insns, from, to - 1);
    }
    InOrder(insns, to - 1, n);
  }

  function Max(a: nat, b: nat): nat {
    if a < b then b else a
  }

  ghost predicate LeadersAre(insns: seq<Insn>, f: Frame, from: nat, n: nat, leaders: set<nat>)
    requires from <= n <= |insns|
  {
    forall a :: a in leaders <==> IsLeader(insns, f, from, n, a)
  }

  ghost predicate InBounds(insns: seq<Insn>, f: Frame, from: nat, n: nat)
    requires from <= n <= |insns|
  {
    forall k :: from <= k < n ==> insns[k].rva < f.next && insns[k].rva < f.segEnd
  }

  /** `furthest` is the furthest of the start and the internal targets and jump tables seen so far. */
  ghost predicate Reaches(insns: seq<Insn>, f: Frame, from: nat, n: nat, furthest: nat)
    requires from <= n <= |insns|
  {
    && (forall k :: from <= k < n && Branches(insns[k]) && Internal(f, insns[k].target) ==> insns[k].target <= furthest)
    && (forall k :: from <= k < n && Indirect(insns[k]) ==> f.tables(k) <= furthest)
    && (|| furthest == f.start
        || (exists k :: (from <= k < n && Branches(insns[k]) && Internal(f, insns[k].target) &&
                         insns[k].target == furthest))
        || exists k :: from <= k < n && Indirect(insns[k]) && f.tables(k) == furthest)
  }

  /** One more instruction: the furthest seen is kept, or replaced by what this one reaches. */
  lemma ReachesStep(insns: seq<Insn>, f: Frame, from: nat, n: nat, x: nat, y: nat)
    requires from <= n < |insns| && Reaches(insns, f, from, n, x) && x <= y
    requires Branches(insns[n]) && Internal(f, insns[n].target) ==> insns[n].target <= y
    requires Indirect(insns[n]) ==> f.tables(n) <= y
    requires || y == x || (Branches(insns[n]) && Internal(f, insns[n].target) && insns[n].target == y)
             || (Indirect(insns[n]) && f.tables(n) == y)
    ensures Reaches(insns, f, from, n + 1, y)
  {
    hide Branches, Indirect, Internal;
  }

  /** The walk has seen an end that nothing branches past exactly when the end lies past the furthest. */
  lemma EndsPastFurthest(insns: seq<Insn>, f: Frame, from: nat, n: nat, furthest: nat)
    requires Decoded(insns) && from < n <= |insns| && insns[from].rva == f.start && Reaches(insns, f, from, n, furthest)
    ensures EndsAt(insns, f, from, n) <==> Ends(insns[n - 1]) && insns[n - 1].rva + insns[n - 1].size > furthest
  {
    StartBelow(insns, f, from, n);
    hide Branches, Indirect, Internal, Decoded;
  }

  /** The walk of one function. */
  method Walk(insns: seq<Insn>, f: Frame, si: nat) returns (g: Func, ghost to: nat, ghost leaders: set<nat>)
    requires Decoded(insns) && si < |insns| && insns[si].rva == f.start
    ensures si <= to <= |insns| && IsBody(insns, f, si, to, g) && IsExtent(insns, f, si, to)
    ensures f.start < f.next && f.start < f.segEnd ==> si < to
    ensures g.blocks == |leaders| && LeadersAre(insns, f, si, to, leaders)
  {
    hide LeadersAre, Reaches, Bounded, EndsAt, Stopped, IsExtent, Branches, Ends, Indirect, Internal, InBounds, IsBody;
    var heads: set<nat> := {f.start};
    var calls: nat := 0;
    var fend := f.start;
    var idx := si;
    var furthest := f.start;
    StartsOut(insns, f, si);
    to := idx;
    ghost var stop := false;
    while idx < |insns|
      invariant si <= idx <= |insns| && to == idx && !stop
      invariant InBounds(insns, f, si, idx) && fend == EndOf(insns, f, si, idx)
      invariant calls == CallsIn(insns, si, idx)
      invariant LeadersAre(insns, f, si, idx, heads) && Reaches(insns, f, si, idx, furthest)
      invariant GoesOn(insns, f, si, idx)
      decreases |insns| - idx
    {
      var in_ := insns[idx];
      if in_.rva >= f.next {
        BoundStops(insns, f, si, idx);
        stop := true;
        break;
      }
      if in_.rva >= f.segEnd {
        BoundStops(insns, f, si, idx);
        stop := true;
        break;
      }
      fend := in_.rva + in_.size;
      if in_.ref.CallRef? {
        calls := calls + 1;
      }
      ghost var before, reached := heads, furthest;
      if Indirect(in_) {
        furthest := Max(furthest, f.tables(idx));
      }
      if Branches(in_) {
        if idx + 1 < |insns| && insns[idx + 1].rva < f.next {
          heads := heads + {insns[idx + 1].rva};
        }
        if Internal(f, in_.target) {
          heads := heads + {in_.target};
          furthest := Max(furthest, in_.target);
        }
      }
      LeadersStep(insns, f, si, idx, before, heads);
      ReachesStep(insns, f, si, idx, reached, furthest);
      InBoundsStep(insns, f, si, idx);
      to := idx + 1;
      EndsPastFurthest(insns, f, si, idx + 1, furthest);
      GoesFurther(insns, f, si, idx);
      if Ends(in_) && in_.rva + in_.size > furthest {
        EndStops(insns, f, si, idx + 1);
        stop := true;
        idx := idx + 1;
        // The source peeks at the next instruction here and would go on if it were a leader
        // no further than the furthest target; it never is, as it lies past this one's end.
        assert !(idx < |insns| && insns[idx].rva in heads && insns[idx].rva <= furthest);
        break;
      }
      NoEndYet(insns, f, si, idx + 1);
      idx := idx + 1;
    }
    if !stop {
      BoundStops(insns, f, si, to);
    }
    leaders := heads;
    g := Func(f.start, if fend > f.start then fend - f.start else 0, |heads|, calls);
    MakesBody(insns, f, si, to, g);
  }

  function EndOf(insns: seq<Insn>, f: Frame, from: nat, n: nat): nat
    requires from <= n <= |insns|
  {
    if n == from then f.start else insns[n - 1].rva + insns[n - 1].size
  }

  lemma InBoundsStep(insns: seq<Insn>, f: Frame, from: nat, n: nat)
    requires from <= n < |insns| && InBounds(insns, f, from, n) && insns[n].rva < f.next && insns[n].rva < f.segEnd
    ensures InBounds(insns, f, from, n + 1)
  {
  }

  lemma MakesBody(insns: seq<Insn>, f: Frame, from: nat, n: nat, g: Func)
    requires Decoded(insns) && from <= n <= |insns| && from < |insns| && insns[from].rva == f.start &&
             InBounds(insns, f, from, n)
    requires g.rva == f.start && g.calls == CallsIn(insns, from, n)
    requires var end := EndOf(insns, f, from, n); g.size == if end > f.start then end - f.start else 0
    ensures IsBody(insns, f, from, n, g)
  {
    StartBelow(insns, f, from, n);
  }

  lemma StartsOut(insns: seq<Insn>, f: Frame, si: nat)
    requires si < |insns|
    ensures LeadersAre(insns, f, si, si, {f.start}) && Reaches(insns, f, si, si, f.start) && InBounds(insns, f, si, si)
    ensures GoesOn(insns, f, si, si)
  {
  }

  /** No reason to end before `n`, and none at `n` but possibly a bound. */
  ghost predicate GoesOn(insns: seq<Insn>, f: Frame, from: nat, n: nat)
    requires from <= n <= |insns|
  {
    (forall k :: from <= k < n ==> !Stopped(insns, f, from, k)) && !EndsAt(insns, f, from, n)
  }

  lemma BoundStops(insns: seq<Insn>, f: Frame, from: nat, n: nat)
    requires from <= n <= |insns| && (n == |insns| || insns[n].rva >= f.next || insns[n].rva >= f.segEnd)
    requires GoesOn(insns, f, from, n)
    ensures IsExtent(insns, f, from, n)
  {
    hide EndsAt;
  }

  /** Between the bounds and without an end the walk has no reason to stop. */
  ghost predicate NotBefore(insns: seq<Insn>, f: Frame, from: nat, n: nat)
    requires from <= n <= |insns|
  {
    forall k :: from <= k < n ==> !Stopped(insns, f, from, k)
  }

  lemma GoesFurther(insns: seq<Insn>, f: Frame, from: nat, n: nat)
    requires from <= n < |insns| && GoesOn(insns, f, from, n) && insns[n].rva < f.next && insns[n].rva < f.segEnd
    ensures NotBefore(insns, f, from, n + 1)
  {
    hide EndsAt;
  }

  lemma EndStops(insns: seq<Insn>, f: Frame, from: nat, n: nat)
    requires from <= n <= |insns| && NotBefore(insns, f, from, n) && EndsAt(insns, f, from, n)
    ensures IsExtent(insns, f, from, n)
  {
    hide EndsAt, Bounded;
  }

  lemma NoEndYet(insns: seq<Insn>, f: Frame, from: nat, n: nat)
    requires from <= n <= |insns| && NotBefore(insns, f, from, n) && !EndsAt(insns, f, from, n)
    ensures GoesOn(insns, f, from, n)
  {
    hide EndsAt, Bounded;
  }

  lemma StartBelow(insns: seq<Insn>, f: Frame, si: nat, to: nat)
    requires Decoded(insns) && si <= to <= |insns| && si < |insns| && insns[si].rva == f.start
    ensures si < to ==> insns[to - 1].rva + insns[to - 1].size > f.start
  {
    if si < to - 1 {
      InOrder(insns, si, to - 1);
    }
  }

  lemma LeadersStep(insns: seq<Insn>, f: Frame, si: nat, idx: nat, before: set<nat>, after: set<nat>)
    requires si <= idx < |insns| && LeadersAre(insns, f, si, idx, before)
    requires after == before
                      + (if Branches(insns[idx]) && idx + 1 < |insns| &&
                          insns[idx + 1].rva < f.next then {insns[idx + 1].rva} else {})
                      + (if Branches(insns[idx]) && Internal(f, insns[idx].target) then {insns[idx].target} else {})
    ensures LeadersAre(insns, f, si, idx + 1, after)
  {
    forall a ensures a in after <==> IsLeader(insns, f, si, idx + 1, a) {
      assert a in before <==> IsLeader(insns, f, si, idx, a);
    }
  }

  // ---------- all functions ----------

  /** Where the body of a recovered function came from. */
  datatype Origin = Origin(at: nat, from: nat, to: nat, leaders: set<nat>)

  predicate IsStart(insns: seq<Insn>, a: nat) {
    exists i :: 0 <= i < |insns| && insns[i].rva == a
  }

  /** The function is the walk from its start to the first reason to end, with its blocks and calls counted. */
  ghost predicate Recovered(insns: seq<Insn>, f: Frame, g: Func, o: Origin) {
    && o.from < |insns| && o.from <= o.to <= |insns| && insns[o.from].rva == f.start
    && IsBody(insns, f, o.from, o.to, g) && IsExtent(insns, f, o.from, o.to) && Closed(insns, f, o.from, o.to, g)
    && g.blocks == |o.leaders| && LeadersAre(insns, f, o.from, o.to, o.leaders)
  }

  ghost predicate AscendingApart(funcs: seq<Func>) {
    forall i, j :: 0 <= i < j < |funcs| ==> funcs[i].rva < funcs[j].rva && funcs[i].rva + funcs[i].size <= funcs[j].rva
  }

  predicate Sorted(sv: seq<nat>) {
    forall i, j :: 0 <= i < j < |sv| ==> sv[i] < sv[j]
  }

  function NextStart(sv: seq<nat>, i: nat): nat
    requires i < |sv|
  {
    if i + 1 < |sv| then sv[i + 1] else NO_LIMIT
  }

  /** A body that stops before the next start ends no later than any instruction from there on. */
  lemma EndsBeforeLater(insns: seq<Insn>, f: Frame, from: nat, to: nat, g: Func, a: nat)
    requires Decoded(insns) && from < |insns| && from <= to <= |insns| && insns[from].rva == f.start &&
             IsBody(insns, f, from, to, g)
    requires f.next <= a && f.start < a && IsStart(insns, a)
    ensures g.rva + g.size <= a
  {
    ghost var n :| 0 <= n < |insns| && insns[n].rva == a;
    if from < to {
      assert insns[to - 1].rva < f.next;
      if n < to - 1 {
        InOrder(insns, n, to - 1);
      }
      BodyEndsBefore(insns, f, from, to, g, n);
    }
  }

  /** Each function made from start `i` ends before every later start that is an instruction. */
  ghost predicate ClearOf(insns: seq<Insn>, sv: seq<nat>, funcs: seq<Func>, i: nat) {
    forall k, n :: 0 <= k < |funcs| && i <= n < |sv| && IsStart(insns, sv[n]) ==>
      funcs[k].rva < sv[n] && funcs[k].rva + funcs[k].size <= sv[n]
  }

  class CfgBuilder {
    const insns: seq<Insn>
    const segEnd: nat -> nat
    const tables: (nat, int) -> nat
    var funcs: seq<Func>

    constructor (insns: seq<Insn>, segEnd: nat -> nat, tables: (nat, int) -> nat)
      ensures this.insns == insns && this.segEnd == segEnd && this.tables == tables && funcs == []
    {
      this.insns, this.segEnd, this.tables, funcs := insns, segEnd, tables, [];
    }

    function FrameOf(sv: seq<nat>, i: nat): Frame
      requires i < |sv|
    {
      var start, next := sv[i], NextStart(sv, i);
      Frame(start, next, segEnd(start), k => tables(start, k))
    }

    /**
      The functions of the sorted starts: one for each start that is an instruction, in
      ascending order, none reaching into another, each closed under its direct branches.
    */
    method Build(sv: seq<nat>) returns (ghost origins: seq<Origin>)
      requires Decoded(insns) && Sorted(sv) && funcs == []
      modifies this
      ensures |origins| == |funcs|
      ensures forall k :: 0 <= k < |funcs| ==>
                origins[k].at < |sv| && Recovered(insns, FrameOf(sv, origins[k].at), funcs[k], origins[k])
      ensures AscendingApart(funcs)
      ensures forall a :: HasFunc(funcs, a) <==> a in sv && IsStart(insns, a)
    {
      origins := [];
      var fi := 0;
      hide Recovered, IsStart, Decoded, Closed, IsBody, IsExtent, ClearOf, AscendingApart, LeadersAre;
      NothingClear(insns, sv);
      while fi < |sv|
        invariant 0 <= fi <= |sv| && |origins| == |funcs| && AscendingApart(funcs) && ClearOf(insns, sv, funcs, fi)
        invariant forall k :: 0 <= k < |funcs| ==>
                    origins[k].at < |sv| && Recovered(insns, FrameOf(sv, origins[k].at), funcs[k], origins[k])
        invariant MadeFrom(insns, sv, fi, funcs)
      {
        var found, si := InsnIndexExact(insns, sv[fi]);
        ghost var before := funcs;
        if found {
          var f := FrameOf(sv, fi);
          var g;
          ghost var to, leaders;
          g, to, leaders := Walk(insns, f, si);
          OneRecovered(insns, f, fi, si, to, leaders, g);
          StartFound(insns, si);
          AddedFunction(insns, sv, funcs, fi, f, si, to, g);
          funcs := funcs + [g];
          origins := origins + [Origin(fi, si, to, leaders)];
          MadeOneMore(insns, sv, fi, before, g);
        } else {
          NoStart(insns, sv[fi]);
          ClearOn(insns, sv, funcs, fi);
          MadeNoMore(insns, sv, fi, funcs);
        }
        fi := fi + 1;
      }
      assert sv[..fi] == sv;
    }

    /** The compaction that keeps the first of every run of equal rvas. */
    method Dedupe()
      modifies this
      ensures funcs == Deduped(old(funcs), |old(funcs)|)
    {
      if |funcs| > 1 {
        ghost var all := funcs;
        var w, r := 1, 1;
        assert Deduped(all, 1) == [all[0]] by {
          assert Deduped(all, 0) == [];
        }
        hide Deduped;
        while r < |funcs|
          invariant 1 <= w <= r <= |funcs| == |all|
          invariant funcs[..w] == Deduped(all, r) && forall k :: r <= k < |all| ==> funcs[k] == all[k]
        {
          DedupedStep(all, r, funcs[..w]);
          if funcs[r].rva != funcs[w - 1].rva {
            SetAt(funcs, w, funcs[r]);
            if w != r {
              funcs := funcs[w := funcs[r]];
            }
            w := w + 1;
          }
          r := r + 1;
        }
        funcs := funcs[..w];
      } else if |funcs| == 1 {
        assert Deduped(funcs, 0) == [];
      }
    }
  }

  function Deduped(s: seq<Func>, n: nat): (r: seq<Func>)
    requires n <= |s|
    ensures n > 0 ==> r != []
  {
    if n == 0 then []
    else
      var before := Deduped(s, n - 1);
      if before != [] && before[|before| - 1].rva == s[n - 1].rva then before else before + [s[n - 1]]
  }

  lemma DedupedStep(all: seq<Func>, r: nat, kept: seq<Func>)
    requires 0 < r < |all| && kept == Deduped(all, r)
    ensures kept != [] && Deduped(all, r + 1) == if kept[|kept| - 1].rva == all[r].rva then kept else kept + [all[r]]
  {
  }

  lemma SetAt(s: seq<Func>, w: nat, x: Func)
    requires w < |s|
    ensures s[w := x][..w + 1] == s[..w] + [x] && (s[w] == x ==> s[w := x] == s)
  {
  }

  /** Nothing is dropped from what `Build` leaves. */
  lemma {:induction false} AlreadyDistinct(s: seq<Func>, n: nat)
    requires AscendingApart(s) && n <= |s|
    ensures Deduped(s, n) == s[..n]
  {
    if n == 0 {
    } else {
      AlreadyDistinct(s, n - 1);
      assert s[..n] == s[..n - 1] + [s[n - 1]];
    }
  }

  lemma NothingClear(insns: seq<Insn>, sv: seq<nat>)
    ensures ClearOf(insns, sv, [], 0) && AscendingApart([])
  {
  }

  lemma OneRecovered(insns: seq<Insn>, f: Frame, at: nat, from: nat, to: nat, leaders: set<nat>, g: Func)
    requires Decoded(insns) && from < |insns| && from <= to <= |insns| && insns[from].rva == f.start
    requires IsBody(insns, f, from, to, g) && IsExtent(insns, f, from, to)
    requires g.blocks == |leaders| && LeadersAre(insns, f, from, to, leaders)
    ensures Recovered(insns, f, g, Origin(at, from, to, leaders)) && g.rva == f.start
  {
    assert Stopped(insns, f, from, to) by { hide Stopped; }
    StoppedIsClosed(insns, f, from, to, g);
    assert g.rva == f.start;
    hide Closed, IsBody, Stopped, IsExtent, LeadersAre;
  }

  lemma StartFound(insns: seq<Insn>, i: nat)
    requires i < |insns|
    ensures IsStart(insns, insns[i].rva)
  {
  }

  lemma NoStart(insns: seq<Insn>, a: nat)
    requires forall k :: 0 <= k < |insns| ==> insns[k].rva != a
    ensures !IsStart(insns, a)
  {
  }

  lemma ClearOn(insns: seq<Insn>, sv: seq<nat>, funcs: seq<Func>, i: nat)
    requires ClearOf(insns, sv, funcs, i)
    ensures ClearOf(insns, sv, funcs, i + 1)
  {
    hide IsStart;
  }

  lemma AddedFunction(insns: seq<Insn>, sv: seq<nat>, funcs: seq<Func>, i: nat, f: Frame, from: nat, to: nat, g: Func)
    requires Decoded(insns) && Sorted(sv) && i < |sv| && AscendingApart(funcs) && ClearOf(insns, sv, funcs, i) &&
             IsStart(insns, sv[i])
    requires f.start == sv[i] && f.next == NextStart(sv, i)
    requires from < |insns| && from <= to <= |insns| && insns[from].rva == f.start && IsBody(insns, f, from, to, g)
    ensures AscendingApart(funcs + [g]) && ClearOf(insns, sv, funcs + [g], i + 1)
  {
    ghost var all := funcs + [g];
    assert g.rva == sv[i];
    forall k, n | 0 <= k < |all| && i + 1 <= n < |sv| && IsStart(insns, sv[n])
      ensures all[k].rva < sv[n] && all[k].rva + all[k].size <= sv[n]
    {
      if k == |funcs| {
        EndsBeforeLater(insns, f, from, to, g, sv[n]);
      }
    }
    hide IsStart, IsBody, Decoded;
  }

  predicate HasFunc(funcs: seq<Func>, a: nat) {
    exists k :: 0 <= k < |funcs| && funcs[k].rva == a
  }

  /** The functions there are start at the instructions among the first `i` starts. */
  ghost predicate MadeFrom(insns: seq<Insn>, sv: seq<nat>, i: nat, funcs: seq<Func>)
    requires i <= |sv|
  {
    forall a :: HasFunc(funcs, a) <==> a in sv[..i] && IsStart(insns, a)
  }

  lemma HasFuncSnoc(funcs: seq<Func>, g: Func, a: nat)
    ensures HasFunc(funcs + [g], a) <==> HasFunc(funcs, a) || g.rva == a
  {
    ghost var all := funcs + [g];
    assert all[|funcs|] == g;
    if k :| 0 <= k < |funcs| && funcs[k].rva == a {
      assert all[k].rva == a;
    }
  }

  lemma MadeOneMore(insns: seq<Insn>, sv: seq<nat>, i: nat, funcs: seq<Func>, g: Func)
    requires i < |sv| && MadeFrom(insns, sv, i, funcs) && g.rva == sv[i] && IsStart(insns, sv[i])
    ensures MadeFrom(insns, sv, i + 1, funcs + [g])
  {
    hide IsStart, HasFunc;
    assert sv[..i + 1] == sv[..i] + [sv[i]];
    forall a ensures HasFunc(funcs + [g], a) <==> a in sv[..i + 1] && IsStart(insns, a) {
      HasFuncSnoc(funcs, g, a);
    }
  }

  lemma MadeNoMore(insns: seq<Insn>, sv: seq<nat>, i: nat, funcs: seq<Func>)
    requires i < |sv| && MadeFrom(insns, sv, i, funcs) && !IsStart(insns, sv[i])
    ensures MadeFrom(insns, sv, i + 1, funcs)
  {
    hide IsStart, HasFunc;
    assert sv[..i + 1] == sv[..i] + [sv[i]];
  }
}
