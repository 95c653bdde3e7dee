/**
  Which sidecar files are loaded and which are refused, said of the parsed value alone.
*/
module AnnoRefusals {
  import opened Common
  import opened Json
  import opened JsonText
  import opened Annotations
  import R = AnnoResolve

  /** The first member of that name is at `i`. */
  predicate FirstAt(members: seq<(string, JVal)>, k: string, i: int) {
    0 <= i < |members| && members[i].0 == k && forall j :: 0 <= j < i ==> members[j].0 != k
  }

  /** The value reads as the number one; what is neither a number nor a string does, by default. */
  predicate ReadsAsOne(v: JVal) {
    match v
    case Num(n) => 1.0 <= n < 2.0
    case Str(s) => StrToUll(CString(s)) == 1
    case _ => true
  }

  /** The first member of that name, if there is one, is an array. */
  ghost predicate ArrayIfAny(members: seq<(string, JVal)>, k: string) {
    forall i :: FirstAt(members, k, i) ==> members[i].1.Arr?
  }

  /** An object of a version that is understood, whose functions are an array. */
  ghost predicate Understood(root: JVal) {
    && root.Obj?
    && (forall i :: FirstAt(root.members, "version", i) ==> ReadsAsOne(root.members[i].1))
    && ArrayIfAny(root.members, "functions")
  }

  predicate AllObjects(items: seq<JVal>) {
    forall k :: 0 <= k < |items| ==> items[k].Obj?
  }

  /** Every function is an object, and its variables are an array of objects. */
  ghost predicate EntriesUnderstood(root: JVal)
    requires Understood(root)
  {
    forall i :: FirstAt(root.members, "functions", i) ==> ListUnderstood(root.members[i].1.items)
  }

  ghost predicate ListUnderstood(fns: seq<JVal>) {
    forall n :: 0 <= n < |fns| ==> EntryUnderstood(fns[n])
  }

  ghost predicate EntryUnderstood(fn: JVal) {
    && fn.Obj? && ArrayIfAny(fn.members, "vars")
    && forall i :: FirstAt(fn.members, "vars", i) ==> AllObjects(fn.members[i].1.items)
  }

  lemma {:induction false} GetsFirst(members: seq<(string, JVal)>, k: string)
    ensures Get(members, k).None? <==> forall i :: 0 <= i < |members| ==> members[i].0 != k
    ensures forall i :: FirstAt(members, k, i) ==> Get(members, k) == Some(members[i].1)
    ensures Get(members, k).Some? ==> exists i :: FirstAt(members, k, i)
  {
    if members == [] {
    } else {
      ghost var rest := members[1..];
      GetsFirst(rest, k);
      if members[0].0 == k {
        assert FirstAt(members, k, 0);
      } else {
        forall i | FirstAt(members, k, i) ensures Get(members, k) == Some(members[i].1) {
          assert rest[i - 1] == members[i];
          assert FirstAt(rest, k, i - 1);
        }
        if Get(members, k).Some? {
          ghost var i :| FirstAt(rest, k, i);
          forall j | 0 <= j < i + 1 ensures members[j].0 != k {
            assert j > 0 ==> rest[j - 1] == members[j];
          }
          assert FirstAt(members, k, i + 1);
        } else {
          forall i | 0 <= i < |members| ensures members[i].0 != k {
            assert i > 0 ==> rest[i - 1] == members[i];
          }
        }
        if forall i :: 0 <= i < |members| ==> members[i].0 != k {
          forall i | 0 <= i < |rest| ensures rest[i].0 != k {
            assert rest[i] == members[i + 1];
          }
        }
      }
    }
  }

  lemma VersionReads(members: seq<(string, JVal)>)
    ensures GetU64(members, "version", 1) == 1
       <==> forall i :: FirstAt(members, "version", i) ==> ReadsAsOne(members[i].1)
  {
    GetsFirst(members, "version");
    hide Get, StrToUll, CString;
    if i :| FirstAt(members, "version", i) {
      assert forall j :: FirstAt(members, "version", j) ==> j == i;
      ghost var v := members[i].1;
      if v.Num? {
        WordOne(v.n);
      }
    }
  }

  lemma WordOne(n: real)
    ensures ToWord(n) == 1 <==> 1.0 <= n < 2.0
  {
  }

  lemma {:induction false} VarsStop(items: seq<JVal>, hash: nat, rva: nat, annos: seq<Anno>, vars: seq<AnnoVar>)
    ensures LoadVars(items, hash, rva, annos, vars).code == if AllObjects(items) then 0 else 2
  {
    if items == [] || !items[0].Obj? {
    } else {
      ghost var rest := items[1..];
      VarsStop(rest, hash, rva, annos, vars + LoadVar(items[0].members, hash, rva));
      assert AllObjects(items) <==> AllObjects(rest) by {
        if AllObjects(rest) {
          forall k | 0 <= k < |items| ensures items[k].Obj? {
            assert k > 0 ==> rest[k - 1] == items[k];
          }
        }
      }
    }
  }

  lemma EntryStops(fn: JVal)
    requires fn.Obj?
    ensures var vs := Get(fn.members, "vars");
            EntryUnderstood(fn) <==> (vs.Some? ==> vs.value.Arr? && AllObjects(vs.value.items))
  {
    GetsFirst(fn.members, "vars");
    hide Get;
    if i :| FirstAt(fn.members, "vars", i) {
      assert forall j :: FirstAt(fn.members, "vars", j) ==> j == i;
    }
  }

  lemma {:induction false} EntriesStop(fns: seq<JVal>, annos: seq<Anno>, vars: seq<AnnoVar>)
    ensures LoadFunctions(fns, annos, vars).code == if ListUnderstood(fns) then 0 else 2
  {
    if fns == [] || !fns[0].Obj? {
      assert fns != [] ==> !EntryUnderstood(fns[0]);
    } else {
      ghost var members, rest := fns[0].members, fns[1..];
      ghost var rva, hash, annos' := GetU64(members, "rva", 0), GetU64(members, "hash", 0), LoadAnno(members, annos);
      ghost var vs := Get(members, "vars");
      EntryStops(fns[0]);
      ListSplits(fns);
      hide LoadAnno, LoadVars, GetU64, EntryUnderstood, ListUnderstood, Get;
      if vs.None? {
        EntriesStop(rest, annos', vars);
      } else if vs.value.Arr? {
        VarsStop(vs.value.items, hash, rva, annos', vars);
        ghost var l := LoadVars(vs.value.items, hash, rva, annos', vars);
        if l.code == 0 {
          EntriesStop(rest, l.annos, l.vars);
        }
      }
    }
  }

  lemma ListSplits(fns: seq<JVal>)
    requires fns != []
    ensures ListUnderstood(fns) <==> EntryUnderstood(fns[0]) && ListUnderstood(fns[1..])
  {
    hide EntryUnderstood;
    if EntryUnderstood(fns[0]) && ListUnderstood(fns[1..]) {
      forall n | 0 <= n < |fns| ensures EntryUnderstood(fns[n]) {
        assert n > 0 ==> fns[1..][n - 1] == fns[n];
      }
    }
  }

  /** Whether a value is understood shows in what is looked up in it. */
  lemma UnderstoodIs(root: JVal)
    requires root.Obj?
    ensures var fns := Get(root.members, "functions");
            && (Understood(root) <==> GetU64(root.members, "version", 1) == 1 && (fns.Some? ==> fns.value.Arr?))
            && (Understood(root) ==> (EntriesUnderstood(root) <==> (fns.Some? ==> ListUnderstood(fns.value.items))))
  {
    VersionReads(root.members);
    GetsFirst(root.members, "functions");
    hide Get, GetU64, ListUnderstood, ReadsAsOne;
    if i :| FirstAt(root.members, "functions", i) {
      assert forall j :: FirstAt(root.members, "functions", j) ==> j == i;
    }
  }

  /**
    A value that is not understood is refused, and the store is as it was.  Of one that is,
    nothing of the old store is left; it is loaded if and only if its entries are understood.
  */
  lemma LoadedExactly(root: JVal, funcs: seq<R.Func>, annos: seq<Anno>, vars: seq<AnnoVar>)
    ensures !Understood(root) ==> LoadRoot(root, funcs, annos, vars) == Loaded(2, annos, vars)
    ensures Understood(root) ==>
              && LoadRoot(root, funcs, annos, vars).code == (if EntriesUnderstood(root) then 0 else 2)
              && LoadRoot(root, funcs, annos, vars) == LoadRoot(root, funcs, [], [])
  {
    if root.Obj? {
      UnderstoodIs(root);
      ghost var fns := Get(root.members, "functions");
      hide Understood, EntriesUnderstood, Get, GetU64, LoadFunctions, ListUnderstood, ResolvedAnnos, ResolvedVars;
      if fns.Some? && fns.value.Arr? {
        EntriesStop(fns.value.items, [], []);
      }
    }
  }

  /** The same of a text: it is refused untouched unless it parses to a value that is understood. */
  lemma TextLoadedExactly(num: Strtod, text: string, funcs: seq<R.Func>, annos: seq<Anno>, vars: seq<AnnoVar>)
    ensures var l, doc := LoadText(num, text, funcs, annos, vars), ReadValue(num, text, 0);
            if doc.None? || !Understood(doc.value.0) then l == Loaded(2, annos, vars)
            else l.code == (if EntriesUnderstood(doc.value.0) then 0 else 2) && l == LoadText(num, text, funcs, [], [])
  {
    ghost var doc := ReadValue(num, text, 0);
    hide LoadRoot, Understood, EntriesUnderstood, ReadValue;
    if doc.Some? {
      LoadedExactly(doc.value.0, funcs, annos, vars);
      LoadedExactly(doc.value.0, funcs, [], []);
    }
  }
}
