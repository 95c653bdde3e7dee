/**
  Saving and then loading gives the store back: the annotations that say anything, in their
  order, and the variables grouped by identity, every one that says anything exactly once.
*/
module AnnoRoundTrip {
  import opened Common
  import opened Json
  import opened JsonText
  import opened Annotations
  import R = AnnoResolve

  // ---------- the layout is in order ----------

  lemma {:induction false} VarItemsLaid(num: Strtod, vars: seq<AnnoVar>, depth: nat)
    requires depth + 2 <= MAX_DEPTH
    ensures ItemsLaid(num, VarItems(vars), depth)
  {
    if vars == [] {
    } else {
      VarItemsLaid(num, vars[1..], depth);
      VarDocLaid(num, vars[0], depth);
      hide VarDoc, WellLaid;
      assert VarItems(vars)[1..] == VarItems(vars[1..]);
    }
  }

  lemma StrLaid(num: Strtod, s: string, depth: nat)
    requires depth + 1 <= MAX_DEPTH
    ensures WellLaid(num, DStr(s), depth)
  {
  }

  lemma MembersLaidCons(num: Strtod, mb: Member, rest: seq<Member>, depth: nat)
    requires AllWs(mb.lead) && WellLaid(num, mb.doc, depth) && MembersLaid(num, rest, depth)
    ensures MembersLaid(num, [mb] + rest, depth)
  {
    assert ([mb] + rest)[1..] == rest;
    hide WellLaid;
  }

  lemma NoMembersLaid(num: Strtod, depth: nat)
    ensures MembersLaid(num, [], depth)
  {
  }

  lemma VarDocLaid(num: Strtod, v: AnnoVar, depth: nat)
    requires depth + 2 <= MAX_DEPTH
    ensures WellLaid(num, VarDoc(v), depth)
  {
    ghost var d := depth + 1;
    ghost var typ := if v.typ != "" then [Member(" ", "type", DStr(v.typ))] else [];
    NoMembersLaid(num, d);
    StrLaid(num, v.typ, d);
    if v.typ != "" {
      MembersLaidCons(num, Member(" ", "type", DStr(v.typ)), [], d);
      assert [Member(" ", "type", DStr(v.typ))] + [] == typ;
    }
    StrLaid(num, v.to, d);
    MembersLaidCons(num, Member(" ", "to", DStr(v.to)), typ, d);
    StrLaid(num, v.from, d);
    MembersLaidCons(num, Member(" ", "from", DStr(v.from)), [Member(" ", "to", DStr(v.to))] + typ, d);
    assert VarDoc(v).members == [Member(" ", "from", DStr(v.from))] + ([Member(" ", "to", DStr(v.to))] + typ);
    hide MembersLaid;
  }

  lemma NameMembersLaid(num: Strtod, a: Option<Anno>, rest: seq<Member>, depth: nat)
    requires depth + 1 <= MAX_DEPTH && MembersLaid(num, rest, depth)
    ensures MembersLaid(num, NameMembers(a) + rest, depth)
  {
    if a.None? {
      assert NameMembers(a) + rest == rest;
    } else {
      ghost var x := a.value;
      StrLaid(num, x.name, depth);
      StrLaid(num, x.comment, depth);
      ghost var name, comment := [Member(" ", "name", DStr(x.name))], [Member(" ", "comment", DStr(x.comment))];
      ghost var tail := if x.comment != "" then comment + rest else rest;
      if x.comment != "" {
        MembersLaidCons(num, comment[0], rest, depth);
      }
      if x.name != "" {
        MembersLaidCons(num, name[0], tail, depth);
      }
      assert NameMembers(a) + rest == if x.name != "" then name + tail else tail;
      hide MembersLaid;
    }
  }

  lemma VarMembersLaid(num: Strtod, vs: seq<AnnoVar>, depth: nat)
    requires depth + 3 <= MAX_DEPTH
    ensures MembersLaid(num, VarMembers(vs), depth)
  {
    NoMembersLaid(num, depth);
    if vs != [] {
      VarItemsLaid(num, vs, depth + 1);
      ghost var mb := Member("\n      ", "vars", DArr(VarItems(vs), " "));
      hide VarItems, ItemsLaid, MembersLaid;
      MembersLaidCons(num, mb, [], depth);
      assert [mb] + [] == VarMembers(vs);
    }
  }

  lemma EntryMembersLaid(num: Strtod, k: Key, rest: seq<Member>, depth: nat)
    requires depth + 1 <= MAX_DEPTH && MembersLaid(num, rest, depth)
    ensures MembersLaid(num, [Member(" ", "hash", HexDoc(k.hash))] + ([Member(" ", "rva", HexDoc(k.rva))] + rest),
            depth)
  {
    ghost var hash, rva := Member(" ", "hash", HexDoc(k.hash)), Member(" ", "rva", HexDoc(k.rva));
    StrLaid(num, "0x" + HexText(k.hash), depth);
    StrLaid(num, "0x" + HexText(k.rva), depth);
    hide HexText, MembersLaid;
    MembersLaidCons(num, rva, rest, depth);
    MembersLaidCons(num, hash, [rva] + rest, depth);
  }

  lemma EntryLaid(num: Strtod, k: Key, a: Option<Anno>, vs: seq<AnnoVar>, depth: nat)
    requires depth + 4 <= MAX_DEPTH
    ensures WellLaid(num, EntryDoc(k, a, vs), depth)
  {
    hide HexText, NameMembers, VarMembers, MembersLaid;
    VarMembersLaid(num, vs, depth + 1);
    NameMembersLaid(num, a, VarMembers(vs), depth + 1);
    EntryMembersLaid(num, k, NameMembers(a) + VarMembers(vs), depth + 1);
    assert EntryDoc(k, a, vs).members
           == [Member(" ", "hash", HexDoc(k.hash))] +
               ([Member(" ", "rva", HexDoc(k.rva))] + (NameMembers(a) + VarMembers(vs)));
  }

  lemma {:induction false} EntriesLaid(num: Strtod, keys: seq<Key>, annos: seq<Anno>, vars: seq<AnnoVar>, depth: nat)
    requires depth + 4 <= MAX_DEPTH
    ensures ItemsLaid(num, EntryItems(keys, annos, vars), depth)
  {
    if keys == [] {
    } else {
      EntriesLaid(num, keys[1..], annos, vars, depth);
      EntryLaid(num, keys[0], AnnoOf(annos, keys[0]), VarsOf(vars, keys[0]), depth);
      hide EntryDoc, WellLaid;
      assert EntryItems(keys, annos, vars)[1..] == EntryItems(keys[1..], annos, vars);
    }
  }

  lemma FileLaid(num: Strtod, size: string, annos: seq<Anno>, vars: seq<AnnoVar>)
    requires IsDecimal(size)
    ensures WellLaid(num, FileDoc(num, size, annos, vars), 0)
  {
    ghost var keys := FileKeys(annos, vars);
    ghost var items := EntryItems(keys, annos, vars);
    EntriesLaid(num, keys, annos, vars, 2);
    hide EntryItems, FileKeys, ItemsLaid;
    ghost var version, image, functions := Member("\n  ", "version", DNum("1", num("1").0)),
      Member("\n  ", "image_size", DNum(size, num(size).0)), Member("\n  ", "functions", DArr(items, "\n  "));
    NoMembersLaid(num, 1);
    MembersLaidCons(num, functions, [], 1);
    MembersLaidCons(num, image, [functions] + [], 1);
    MembersLaidCons(num, version, [image] + ([functions] + []), 1);
    assert FileDoc(num, size, annos, vars).members == [version] + ([image] + ([functions] + []));
    hide MembersLaid;
  }

  // ---------- one entry is loaded ----------

  /** Looking up in a list whose first members have other names. */
  lemma GetCons(k: string, v: JVal, rest: seq<(string, JVal)>, key: string)
    ensures Get([(k, v)] + rest, key) == if k == key then Some(v) else Get(rest, key)
  {
    assert ([(k, v)] + rest)[1..] == rest;
  }

  function VarPairs(v: AnnoVar): seq<(string, JVal)> {
    [("from", Str(v.from))] + ([("to", Str(v.to))] + if v.typ != "" then [("type", Str(v.typ))] + [] else [])
  }

  lemma MemberValuesCons(mb: Member, rest: seq<Member>)
    ensures MemberValues([mb] + rest) == [(mb.key, ValueOf(mb.doc))] + MemberValues(rest)
  {
    assert ([mb] + rest)[1..] == rest;
    hide ValueOf;
  }

  lemma VarValue(v: AnnoVar)
    ensures ValueOf(VarDoc(v)) == Obj(VarPairs(v))
  {
    ghost var from, to, typ := Member(" ", "from", DStr(v.from)), Member(" ", "to", DStr(v.to)),
        Member(" ", "type", DStr(v.typ));
    ghost var tail := if v.typ != "" then [typ] + [] else [];
    assert VarDoc(v).members == [from] + ([to] + tail);
    MemberValuesCons(from, [to] + tail);
    MemberValuesCons(to, tail);
    if v.typ != "" {
      MemberValuesCons(typ, []);
    }
    assert MemberValues([]) == [];
    hide MemberValues;
  }

  lemma FitIs(s: string, size: nat)
    requires size > 0 && FitsField(s, size)
    ensures Fit(s, size) == s
  {
    CStringOfNulFree(s);
  }

  /** A saved variable entry loads as the variable, or as nothing if it is empty. */
  lemma LoadsVar(v: AnnoVar)
    requires ValidVar(v)
    ensures LoadVar(VarPairs(v), v.hash, v.rva) == if Empty(v) then [] else [v.(bound := R.UNBOUND)]
  {
    ghost var typ := if v.typ != "" then [("type", Str(v.typ))] + [] else [];
    ghost var rest := [("to", Str(v.to))] + typ;
    GetCons("from", Str(v.from), rest, "from");
    GetCons("from", Str(v.from), rest, "to");
    GetCons("from", Str(v.from), rest, "type");
    GetCons("to", Str(v.to), typ, "to");
    GetCons("to", Str(v.to), typ, "type");
    GetCons("type", Str(v.typ), [], "type");
    assert Get([], "type") == None;
    FitIs(v.from, VAR_SIZE);
    FitIs(v.to, VAR_SIZE);
    FitIs(v.typ, VAR_SIZE);
    hide Get, Fit, CString;
  }

  lemma {:induction false} LoadsVars(vs: seq<AnnoVar>, k: Key, annos: seq<Anno>, vars: seq<AnnoVar>)
    requires forall i :: 0 <= i < |vs| ==> ValidVar(vs[i]) && VarKey(vs[i]) == k
    ensures LoadVars(ItemValues(VarItems(vs)), k.hash, k.rva, annos, vars) == Loaded(0, annos, vars + Kept(vs))
  {
    if vs == [] {
      assert ItemValues(VarItems(vs)) == [];
      assert vars + Kept(vs) == vars;
    } else {
      VarValue(vs[0]);
      LoadsVar(vs[0]);
      hide VarDoc, ValueOf, LoadVar, VarPairs, ValidVar;
      ghost var items := ItemValues(VarItems(vs));
      assert VarItems(vs)[1..] == VarItems(vs[1..]);
      assert items == [Obj(VarPairs(vs[0]))] + ItemValues(VarItems(vs[1..]));
      assert items[1..] == ItemValues(VarItems(vs[1..]));
      ghost var more := LoadVar(VarPairs(vs[0]), k.hash, k.rva);
      LoadsVars(vs[1..], k, annos, vars + more);
      assert (vars + more) + Kept(vs[1..]) == vars + Kept(vs);
    }
  }

  function NamePairs(a: Option<Anno>): seq<(string, JVal)> {
    match a
    case None => []
    case Some(x) =>
      (if x.name != "" then [("name", Str(x.name))] else []) +
          (if x.comment != "" then [("comment", Str(x.comment))] else [])
  }

  function VarsPairs(vs: seq<AnnoVar>): seq<(string, JVal)> {
    if vs == [] then [] else [("vars", Arr(ItemValues(VarItems(vs))))]
  }

  function EntryPairs(k: Key, a: Option<Anno>, vs: seq<AnnoVar>): seq<(string, JVal)> {
    [("hash", Str("0x" + HexText(k.hash)))] + ([("rva", Str("0x" + HexText(k.rva)))] + (NamePairs(a) + VarsPairs(vs)))
  }

  lemma {:induction false} MemberValuesAppend(s: seq<Member>, t: seq<Member>)
    ensures MemberValues(s + t) == MemberValues(s) + MemberValues(t)
  {
    hide ValueOf;
    if s == [] {
      assert s + t == t;
    } else {
      assert (s + t)[1..] == s[1..] + t;
      MemberValuesAppend(s[1..], t);
    }
  }

  lemma OneMemberValue(mb: Member)
    ensures MemberValues([mb]) == [(mb.key, ValueOf(mb.doc))]
  {
    MemberValuesCons(mb, []);
    assert [mb] + [] == [mb] && MemberValues([]) == [];
    hide ValueOf, MemberValues;
  }

  lemma NameValues(a: Option<Anno>)
    ensures MemberValues(NameMembers(a)) == NamePairs(a)
  {
    if a.Some? {
      ghost var x := a.value;
      ghost var name, comment := Member(" ", "name", DStr(x.name)), Member(" ", "comment", DStr(x.comment));
      OneMemberValue(name);
      OneMemberValue(comment);
      MemberValuesAppend(if x.name != "" then [name] else [], if x.comment != "" then [comment] else []);
      assert MemberValues([]) == [];
      hide MemberValues;
    }
  }

  lemma VarsValues(vs: seq<AnnoVar>)
    ensures MemberValues(VarMembers(vs)) == VarsPairs(vs)
  {
    hide VarItems, ItemValues;
    if vs != [] {
      OneMemberValue(Member("\n      ", "vars", DArr(VarItems(vs), " ")));
    }
  }

  lemma EntryValue(k: Key, a: Option<Anno>, vs: seq<AnnoVar>)
    ensures ValueOf(EntryDoc(k, a, vs)) == Obj(EntryPairs(k, a, vs))
  {
    ghost var hash, rva := Member(" ", "hash", HexDoc(k.hash)), Member(" ", "rva", HexDoc(k.rva));
    ghost var rest := NameMembers(a) + VarMembers(vs);
    hide HexText, NameMembers, VarMembers, VarsPairs, NamePairs;
    assert EntryDoc(k, a, vs).members == [hash] + ([rva] + rest);
    MemberValuesCons(hash, [rva] + rest);
    MemberValuesCons(rva, rest);
    MemberValuesAppend(NameMembers(a), VarMembers(vs));
    NameValues(a);
    VarsValues(vs);
    hide MemberValues;
  }

  lemma {:induction false} HexIsNulFree(v: nat)
    ensures NulFree(HexText(v))
    decreases v
  {
    if v >= 16 {
      HexIsNulFree(v / 16);
    }
  }

  lemma HexReadsBack(v: nat)
    requires v < WORD
    ensures StrToUll(CString("0x" + HexText(v))) == v
  {
    HexIsNulFree(v);
    assert NulFree("0x" + HexText(v));
    CStringOfNulFree("0x" + HexText(v));
    HexRoundTrip(v);
    hide HexText, StrToUll, CString;
  }

  /** What the loader finds in a saved entry. */
  lemma EntryLookups(k: Key, a: Option<Anno>, vs: seq<AnnoVar>)
    requires k.hash < WORD && k.rva < WORD
    ensures var p := EntryPairs(k, a, vs);
            && GetU64(p, "hash", 0) == k.hash && GetU64(p, "rva", 0) == k.rva
            && GetStr(p, "name") == (if a.Some? then a.value.name else "")
            && GetStr(p, "comment") == (if a.Some? then a.value.comment else "")
            && Get(p, "vars") == if vs == [] then None else Some(Arr(ItemValues(VarItems(vs))))
  {
    HexReadsBack(k.hash);
    HexReadsBack(k.rva);
    hide HexText, StrToUll, CString, ItemValues, VarItems;
    ghost var h, r := Str("0x" + HexText(k.hash)), Str("0x" + HexText(k.rva));
    ghost var names, vars := NamePairs(a), VarsPairs(vs);
    ghost var tail := names + vars;
    ghost var rest := [("rva", r)] + tail;
    GetTwo("hash", h, "rva", r, tail, "hash");
    GetTwo("hash", h, "rva", r, tail, "rva");
    GetTwo("hash", h, "rva", r, tail, "name");
    GetTwo("hash", h, "rva", r, tail, "comment");
    GetTwo("hash", h, "rva", r, tail, "vars");
    TailLookups(a, vs);
    hide Get, NamePairs, VarsPairs;
  }

  lemma GetTwo(k1: string, v1: JVal, k2: string, v2: JVal, rest: seq<(string, JVal)>, key: string)
    ensures Get([(k1, v1)] + ([(k2, v2)] + rest), key)
            == if k1 == key then Some(v1) else if k2 == key then Some(v2) else Get(rest, key)
  {
    GetCons(k1, v1, [(k2, v2)] + rest, key);
    GetCons(k2, v2, rest, key);
    hide Get;
  }

  lemma TailLookups(a: Option<Anno>, vs: seq<AnnoVar>)
    ensures var p := NamePairs(a) + VarsPairs(vs);
            && GetStr(p, "name") == (if a.Some? then a.value.name else "")
            && GetStr(p, "comment") == (if a.Some? then a.value.comment else "")
            && Get(p, "vars") == if vs == [] then None else Some(Arr(ItemValues(VarItems(vs))))
  {
    hide ItemValues, VarItems;
    VarsLookups(vs, "name");
    VarsLookups(vs, "comment");
    VarsLookups(vs, "vars");
    if a.None? {
      assert NamePairs(a) + VarsPairs(vs) == VarsPairs(vs);
    } else {
      ghost var x := a.value;
      ghost var rest := VarsPairs(vs);
      ghost var mid := if x.comment != "" then [("comment", Str(x.comment))] + rest else rest;
      assert NamePairs(a) + rest == if x.name != "" then [("name", Str(x.name))] + mid else mid;
      hide VarsPairs, NamePairs;
      CommentAndName(x, rest, mid, "name");
      CommentAndName(x, rest, mid, "comment");
      CommentAndName(x, rest, mid, "vars");
      hide Get;
    }
  }

  lemma CommentAndName(x: Anno, rest: seq<(string, JVal)>, mid: seq<(string, JVal)>, key: string)
    requires mid == if x.comment != "" then [("comment", Str(x.comment))] + rest else rest
    ensures Get(if x.name != "" then [("name", Str(x.name))] + mid else mid, key)
            == if x.name != "" && key == "name" then Some(Str(x.name))
               else if x.comment != "" && key == "comment" then Some(Str(x.comment)) else Get(rest, key)
  {
    GetCons("name", Str(x.name), mid, key);
    GetCons("comment", Str(x.comment), rest, key);
    hide Get;
  }

  lemma VarsLookups(vs: seq<AnnoVar>, key: string)
    ensures Get(VarsPairs(vs), key) == if vs != [] && key == "vars" then Some(Arr(ItemValues(VarItems(vs)))) else None
  {
    hide ItemValues, VarItems;
    if vs != [] {
      ghost var v := Arr(ItemValues(VarItems(vs)));
      GetCons("vars", v, [], key);
      assert [("vars", v)] + [] == [("vars", v)];
      assert Get([], key) == None;
    }
  }

  // ---------- all entries are loaded ----------

  /** What the entries of some keys bring back: the annotations ... */
  function Restored(keys: seq<Key>, annos: seq<Anno>): seq<Anno> {
    if keys == [] then []
    else
      (match AnnoOf(annos, keys[0]) case None => [] case Some(a) => [a.(bound := R.UNBOUND)])
      + Restored(keys[1..], annos)
  }

  ghost predicate DistinctKeys(keys: seq<Key>) {
    forall i, j :: 0 <= i < j < |keys| ==> keys[i] != keys[j]
  }

  lemma {:induction false} AnnoOfIs(annos: seq<Anno>, k: Key)
    ensures AnnoOf(annos, k).Some? ==>
              Named(AnnoOf(annos, k).value) && AnnoKey(AnnoOf(annos, k).value) == k && AnnoOf(annos, k).value in annos
    ensures AnnoOf(annos, k).None? ==> forall i :: 0 <= i < |annos| && Named(annos[i]) ==> AnnoKey(annos[i]) != k
  {
    if annos == [] {
    } else {
      AnnoOfIs(annos[1..], k);
      if AnnoOf(annos, k).None? {
        forall i | 0 <= i < |annos| && Named(annos[i]) ensures AnnoKey(annos[i]) != k {
          if i > 0 {
            assert annos[i] == annos[1..][i - 1];
          }
        }
      }
    }
  }

  lemma {:induction false} VarsOfAre(vars: seq<AnnoVar>, k: Key)
    ensures forall i :: 0 <= i < |VarsOf(vars, k)| ==> VarKey(VarsOf(vars, k)[i]) == k && VarsOf(vars, k)[i] in vars
  {
    if vars == [] {
    } else {
      VarsOfAre(vars[1..], k);
    }
  }

  lemma {:induction false} IndexOfNone(annos: seq<Anno>, rva: nat)
    requires forall i :: 0 <= i < |annos| ==> annos[i].rva != rva
    ensures IndexOf(annos, rva) == |annos|
  {
    if annos == [] {
    } else {
      IndexOfNone(annos[1..], rva);
    }
  }

  /** A saved entry brings its annotation back after those that are there. */
  lemma LoadsAnno(k: Key, a: Option<Anno>, vs: seq<AnnoVar>, acc: seq<Anno>)
    requires k.hash < WORD && k.rva < WORD
    requires a.Some? ==> ValidAnno(a.value) && Named(a.value) && AnnoKey(a.value) == k
    requires a.Some? ==> forall i :: 0 <= i < |acc| ==> acc[i].rva != k.rva
    ensures LoadAnno(EntryPairs(k, a, vs), acc) ==
            acc + (match a case None => [] case Some(x) => [x.(bound := R.UNBOUND)])
  {
    EntryLookups(k, a, vs);
    hide EntryPairs, GetU64, GetStr, Get;
    if a.Some? {
      IndexOfNone(acc, k.rva);
      FitIs(a.value.name, NAME_SIZE);
      FitIs(a.value.comment, COMMENT_SIZE);
      hide Fit, IndexOf;
      ghost var r := acc + [Anno(0, k.rva, R.UNBOUND, "", "")];
      assert Upserted(acc, k.rva) == r;
      ghost var x := a.value.(bound := R.UNBOUND);
      assert r[|acc| := x] == acc + [x];
    } else {
      assert acc + [] == acc;
    }
  }

  /** The keys still to come have rvas not yet loaded, or no annotation. */
  ghost predicate Fresh(keys: seq<Key>, annos: seq<Anno>, acc: seq<Anno>) {
    forall i, j :: 0 <= i < |keys| && 0 <= j < |acc| && AnnoOf(annos, keys[i]).Some? ==> acc[j].rva != keys[i].rva
  }

  lemma UniqueRva(annos: seq<Anno>, vars: seq<AnnoVar>, a: Anno, b: Anno)
    requires ValidStore(annos, vars) && a in annos && b in annos && a.rva == b.rva
    ensures a == b
  {
    ghost var i :| 0 <= i < |annos| && annos[i] == a;
    ghost var j :| 0 <= j < |annos| && annos[j] == b;
  }

  lemma FreshOn(keys: seq<Key>, annos: seq<Anno>, vars: seq<AnnoVar>, acc: seq<Anno>)
    requires keys != [] && Fresh(keys, annos, acc) && DistinctKeys(keys) && ValidStore(annos, vars)
    ensures var more := match AnnoOf(annos, keys[0]) case None => [] case Some(a) => [a.(bound := R.UNBOUND)];
            Fresh(keys[1..], annos, acc + more) && DistinctKeys(keys[1..])
  {
    ghost var more := match AnnoOf(annos, keys[0]) case None => [] case Some(a) => [a.(bound := R.UNBOUND)];
    ghost var all := acc + more;
    AnnoOfIs(annos, keys[0]);
    forall i, j | 0 <= i < |keys[1..]| && 0 <= j < |all| && AnnoOf(annos, keys[1..][i]).Some?
      ensures all[j].rva != keys[1..][i].rva
    {
      ghost var k := keys[i + 1];
      assert keys[1..][i] == k;
      AnnoOfIs(annos, k);
      if j < |acc| {
        assert all[j] == acc[j];
      } else {
        ghost var a, b := AnnoOf(annos, keys[0]).value, AnnoOf(annos, k).value;
        assert keys[0] != k;
        if a.rva == b.rva {
          UniqueRva(annos, vars, a, b);
        }
      }
    }
  }

  lemma FreshNow(keys: seq<Key>, annos: seq<Anno>, acc: seq<Anno>)
    requires keys != [] && Fresh(keys, annos, acc)
    ensures AnnoOf(annos, keys[0]).Some? ==> forall j :: 0 <= j < |acc| ==> acc[j].rva != keys[0].rva
  {
    hide AnnoOf;
  }

  lemma ValidVarsOf(annos: seq<Anno>, vars: seq<AnnoVar>, k: Key)
    requires ValidStore(annos, vars)
    ensures forall i :: 0 <= i < |VarsOf(vars, k)| ==> ValidVar(VarsOf(vars, k)[i]) && VarKey(VarsOf(vars, k)[i]) == k
  {
    VarsOfAre(vars, k);
    hide VarsOf, ValidVar, ValidAnno, VarKey;
    forall i | 0 <= i < |VarsOf(vars, k)| ensures ValidVar(VarsOf(vars, k)[i]) {
      ghost var j :| 0 <= j < |vars| && vars[j] == VarsOf(vars, k)[i];
    }
  }

  /** One entry of the file. */
  lemma LoadsEntry(k: Key, annos: seq<Anno>, vars: seq<AnnoVar>, rest: seq<JVal>, acc: seq<Anno>, vacc: seq<AnnoVar>)
    requires ValidStore(annos, vars) && k.hash < WORD && k.rva < WORD
    requires AnnoOf(annos, k).Some? ==> forall j :: 0 <= j < |acc| ==> acc[j].rva != k.rva
    ensures var a, vs := AnnoOf(annos, k), VarsOf(vars, k);
            LoadFunctions([Obj(EntryPairs(k, a, vs))] + rest, acc, vacc)
            == LoadFunctions(rest, acc + (match a case None => [] case Some(x) => [x.(bound := R.UNBOUND)]),
                vacc + Kept(vs))
  {
    ghost var a, vs := AnnoOf(annos, k), VarsOf(vars, k);
    ghost var p := EntryPairs(k, a, vs);
    ghost var fns := [Obj(p)] + rest;
    assert fns[1..] == rest;
    AnnoOfIs(annos, k);
    if a.Some? {
      ghost var i :| 0 <= i < |annos| && annos[i] == a.value;
      assert ValidAnno(a.value);
    }
    EntryLookups(k, a, vs);
    LoadsAnno(k, a, vs, acc);
    ValidVarsOf(annos, vars, k);
    ghost var acc' := LoadAnno(p, acc);
    LoadsVars(vs, k, acc', vacc);
    if vs == [] {
      assert vacc + Kept(vs) == vacc;
    }
    hide EntryPairs, LoadAnno, LoadVars, GetU64, GetStr, Get, VarsOf, AnnoOf, ValidStore, VarItems, ItemValues, Kept;
  }

  lemma {:induction false} LoadsEntries(keys: seq<Key>, annos: seq<Anno>, vars: seq<AnnoVar>, acc: seq<Anno>,
          vacc: seq<AnnoVar>)
    requires ValidStore(annos, vars) && DistinctKeys(keys) && Fresh(keys, annos, acc)
    requires forall i :: 0 <= i < |keys| ==> keys[i].hash < WORD && keys[i].rva < WORD
    ensures LoadFunctions(ItemValues(EntryItems(keys, annos, vars)), acc, vacc)
            == Loaded(0, acc + Restored(keys, annos), vacc + Grouped(keys, vars))
    decreases keys
  {
    hide AnnoOf, VarsOf, EntryItems, ItemValues, EntryPairs, Kept, ValidStore, DistinctKeys, Fresh, LoadFunctions,
         Restored, Grouped;
    if keys == [] {
      LoadsNone(annos, vars, acc, vacc);
    } else {
      ghost var k := keys[0];
      ghost var a, vs := AnnoOf(annos, k), VarsOf(vars, k);
      ghost var more := match a case None => [] case Some(x) => [x.(bound := R.UNBOUND)];
      FreshOn(keys, annos, vars, acc);
      FreshNow(keys, annos, acc);
      EntryItemsValue(keys, annos, vars);
      LoadsEntry(k, annos, vars, ItemValues(EntryItems(keys[1..], annos, vars)), acc, vacc);
      LoadsEntries(keys[1..], annos, vars, acc + more, vacc + Kept(vs));
      RestoredStep(keys, annos, acc);
      GroupedStep(keys, vars, vacc);
    }
  }

  lemma LoadsNone(annos: seq<Anno>, vars: seq<AnnoVar>, acc: seq<Anno>, vacc: seq<AnnoVar>)
    ensures LoadFunctions(ItemValues(EntryItems([], annos, vars)), acc, vacc)
            == Loaded(0, acc + Restored([], annos), vacc + Grouped([], vars))
  {
    assert ItemValues(EntryItems([], annos, vars)) == [];
    assert acc + Restored([], annos) == acc && vacc + Grouped([], vars) == vacc;
  }

  lemma RestoredStep(keys: seq<Key>, annos: seq<Anno>, acc: seq<Anno>)
    requires keys != []
    ensures (acc + (match AnnoOf(annos, keys[0]) case None => [] case Some(x) => [x.(bound := R.UNBOUND)])) +
            Restored(keys[1..], annos)
            == acc + Restored(keys, annos)
  {
    hide AnnoOf;
  }

  lemma GroupedStep(keys: seq<Key>, vars: seq<AnnoVar>, vacc: seq<AnnoVar>)
    requires keys != []
    ensures (vacc + Kept(VarsOf(vars, keys[0]))) + Grouped(keys[1..], vars) == vacc + Grouped(keys, vars)
  {
    hide Kept, VarsOf;
  }

  lemma EntryItemsValue(keys: seq<Key>, annos: seq<Anno>, vars: seq<AnnoVar>)
    requires keys != []
    ensures ItemValues(EntryItems(keys, annos, vars))
            == [Obj(EntryPairs(keys[0], AnnoOf(annos, keys[0]), VarsOf(vars, keys[0])))] +
                ItemValues(EntryItems(keys[1..], annos, vars))
  {
    EntryValue(keys[0], AnnoOf(annos, keys[0]), VarsOf(vars, keys[0]));
    assert EntryItems(keys, annos, vars)[1..] == EntryItems(keys[1..], annos, vars);
    hide EntryDoc, ValueOf, EntryPairs, AnnoOf, VarsOf;
  }

  // ---------- the keys of a file ----------

  lemma AddKeyKeeps(keys: seq<Key>, k: Key)
    requires DistinctKeys(keys)
    ensures DistinctKeys(AddKey(keys, k)) && k in AddKey(keys, k) &&
            forall x :: x in AddKey(keys, k) <==> x in keys || x == k
  {
  }

  lemma {:induction false} VarKeysExtend(vars: seq<AnnoVar>, keys: seq<Key>) returns (extra: seq<Key>)
    requires DistinctKeys(keys)
    ensures VarKeys(vars, keys) == keys + extra && DistinctKeys(VarKeys(vars, keys))
    ensures forall k :: k in extra ==> k !in keys && HasKey(vars, k)
    decreases |vars|
  {
    extra := [];
    if vars == [] {
      assert keys + extra == keys;
    } else {
      ghost var k := VarKey(vars[0]);
      ghost var keys' := AddKey(keys, k);
      AddKeyKeeps(keys, k);
      VarKeysStep(vars, keys);
      hide DistinctKeys, VarKeys, VarKey, HasKey;
      ghost var rest := VarKeysExtend(vars[1..], keys');
      extra := if k in keys then rest else [k] + rest;
      assert keys' + rest == keys + extra;
      forall x | x in extra ensures x !in keys && HasKey(vars, x) {
        HasKeyCons(vars, x);
      }
    }
  }

  ghost predicate HasKey(vars: seq<AnnoVar>, k: Key) {
    exists i :: 0 <= i < |vars| && VarKey(vars[i]) == k
  }

  lemma HasKeyCons(vars: seq<AnnoVar>, k: Key)
    requires vars != []
    ensures HasKey(vars, k) <==> VarKey(vars[0]) == k || HasKey(vars[1..], k)
  {
    hide VarKey;
    ghost var rest := vars[1..];
    if i :| 0 <= i < |rest| && VarKey(rest[i]) == k {
      assert vars[i + 1] == rest[i];
    }
    if i :| 0 <= i < |vars| && VarKey(vars[i]) == k {
      assert i > 0 ==> rest[i - 1] == vars[i];
    }
  }

  /** Every variable's identity is among the keys. */
  lemma {:induction false} VarKeysHaveAll(vars: seq<AnnoVar>, keys: seq<Key>, k: Key)
    requires DistinctKeys(keys) && (k in keys || HasKey(vars, k))
    ensures k in VarKeys(vars, keys)
    decreases |vars|
  {
    if vars == [] {
    } else {
      AddKeyKeeps(keys, VarKey(vars[0]));
      HasKeyCons(vars, k);
      VarKeysStep(vars, keys);
      hide DistinctKeys, VarKeys, VarKey, HasKey;
      VarKeysHaveAll(vars[1..], AddKey(keys, VarKey(vars[0])), k);
    }
  }

  lemma VarKeysStep(vars: seq<AnnoVar>, keys: seq<Key>)
    requires vars != []
    ensures VarKeys(vars, keys) == VarKeys(vars[1..], AddKey(keys, VarKey(vars[0])))
  {
  }

  function KeysOf(annos: seq<Anno>): seq<Key> {
    if annos == [] then [] else [AnnoKey(annos[0])] + KeysOf(annos[1..])
  }

  ghost predicate OneAtEachRva(annos: seq<Anno>) {
    forall i, j :: 0 <= i < j < |annos| ==> annos[i].rva != annos[j].rva
  }

  ghost predicate Apart(annos: seq<Anno>, keys: seq<Key>) {
    forall i, k :: 0 <= i < |annos| && k in keys ==> k.rva != annos[i].rva
  }

  lemma ApartOn(annos: seq<Anno>, keys: seq<Key>)
    requires annos != [] && OneAtEachRva(annos) && Apart(annos, keys)
    ensures OneAtEachRva(annos[1..]) && Apart(annos[1..], keys) && Apart(annos[1..], keys + [AnnoKey(annos[0])])
    ensures AnnoKey(annos[0]) !in keys
  {
    ghost var rest := annos[1..];
    forall i, j | 0 <= i < j < |rest| ensures rest[i].rva != rest[j].rva {
      assert rest[i] == annos[i + 1] && rest[j] == annos[j + 1];
    }
    forall i, k | 0 <= i < |rest| && k in keys + [AnnoKey(annos[0])] ensures k.rva != rest[i].rva {
      assert rest[i] == annos[i + 1];
    }
  }

  /** The keys of the annotations are those of the named ones, one for each, in order. */
  lemma {:induction false} AnnoKeysAre(annos: seq<Anno>, keys: seq<Key>)
    requires DistinctKeys(keys) && OneAtEachRva(annos) && Apart(annos, keys)
    ensures AnnoKeys(annos, keys) == keys + KeysOf(NamedOnes(annos)) && DistinctKeys(AnnoKeys(annos, keys))
    decreases |annos|
  {
    if annos == [] {
      assert keys + KeysOf(NamedOnes(annos)) == keys;
    } else {
      ghost var k := AnnoKey(annos[0]);
      ApartOn(annos, keys);
      AddKeyKeeps(keys, k);
      hide Apart, OneAtEachRva, DistinctKeys, AnnoKey;
      if Named(annos[0]) {
        AnnoKeysAre(annos[1..], keys + [k]);
        assert NamedOnes(annos)[1..] == NamedOnes(annos[1..]);
        assert (keys + [k]) + KeysOf(NamedOnes(annos[1..])) == keys + KeysOf(NamedOnes(annos));
      } else {
        AnnoKeysAre(annos[1..], keys);
        assert NamedOnes(annos) == NamedOnes(annos[1..]);
      }
    }
  }

  lemma {:induction false} RestoredAppend(s: seq<Key>, t: seq<Key>, annos: seq<Anno>)
    ensures Restored(s + t, annos) == Restored(s, annos) + Restored(t, annos)
  {
    hide AnnoOf;
    if s == [] {
      assert s + t == t;
    } else {
      assert (s + t)[1..] == s[1..] + t;
      RestoredAppend(s[1..], t, annos);
    }
  }

  lemma {:induction false} RestoredNone(s: seq<Key>, annos: seq<Anno>)
    requires forall k :: k in s ==> AnnoOf(annos, k).None?
    ensures Restored(s, annos) == []
  {
    hide AnnoOf;
    if s == [] {
    } else {
      RestoredNone(s[1..], annos);
    }
  }

  lemma {:induction false} NamedOnesAre(annos: seq<Anno>)
    ensures forall a :: a in NamedOnes(annos) <==> a in annos && Named(a)
  {
    if annos == [] {
    } else {
      NamedOnesAre(annos[1..]);
    }
  }

  lemma {:induction false} KeysOfHave(named: seq<Anno>, a: Anno)
    requires a in named
    ensures AnnoKey(a) in KeysOf(named)
  {
    if a != named[0] {
      KeysOfHave(named[1..], a);
    }
  }

  /** The keys of some named annotations bring back these annotations. */
  lemma {:induction false} RestoredKeys(named: seq<Anno>, annos: seq<Anno>, vars: seq<AnnoVar>)
    requires ValidStore(annos, vars) && forall a :: a in named ==> a in annos && Named(a)
    ensures Restored(KeysOf(named), annos) == Unbound(named)
  {
    if named == [] {
    } else {
      ghost var a := named[0];
      ghost var k := AnnoKey(a);
      AnnoOfIs(annos, k);
      assert a in named && a in annos;
      ghost var i :| 0 <= i < |annos| && annos[i] == a;
      assert AnnoOf(annos, k).Some?;
      UniqueRva(annos, vars, a, AnnoOf(annos, k).value);
      assert KeysOf(named)[1..] == KeysOf(named[1..]);
      hide AnnoOf;
      RestoredKeys(named[1..], annos, vars);
      assert Unbound(named) == [a.(bound := R.UNBOUND)] + Unbound(named[1..]);
    }
  }

  /** The keys of the file: distinct words, and together they bring back the named annotations in order. */
  lemma FileKeysBringBack(annos: seq<Anno>, vars: seq<AnnoVar>)
    requires ValidStore(annos, vars)
    ensures var keys := FileKeys(annos, vars);
            && DistinctKeys(keys) && (forall i :: 0 <= i < |keys| ==> keys[i].hash < WORD && keys[i].rva < WORD)
            && Restored(keys, annos) == Unbound(NamedOnes(annos))
            && forall i :: 0 <= i < |vars| ==> VarKey(vars[i]) in keys
  {
    ghost var named := NamedOnes(annos);
    NamedOnesAre(annos);
    AnnoKeysAre(annos, []);
    ghost var first := AnnoKeys(annos, []);
    assert first == KeysOf(named);
    ghost var extra := VarKeysExtend(vars, first);
    forall i | 0 <= i < |vars| ensures VarKey(vars[i]) in FileKeys(annos, vars) {
      assert HasKey(vars, VarKey(vars[i]));
      VarKeysHaveAll(vars, first, VarKey(vars[i]));
    }
    RestoredAppend(first, extra, annos);
    RestoredKeys(named, annos, vars);
    forall k | k in extra ensures AnnoOf(annos, k).None? {
      AnnoOfIs(annos, k);
      if AnnoOf(annos, k).Some? {
        KeysOfHave(named, AnnoOf(annos, k).value);
      }
    }
    RestoredNone(extra, annos);
    assert Unbound(named) + [] == Unbound(named);
    KeysAreWords(annos, vars, first, extra);
  }

  lemma {:induction false} KeysOfFrom(named: seq<Anno>, k: Key) returns (a: Anno)
    requires k in KeysOf(named)
    ensures a in named && AnnoKey(a) == k
  {
    if AnnoKey(named[0]) == k {
      a := named[0];
    } else {
      a := KeysOfFrom(named[1..], k);
    }
  }

  lemma KeysAreWords(annos: seq<Anno>, vars: seq<AnnoVar>, first: seq<Key>, extra: seq<Key>)
    requires ValidStore(annos, vars) && first == KeysOf(NamedOnes(annos))
    requires forall k :: k in extra ==> HasKey(vars, k)
    ensures forall i :: 0 <= i < |first + extra| ==> (first + extra)[i].hash < WORD && (first + extra)[i].rva < WORD
  {
    ghost var keys := first + extra;
    NamedOnesAre(annos);
    hide KeysOf, NamedOnes;
    forall i | 0 <= i < |keys| ensures keys[i].hash < WORD && keys[i].rva < WORD {
      if i < |first| {
        ghost var a := KeysOfFrom(NamedOnes(annos), keys[i]);
        ghost var j :| 0 <= j < |annos| && annos[j] == a;
        assert ValidAnno(annos[j]);
      } else {
        assert keys[i] in extra;
        ghost var j :| 0 <= j < |vars| && VarKey(vars[j]) == keys[i];
        assert ValidVar(vars[j]);
      }
    }
  }

  // ---------- the round trip ----------

  lemma FileValue(num: Strtod, size: string, annos: seq<Anno>, vars: seq<AnnoVar>)
    ensures ValueOf(FileDoc(num, size, annos, vars))
            == Obj([("version", Num(num("1").0))] + ([("image_size", Num(num(size).0))]
                   + ([("functions", Arr(ItemValues(EntryItems(FileKeys(annos, vars), annos, vars))))] + [])))
  {
    hide FileKeys, EntryItems, ItemValues;
    ghost var items := EntryItems(FileKeys(annos, vars), annos, vars);
    ghost var version, image, functions := Member("\n  ", "version", DNum("1", num("1").0)),
      Member("\n  ", "image_size", DNum(size, num(size).0)), Member("\n  ", "functions", DArr(items, "\n  "));
    assert FileDoc(num, size, annos, vars).members == [version] + ([image] + ([functions] + []));
    MemberValuesCons(version, [image] + ([functions] + []));
    MemberValuesCons(image, [functions] + []);
    MemberValuesCons(functions, []);
    assert MemberValues([]) == [];
    hide MemberValues;
  }

  lemma OneIsOne()
    ensures ToWord(1.0) == 1
  {
  }

  /**
    Loading what was saved, over any store: every annotation with a name or a comment comes
    back, in the same order, with its hash, rva, name and comment; every variable record
    that says something comes back, grouped by identity; and bindings are derived afresh.
  */
  lemma SaveThenLoad(num: Strtod, size: string, funcs: seq<R.Func>, annos: seq<Anno>, vars: seq<AnnoVar>,
          annos0: seq<Anno>, vars0: seq<AnnoVar>)
    requires ReadsDecimals(num) && num("1").0 == 1.0 && IsDecimal(size) && ValidStore(annos, vars)
    ensures LoadText(num, SavedText(num, size, annos, vars), funcs, annos0, vars0)
            == Loaded(0, ResolvedAnnos(funcs, Unbound(NamedOnes(annos))),
                ResolvedVars(funcs, Grouped(FileKeys(annos, vars), vars)))
  {
    ghost var doc := FileDoc(num, size, annos, vars);
    ghost var keys := FileKeys(annos, vars);
    ghost var fns := Arr(ItemValues(EntryItems(keys, annos, vars)));
    FileLaid(num, size, annos, vars);
    assert Follows("\n");
    ReadsBack(num, doc, "\n", 0);
    FileValue(num, size, annos, vars);
    FileKeysBringBack(annos, vars);
    assert Fresh(keys, annos, []);
    LoadsEntries(keys, annos, vars, [], []);
    assert [] + Restored(keys, annos) == Restored(keys, annos) && [] + Grouped(keys, vars) == Grouped(keys, vars);
    ghost var rest := [("functions", fns)] + [];
    ghost var mid := [("image_size", Num(num(size).0))] + rest;
    hide FileDoc, FileKeys, EntryItems, ItemValues, ReadValue, LoadFunctions, Restored, Grouped, NamedOnes, Unbound,
         ResolvedAnnos, ResolvedVars,
      ValidStore, DistinctKeys, Fresh, Text, WellLaid, ReadsDecimals, ValueOf;
    GetCons("version", Num(1.0), mid, "version");
    GetCons("version", Num(1.0), mid, "functions");
    GetCons("image_size", Num(num(size).0), rest, "functions");
    GetCons("functions", fns, [], "functions");
    OneIsOne();
    hide Get, ToWord;
  }

  // ---------- grouping loses nothing ----------

  lemma {:induction false} KeptAppend(s: seq<AnnoVar>, t: seq<AnnoVar>)
    ensures Kept(s + t) == Kept(s) + Kept(t)
  {
    if s == [] {
      assert s + t == t;
    } else {
      assert (s + t)[1..] == s[1..] + t;
      KeptAppend(s[1..], t);
    }
  }

  function One(v: AnnoVar): seq<AnnoVar> {
    if Empty(v) then [] else [v.(bound := R.UNBOUND)]
  }

  lemma KeptCons(v: AnnoVar, rest: seq<AnnoVar>, k: Key)
    ensures Kept(VarsOf([v] + rest, k)) == (if VarKey(v) == k then One(v) else []) + Kept(VarsOf(rest, k))
  {
    ghost var all := [v] + rest;
    assert all[1..] == rest;
    if VarKey(v) == k {
      assert VarsOf(all, k) == [v] + VarsOf(rest, k);
      KeptAppend([v], VarsOf(rest, k));
      assert [v][1..] == [];
      assert Kept([v]) == One(v) + Kept([]);
    } else {
      assert VarsOf(all, k) == VarsOf(rest, k);
    }
  }

  lemma GroupedUnfold(keys: seq<Key>, vars: seq<AnnoVar>)
    requires keys != []
    ensures Grouped(keys, vars) == Kept(VarsOf(vars, keys[0])) + Grouped(keys[1..], vars)
  {
  }

  lemma DistinctTail(keys: seq<Key>)
    requires keys != [] && DistinctKeys(keys)
    ensures DistinctKeys(keys[1..]) && keys[0] !in keys[1..]
    ensures forall k :: k in keys <==> k == keys[0] || k in keys[1..]
  {
    assert keys == [keys[0]] + keys[1..];
  }

  /** One more record in front adds itself once, wherever its identity stands. */
  lemma {:induction false} GroupedCons(keys: seq<Key>, v: AnnoVar, rest: seq<AnnoVar>)
    requires DistinctKeys(keys)
    ensures multiset(Grouped(keys, [v] + rest))
            == multiset(Grouped(keys, rest)) + if VarKey(v) in keys then multiset(One(v)) else multiset{}
    decreases keys
  {
    hide Kept, VarsOf, VarKey, One, DistinctKeys, Grouped;
    if keys == [] {
      GroupedNone([v] + rest);
      GroupedNone(rest);
    } else {
      GroupedUnfold(keys, [v] + rest);
      GroupedUnfold(keys, rest);
      KeptCons(v, rest, keys[0]);
      DistinctTail(keys);
      GroupedCons(keys[1..], v, rest);
    }
  }

  lemma GroupedNone(vars: seq<AnnoVar>)
    ensures Grouped([], vars) == []
  {
  }

  lemma {:induction false} GroupedNothing(keys: seq<Key>)
    ensures Grouped(keys, []) == []
  {
    if keys == [] {
    } else {
      GroupedNothing(keys[1..]);
    }
  }

  lemma {:induction false} GroupedHasAll(keys: seq<Key>, vars: seq<AnnoVar>)
    requires DistinctKeys(keys) && forall i :: 0 <= i < |vars| ==> VarKey(vars[i]) in keys
    ensures multiset(Grouped(keys, vars)) == multiset(Kept(vars))
  {
    if vars == [] {
      GroupedNothing(keys);
    } else {
      assert vars == [vars[0]] + vars[1..];
      assert VarKey(vars[0]) in keys;
      GroupedHasAll(keys, vars[1..]);
      GroupedCons(keys, vars[0], vars[1..]);
      assert Kept(vars) == One(vars[0]) + Kept(vars[1..]);
      hide DistinctKeys, VarKey, Grouped, Kept, One;
    }
  }

  /** Every record that says something comes back exactly once. */
  lemma NoVariableIsLost(annos: seq<Anno>, vars: seq<AnnoVar>)
    requires ValidStore(annos, vars)
    ensures multiset(Grouped(FileKeys(annos, vars), vars)) == multiset(Kept(vars))
  {
    FileKeysBringBack(annos, vars);
    hide FileKeys, Grouped, Kept, ValidStore, DistinctKeys;
    GroupedHasAll(FileKeys(annos, vars), vars);
  }

  // ---------- whatever is loaded can be saved ----------

  lemma FitFits(s: string, size: nat)
    requires size > 0
    ensures FitsField(Fit(s, size), size)
  {
    CStringIsNulFree(s);
  }

  lemma WordsAreWords(members: seq<(string, JVal)>, k: string, dflt: nat)
    requires dflt < WORD
    ensures GetU64(members, k, dflt) < WORD
  {
    hide Get, SkipSpace, DigitsValue, CString;
  }

  lemma {:induction false} LoadVarsValid(items: seq<JVal>, hash: nat, rva: nat, annos: seq<Anno>, vars: seq<AnnoVar>)
    requires hash < WORD && rva < WORD && ValidStore(annos, vars)
    ensures var l := LoadVars(items, hash, rva, annos, vars); l.annos == annos && ValidStore(l.annos, l.vars)
    decreases items
  {
    if items != [] && items[0].Obj? {
      ghost var ms := items[0].members;
      FitFits(GetStr(ms, "from"), VAR_SIZE);
      FitFits(GetStr(ms, "to"), VAR_SIZE);
      FitFits(GetStr(ms, "type"), VAR_SIZE);
      hide GetStr, Fit, FitsField;
      ghost var more := LoadVar(ms, hash, rva);
      assert more == [] || (|more| == 1 && ValidVar(more[0]));
      hide LoadVar, ValidVar, ValidAnno;
      LoadVarsValid(items[1..], hash, rva, annos, vars + more);
    }
  }

  lemma LoadAnnoValid(members: seq<(string, JVal)>, annos: seq<Anno>, vars: seq<AnnoVar>)
    requires ValidStore(annos, vars)
    ensures ValidStore(LoadAnno(members, annos), vars)
  {
    ghost var name, comment := GetStr(members, "name"), GetStr(members, "comment");
    WordsAreWords(members, "rva", 0);
    WordsAreWords(members, "hash", 0);
    FitFits(name, NAME_SIZE);
    FitFits(comment, COMMENT_SIZE);
    hide GetStr, GetU64, Fit, ValidVar;
    if name != "" || comment != "" {
      ghost var rva := GetU64(members, "rva", 0);
      ghost var r, i := Upserted(annos, rva), IndexOf(annos, rva);
      assert ValidStore(r, vars);
      hide Upserted, IndexOf;
      assert ValidAnno(r[i]);
    }
  }

  /** A file that loads leaves a store that can be saved again. */
  lemma {:induction false} LoadedIsValid(fns: seq<JVal>, annos: seq<Anno>, vars: seq<AnnoVar>)
    requires ValidStore(annos, vars)
    ensures var l := LoadFunctions(fns, annos, vars); ValidStore(l.annos, l.vars)
    decreases fns
  {
    if fns != [] && fns[0].Obj? {
      ghost var ms := fns[0].members;
      ghost var rva, hash := GetU64(ms, "rva", 0), GetU64(ms, "hash", 0);
      WordsAreWords(ms, "rva", 0);
      WordsAreWords(ms, "hash", 0);
      LoadAnnoValid(ms, annos, vars);
      ghost var annos' := LoadAnno(ms, annos);
      hide ValidStore, LoadAnno, LoadVars, GetU64;
      match Get(ms, "vars")
      case None =>
        LoadedIsValid(fns[1..], annos', vars);
      case Some(vs) =>
        if vs.Arr? {
          LoadVarsValid(vs.items, hash, rva, annos', vars);
          ghost var l := LoadVars(vs.items, hash, rva, annos', vars);
          LoadedIsValid(fns[1..], l.annos, l.vars);
        }
    }
  }

  lemma ResolvedIsValid(funcs: seq<R.Func>, annos: seq<Anno>, vars: seq<AnnoVar>)
    requires ValidStore(annos, vars)
    ensures ValidStore(ResolvedAnnos(funcs, annos), ResolvedVars(funcs, vars))
  {
    hide FitsField, R.Bind;
    ghost var a, v := ResolvedAnnos(funcs, annos), ResolvedVars(funcs, vars);
    forall i | 0 <= i < |a| ensures ValidAnno(a[i]) {
      assert ValidAnno(annos[i]);
    }
    forall i | 0 <= i < |v| ensures ValidVar(v[i]) {
      assert ValidVar(vars[i]);
    }
  }

  lemma NothingIsValid()
    ensures ValidStore([], [])
  {
  }

  /**
    Loading any text over a store that can be saved leaves one that can be saved, whether
    the text is refused or not.
  */
  lemma LoadedTextIsValid(num: Strtod, text: string, funcs: seq<R.Func>, annos: seq<Anno>, vars: seq<AnnoVar>)
    requires ValidStore(annos, vars)
    ensures var l := LoadText(num, text, funcs, annos, vars); ValidStore(l.annos, l.vars)
  {
    hide ReadValue, ValidStore, ResolvedAnnos, ResolvedVars, LoadFunctions, GetU64, Get;
    NothingIsValid();
    match ReadValue(num, text, 0)
    case None =>
    case Some((root, rest)) =>
      if root.Obj? {
        match Get(root.members, "functions")
        case None =>
        case Some(fns) =>
          if fns.Arr? {
            ghost var l := LoadFunctions(fns.items, [], []);
            LoadedIsValid(fns.items, [], []);
            ResolvedIsValid(funcs, l.annos, l.vars);
            LoadRootCases(root, fns.items, funcs, annos, vars);
          }
      }
  }

  /** A file with a list of functions: refused, with the store as it was or partly loaded, or loaded and resolved. */
  lemma LoadRootCases(root: JVal, fns: seq<JVal>, funcs: seq<R.Func>, annos: seq<Anno>, vars: seq<AnnoVar>)
    requires root.Obj? && Get(root.members, "functions") == Some(Arr(fns))
    ensures var r, l := LoadRoot(root, funcs, annos, vars), LoadFunctions(fns, [], []);
            || r == Loaded(2, annos, vars) || r == l
            || r == Loaded(0, ResolvedAnnos(funcs, l.annos), ResolvedVars(funcs, l.vars))
  {
    hide Get, GetU64, LoadFunctions, ResolvedAnnos, ResolvedVars;
  }

  // ---------- saving what was loaded ----------

  /** The text does not depend on the bindings. */
  function Loose(vars: seq<AnnoVar>): seq<AnnoVar> {
    if vars == [] then [] else [vars[0].(bound := R.UNBOUND)] + Loose(vars[1..])
  }

  lemma UnboundCons(annos: seq<Anno>)
    requires annos != []
    ensures Unbound(annos) == [annos[0].(bound := R.UNBOUND)] + Unbound(annos[1..])
    ensures Unbound(annos)[1..] == Unbound(annos[1..])
  {
  }

  lemma {:induction false} UnboundKeys(annos: seq<Anno>, keys: seq<Key>)
    ensures AnnoKeys(Unbound(annos), keys) == AnnoKeys(annos, keys)
    decreases |annos|
  {
    if annos == [] {
      assert Unbound(annos) == [];
    } else {
      UnboundCons(annos);
      UnboundKeys(annos[1..], if Named(annos[0]) then AddKey(keys, AnnoKey(annos[0])) else keys);
    }
  }

  lemma {:induction false} UnboundSays(annos: seq<Anno>, k: Key)
    ensures NameMembers(AnnoOf(Unbound(annos), k)) == NameMembers(AnnoOf(annos, k))
    ensures AnnoOf(Unbound(annos), k).Some? == AnnoOf(annos, k).Some?
  {
    if annos == [] {
      assert Unbound(annos) == [];
    } else {
      UnboundCons(annos);
      UnboundSays(annos[1..], k);
    }
  }

  lemma {:induction false} NamedKeys(annos: seq<Anno>, keys: seq<Key>)
    ensures AnnoKeys(NamedOnes(annos), keys) == AnnoKeys(annos, keys)
    decreases |annos|
  {
    if annos == [] {
    } else if Named(annos[0]) {
      assert NamedOnes(annos)[1..] == NamedOnes(annos[1..]);
      NamedKeys(annos[1..], AddKey(keys, AnnoKey(annos[0])));
    } else {
      assert NamedOnes(annos) == NamedOnes(annos[1..]);
      NamedKeys(annos[1..], keys);
    }
  }

  lemma {:induction false} NamedSays(annos: seq<Anno>, k: Key)
    ensures AnnoOf(NamedOnes(annos), k) == AnnoOf(annos, k)
  {
    if annos == [] {
    } else if Named(annos[0]) {
      assert NamedOnes(annos)[1..] == NamedOnes(annos[1..]);
      NamedSays(annos[1..], k);
    } else {
      assert NamedOnes(annos) == NamedOnes(annos[1..]);
      NamedSays(annos[1..], k);
    }
  }

  lemma SameUnbound(funcs: seq<R.Func>, annos: seq<Anno>)
    ensures Unbound(ResolvedAnnos(funcs, Unbound(annos))) == Unbound(annos)
  {
    ghost var r := ResolvedAnnos(funcs, Unbound(annos));
    hide R.Bind, R.Bounds;
  }

  /** The loaded annotations have the keys and the entries of those saved. */
  lemma AnnosComeBack(funcs: seq<R.Func>, annos: seq<Anno>, k: Key)
    ensures var back := ResolvedAnnos(funcs, Unbound(NamedOnes(annos)));
            && AnnoKeys(back, []) == AnnoKeys(annos, [])
            && NameMembers(AnnoOf(back, k)) == NameMembers(AnnoOf(annos, k))
  {
    ghost var named := NamedOnes(annos);
    ghost var back := ResolvedAnnos(funcs, Unbound(named));
    hide *;
    SameUnbound(funcs, named);
    UnboundKeys(back, []);
    UnboundKeys(named, []);
    NamedKeys(annos, []);
    UnboundSays(back, k);
    UnboundSays(named, k);
    NamedSays(annos, k);
  }

  lemma {:induction false} LooseKeys(vars: seq<AnnoVar>, keys: seq<Key>)
    ensures VarKeys(Loose(vars), keys) == VarKeys(vars, keys)
    decreases |vars|
  {
    if vars == [] {
    } else {
      assert Loose(vars)[1..] == Loose(vars[1..]);
      LooseKeys(vars[1..], AddKey(keys, VarKey(vars[0])));
    }
  }

  lemma {:induction false} LooseSays(vars: seq<AnnoVar>, k: Key)
    ensures VarItems(VarsOf(Loose(vars), k)) == VarItems(VarsOf(vars, k))
  {
    if vars == [] {
    } else {
      assert Loose(vars)[1..] == Loose(vars[1..]);
      LooseSays(vars[1..], k);
      VarItemsCons(vars[0], VarsOf(vars[1..], k));
      VarItemsCons(vars[0].(bound := R.UNBOUND), VarsOf(Loose(vars[1..]), k));
      assert VarDoc(vars[0].(bound := R.UNBOUND)) == VarDoc(vars[0]);
      hide VarItems, VarDoc;
    }
  }

  lemma VarItemsCons(v: AnnoVar, rest: seq<AnnoVar>)
    ensures VarItems([v] + rest) == [Item(" ", VarDoc(v))] + VarItems(rest) && [] + rest == rest
  {
    assert ([v] + rest)[1..] == rest;
    hide VarDoc;
  }

  lemma {:induction false} SameLoose(vars: seq<AnnoVar>, other: seq<AnnoVar>)
    requires |vars| == |other|
    requires forall i :: 0 <= i < |vars| ==> vars[i].(bound := R.UNBOUND) == other[i].(bound := R.UNBOUND)
    ensures Loose(vars) == Loose(other)
  {
    if vars == [] {
    } else {
      SameLoose(vars[1..], other[1..]);
    }
  }

  lemma ResolvedLoose(funcs: seq<R.Func>, vars: seq<AnnoVar>)
    ensures Loose(ResolvedVars(funcs, vars)) == Loose(vars)
  {
    hide R.Bind;
    SameLoose(ResolvedVars(funcs, vars), vars);
  }

  lemma {:induction false} VarKeysAppend(s: seq<AnnoVar>, t: seq<AnnoVar>, keys: seq<Key>)
    ensures VarKeys(s + t, keys) == VarKeys(t, VarKeys(s, keys))
    decreases |s|
  {
    if s == [] {
      assert s + t == t;
    } else {
      assert (s + t)[1..] == s[1..] + t;
      VarKeysAppend(s[1..], t, AddKey(keys, VarKey(s[0])));
    }
  }

  lemma {:induction false} VarsOfAppend(s: seq<AnnoVar>, t: seq<AnnoVar>, k: Key)
    ensures VarsOf(s + t, k) == VarsOf(s, k) + VarsOf(t, k)
  {
    if s == [] {
      assert s + t == t;
    } else {
      assert (s + t)[1..] == s[1..] + t;
      VarsOfAppend(s[1..], t, k);
    }
  }

  ghost predicate AllOf(vs: seq<AnnoVar>, k: Key) {
    forall i :: 0 <= i < |vs| ==> VarKey(vs[i]) == k
  }

  lemma {:induction false} KeptOfOne(vs: seq<AnnoVar>, k: Key)
    requires AllOf(vs, k)
    ensures AllOf(Kept(vs), k)
  {
    if vs == [] {
    } else {
      KeptOfOne(vs[1..], k);
    }
  }

  lemma {:induction false} KeysOfOne(vs: seq<AnnoVar>, k: Key, keys: seq<Key>)
    requires AllOf(vs, k)
    ensures VarKeys(vs, keys) == if vs == [] then keys else AddKey(keys, k)
    decreases |vs|
  {
    if vs == [] {
    } else {
      KeysOfOne(vs[1..], k, AddKey(keys, k));
    }
  }

  lemma {:induction false} VarsOfOne(vs: seq<AnnoVar>, k: Key, k': Key)
    requires AllOf(vs, k)
    ensures VarsOf(vs, k') == if k' == k then vs else []
  {
    if vs == [] {
    } else {
      VarsOfOne(vs[1..], k, k');
    }
  }

  lemma KeptAreOf(vars: seq<AnnoVar>, k: Key)
    ensures AllOf(Kept(VarsOf(vars, k)), k)
  {
    VarsOfAre(vars, k);
    hide VarsOf, Kept;
    KeptOfOne(VarsOf(vars, k), k);
  }

  /** The variables loaded for a key are those saved in its entry, but for the empty ones. */
  lemma {:induction false} GroupedSays(keys: seq<Key>, vars: seq<AnnoVar>, k: Key)
    requires DistinctKeys(keys)
    ensures VarsOf(Grouped(keys, vars), k) == if k in keys then Kept(VarsOf(vars, k)) else []
  {
    hide VarsOf, Kept, DistinctKeys;
    if keys == [] {
      NoVarsOf(k);
    } else {
      ghost var here := Kept(VarsOf(vars, keys[0]));
      KeptAreOf(vars, keys[0]);
      VarsOfOne(here, keys[0], k);
      VarsOfAppend(here, Grouped(keys[1..], vars), k);
      DistinctTail(keys);
      GroupedSays(keys[1..], vars, k);
      assert here + [] == here && [] + Kept(VarsOf(vars, k)) == Kept(VarsOf(vars, k));
    }
  }

  lemma NoVarsOf(k: Key)
    ensures VarsOf([], k) == []
  {
  }

  /** The keys of which anything is said. */
  predicate Tells(k: Key, annos: seq<Anno>, vars: seq<AnnoVar>) {
    AnnoOf(annos, k).Some? || Kept(VarsOf(vars, k)) != []
  }

  function Telling(keys: seq<Key>, annos: seq<Anno>, vars: seq<AnnoVar>): seq<Key> {
    if keys == [] then [] else (if Tells(keys[0], annos, vars) then [keys[0]] else []) + Telling(keys[1..], annos, vars)
  }

  /** The keys of the grouped variables, after those in `acc`. */
  lemma {:induction false} GroupedKeys(keys: seq<Key>, annos: seq<Anno>, vars: seq<AnnoVar>, acc: seq<Key>)
    requires DistinctKeys(keys) && forall k :: k in keys ==> k !in acc && AnnoOf(annos, k).None?
    ensures VarKeys(Grouped(keys, vars), acc) == acc + Telling(keys, annos, vars)
    decreases |keys|
  {
    hide VarsOf, Kept, DistinctKeys, AnnoOf;
    if keys == [] {
      assert acc + [] == acc;
      NoKeysOf(acc);
    } else {
      ghost var k, here := keys[0], Kept(VarsOf(vars, keys[0]));
      DistinctTail(keys);
      KeptAreOf(vars, k);
      KeysOfOne(here, k, acc);
      VarKeysAppend(here, Grouped(keys[1..], vars), acc);
      GroupedKeys(keys[1..], annos, vars, VarKeys(here, acc));
      hide VarKeys, Grouped;
      assert (acc + [k]) + Telling(keys[1..], annos, vars) == acc + ([k] + Telling(keys[1..], annos, vars));
      assert acc + ([] + Telling(keys[1..], annos, vars)) == acc + Telling(keys[1..], annos, vars);
    }
  }

  lemma NoKeysOf(acc: seq<Key>)
    ensures VarKeys([], acc) == acc
  {
  }

  /** Variables of keys that are there already add none. */
  lemma {:induction false} KnownKeys(keys: seq<Key>, vars: seq<AnnoVar>, acc: seq<Key>)
    requires forall k :: k in keys ==> k in acc
    ensures VarKeys(Grouped(keys, vars), acc) == acc
    decreases |keys|
  {
    hide VarsOf, Kept;
    if keys == [] {
      NoKeysOf(acc);
    } else {
      ghost var here := Kept(VarsOf(vars, keys[0]));
      KeptAreOf(vars, keys[0]);
      KeysOfOne(here, keys[0], acc);
      VarKeysAppend(here, Grouped(keys[1..], vars), acc);
      KnownKeys(keys[1..], vars, acc);
    }
  }

  lemma {:induction false} GroupedAppend(s: seq<Key>, t: seq<Key>, vars: seq<AnnoVar>)
    ensures Grouped(s + t, vars) == Grouped(s, vars) + Grouped(t, vars)
  {
    hide VarsOf, Kept;
    if s == [] {
      assert s + t == t;
    } else {
      assert (s + t)[1..] == s[1..] + t;
      GroupedAppend(s[1..], t, vars);
    }
  }

  lemma {:induction false} TellingAppend(s: seq<Key>, t: seq<Key>, annos: seq<Anno>, vars: seq<AnnoVar>)
    ensures Telling(s + t, annos, vars) == Telling(s, annos, vars) + Telling(t, annos, vars)
  {
    hide *;
    if s == [] {
      NothingTells(annos, vars);
      assert s + t == t;
      assert [] + Telling(t, annos, vars) == Telling(t, annos, vars);
    } else {
      SplitFirst(s, t);
      TellingStep(s, annos, vars);
      TellingStep(s + t, annos, vars);
      TellingAppend(s[1..], t, annos, vars);
      if Tells(s[0], annos, vars) {
        Regroup([s[0]], Telling(s[1..], annos, vars), Telling(t, annos, vars));
      } else {
        Regroup([], Telling(s[1..], annos, vars), Telling(t, annos, vars));
      }
    }
  }

  lemma NothingTells(annos: seq<Anno>, vars: seq<AnnoVar>)
    ensures Telling([], annos, vars) == []
  {
  }

  lemma SplitFirst(s: seq<Key>, t: seq<Key>)
    requires s != []
    ensures (s + t)[0] == s[0] && (s + t)[1..] == s[1..] + t
  {
  }

  lemma Regroup(a: seq<Key>, b: seq<Key>, c: seq<Key>)
    ensures a + (b + c) == (a + b) + c
  {
  }

  lemma TellingStep(keys: seq<Key>, annos: seq<Anno>, vars: seq<AnnoVar>)
    requires keys != []
    ensures Telling(keys, annos, vars) ==
            (if Tells(keys[0], annos, vars) then [keys[0]] else []) + Telling(keys[1..], annos, vars)
  {
    hide Tells;
  }

  lemma {:induction false} AllTell(keys: seq<Key>, annos: seq<Anno>, vars: seq<AnnoVar>)
    requires forall k :: k in keys ==> Tells(k, annos, vars)
    ensures Telling(keys, annos, vars) == keys
  {
    hide Tells;
    if keys == [] {
    } else {
      AllTell(keys[1..], annos, vars);
    }
  }

  /** The keys of a file split: those of annotations, and those of variables only. */
  lemma FileKeysSplit(annos: seq<Anno>, vars: seq<AnnoVar>) returns (extra: seq<Key>)
    requires ValidStore(annos, vars)
    ensures FileKeys(annos, vars) == AnnoKeys(annos, []) + extra && DistinctKeys(FileKeys(annos, vars))
    ensures forall k :: k in AnnoKeys(annos, []) ==> AnnoOf(annos, k).Some?
    ensures forall k :: k in extra ==> k !in AnnoKeys(annos, []) && AnnoOf(annos, k).None? && HasKey(vars, k)
  {
    ghost var named := NamedOnes(annos);
    NamedOnesAre(annos);
    AnnoKeysAre(annos, []);
    ghost var first := AnnoKeys(annos, []);
    assert first == KeysOf(named);
    extra := VarKeysExtend(vars, first);
    forall k | k in first ensures AnnoOf(annos, k).Some? {
      ghost var a := KeysOfFrom(named, k);
      AnnoOfIs(annos, k);
      ghost var i :| 0 <= i < |annos| && annos[i] == a;
    }
    forall k | k in extra ensures AnnoOf(annos, k).None? {
      AnnoOfIs(annos, k);
      if AnnoOf(annos, k).Some? {
        KeysOfHave(named, AnnoOf(annos, k).value);
      }
    }
  }

  lemma DistinctEnd(s: seq<Key>, t: seq<Key>)
    requires DistinctKeys(s + t)
    ensures DistinctKeys(t)
  {
    forall i, j | 0 <= i < j < |t| ensures t[i] != t[j] {
      assert (s + t)[|s| + i] == t[i] && (s + t)[|s| + j] == t[j];
    }
  }

  /** The keys of the second file: those of the first of which anything is said. */
  lemma KeysComeBack(funcs: seq<R.Func>, annos: seq<Anno>, vars: seq<AnnoVar>)
    requires ValidStore(annos, vars)
    ensures var keys := FileKeys(annos, vars);
            FileKeys(ResolvedAnnos(funcs, Unbound(NamedOnes(annos))), ResolvedVars(funcs, Grouped(keys, vars)))
            == Telling(keys, annos, vars)
  {
    ghost var extra := FileKeysSplit(annos, vars);
    ghost var keys, first := FileKeys(annos, vars), AnnoKeys(annos, []);
    ghost var back, group := ResolvedAnnos(funcs, Unbound(NamedOnes(annos))), Grouped(FileKeys(annos, vars), vars);
    forall k | k in first ensures Tells(k, annos, vars) {
    }
    FileKeysIs(back, ResolvedVars(funcs, group));
    hide *;
    AnnosComeBack(funcs, annos, Key(0, 0));
    ResolvedLoose(funcs, group);
    LooseKeys(ResolvedVars(funcs, group), first);
    LooseKeys(group, first);
    GroupedAppend(first, extra, vars);
    VarKeysAppend(Grouped(first, vars), Grouped(extra, vars), first);
    KnownKeys(first, vars, first);
    DistinctEnd(first, extra);
    GroupedKeys(extra, annos, vars, first);
    TellingAppend(first, extra, annos, vars);
    AllTell(first, annos, vars);
  }

  lemma FileKeysIs(annos: seq<Anno>, vars: seq<AnnoVar>)
    ensures FileKeys(annos, vars) == VarKeys(vars, AnnoKeys(annos, []))
  {
  }

  /** The entries of some keys without the empty variable records. */
  function ToldItems(keys: seq<Key>, annos: seq<Anno>, vars: seq<AnnoVar>): seq<Item> {
    if keys == [] then []
    else
      [Item("\n    ", EntryDoc(keys[0], AnnoOf(annos, keys[0]), Kept(VarsOf(vars, keys[0]))))]
      + ToldItems(keys[1..], annos, vars)
  }

  /** An entry is its key, what names its annotation, and its variable items. */
  lemma EntryIs(k: Key, a: Option<Anno>, vs: seq<AnnoVar>, a': Option<Anno>, vs': seq<AnnoVar>)
    requires NameMembers(a) == NameMembers(a') && VarItems(vs) == VarItems(vs')
    ensures EntryDoc(k, a, vs) == EntryDoc(k, a', vs')
  {
    hide HexDoc, NameMembers, VarDoc;
  }

  lemma {:induction false} EntriesAre(keys: seq<Key>, back: seq<Anno>, loaded: seq<AnnoVar>, annos: seq<Anno>,
          vars: seq<AnnoVar>)
    requires forall k :: k in keys ==> NameMembers(AnnoOf(back, k)) == NameMembers(AnnoOf(annos, k))
    requires forall k :: k in keys ==> VarItems(VarsOf(loaded, k)) == VarItems(Kept(VarsOf(vars, k)))
    ensures EntryItems(keys, back, loaded) == ToldItems(keys, annos, vars)
  {
    hide NameMembers, VarItems, AnnoOf, VarsOf, Kept, EntryDoc;
    if keys == [] {
    } else {
      ghost var k := keys[0];
      EntryIs(k, AnnoOf(back, k), VarsOf(loaded, k), AnnoOf(annos, k), Kept(VarsOf(vars, k)));
      EntriesAre(keys[1..], back, loaded, annos, vars);
    }
  }

  lemma {:induction false} TellingAreKeys(keys: seq<Key>, annos: seq<Anno>, vars: seq<AnnoVar>)
    ensures forall k :: k in Telling(keys, annos, vars) ==> k in keys
  {
    hide Tells;
    if keys == [] {
    } else {
      TellingAreKeys(keys[1..], annos, vars);
    }
  }

  function FileOf(num: Strtod, size: string, items: seq<Item>): string {
    Text(DObj([Member("\n  ", "version", DNum("1", num("1").0)),
               Member("\n  ", "image_size", DNum(size, num(size).0)),
               Member("\n  ", "functions", DArr(items, "\n  "))], "\n")) + "\n"
  }

  lemma SavedIsFile(num: Strtod, size: string, annos: seq<Anno>, vars: seq<AnnoVar>)
    ensures SavedText(num, size, annos, vars) == FileOf(num, size, EntryItems(FileKeys(annos, vars), annos, vars))
  {
    hide EntryItems, FileKeys, Text;
  }

  lemma LoadedSays(funcs: seq<R.Func>, annos: seq<Anno>, vars: seq<AnnoVar>, k: Key)
    requires ValidStore(annos, vars) && k in FileKeys(annos, vars)
    ensures VarItems(VarsOf(ResolvedVars(funcs, Grouped(FileKeys(annos, vars), vars)), k)) ==
            VarItems(Kept(VarsOf(vars, k)))
  {
    ghost var extra := FileKeysSplit(annos, vars);
    ghost var keys := FileKeys(annos, vars);
    ghost var group := Grouped(keys, vars);
    hide *;
    ResolvedLoose(funcs, group);
    LooseSays(ResolvedVars(funcs, group), k);
    LooseSays(group, k);
    GroupedSays(keys, vars, k);
  }

  lemma {:induction false} NothingEmpty(vs: seq<AnnoVar>)
    requires forall v :: v in vs ==> !Empty(v)
    ensures VarItems(Kept(vs)) == VarItems(vs) && (vs != [] ==> Kept(vs) != [])
  {
    if vs == [] {
    } else {
      NothingEmpty(vs[1..]);
      assert !Empty(vs[0]);
      VarItemsCons(vs[0], vs[1..]);
      VarItemsCons(vs[0].(bound := R.UNBOUND), Kept(vs[1..]));
      assert VarDoc(vs[0].(bound := R.UNBOUND)) == VarDoc(vs[0]);
      assert vs == [vs[0]] + vs[1..];
      hide VarItems, VarDoc, Empty;
    }
  }

  lemma {:induction false} VarsOfSome(vars: seq<AnnoVar>, k: Key)
    requires HasKey(vars, k)
    ensures VarsOf(vars, k) != []
  {
    HasKeyNone(k);
    if vars == [] {
    } else {
      HasKeyCons(vars, k);
      if VarKey(vars[0]) != k {
        hide HasKey;
        VarsOfSome(vars[1..], k);
      }
    }
  }

  lemma HasKeyNone(k: Key)
    ensures !HasKey([], k)
  {
  }

  /** Without empty records nothing is left out. */
  lemma NothingLeftOut(annos: seq<Anno>, vars: seq<AnnoVar>)
    requires ValidStore(annos, vars) && forall v :: v in vars ==> !Empty(v)
    ensures var keys := FileKeys(annos, vars);
            Telling(keys, annos, vars) == keys && ToldItems(keys, annos, vars) == EntryItems(keys, annos, vars)
  {
    ghost var extra := FileKeysSplit(annos, vars);
    ghost var keys := FileKeys(annos, vars);
    hide FileKeys, AnnoKeys, ValidStore, DistinctKeys, AnnoOf, VarsOf, Kept, Empty, HasKey, VarItems, NameMembers,
         Telling, ToldItems, EntryItems;
    forall k | k in keys
      ensures Tells(k, annos, vars) && VarItems(VarsOf(vars, k)) == VarItems(Kept(VarsOf(vars, k)))
    {
      VarsOfAre(vars, k);
      NothingEmpty(VarsOf(vars, k));
      if k in extra {
        VarsOfSome(vars, k);
      }
    }
    AllTell(keys, annos, vars);
    EntriesAre(keys, annos, vars, annos, vars);
  }

  /**
    Saving what was loaded from a saved file writes the same text again, but for the empty
    variable records and the entries that said nothing else; without such records it is the
    same text to the letter, whatever the functions of the image are now.
  */
  lemma SaveLoadSave(num: Strtod, size: string, funcs: seq<R.Func>, annos: seq<Anno>, vars: seq<AnnoVar>,
                     annos0: seq<Anno>, vars0: seq<AnnoVar>)
    requires ReadsDecimals(num) && num("1").0 == 1.0 && IsDecimal(size) && ValidStore(annos, vars)
    ensures var l, keys := LoadText(num, SavedText(num, size, annos, vars), funcs, annos0, vars0),
            FileKeys(annos, vars);
            && SavedText(num, size, l.annos, l.vars)
               == FileOf(num, size, ToldItems(Telling(keys, annos, vars), annos, vars))
            && ((forall v :: v in vars ==> !Empty(v)) ==>
                  SavedText(num, size, l.annos, l.vars) == SavedText(num, size, annos, vars))
  {
    ghost var keys := FileKeys(annos, vars);
    ghost var told := Telling(keys, annos, vars);
    ghost var back, loaded := ResolvedAnnos(funcs, Unbound(NamedOnes(annos))), ResolvedVars(funcs, Grouped(keys, vars));
    hide *;
    SaveThenLoad(num, size, funcs, annos, vars, annos0, vars0);
    KeysComeBack(funcs, annos, vars);
    TellingAreKeys(keys, annos, vars);
    forall k | k in told
      ensures NameMembers(AnnoOf(back, k)) == NameMembers(AnnoOf(annos, k))
      ensures VarItems(VarsOf(loaded, k)) == VarItems(Kept(VarsOf(vars, k)))
    {
      AnnosComeBack(funcs, annos, k);
      LoadedSays(funcs, annos, vars, k);
    }
    EntriesAre(told, back, loaded, annos, vars);
    SavedIsFile(num, size, back, loaded);
    SavedIsFile(num, size, annos, vars);
    if forall v :: v in vars ==> !Empty(v) {
      NothingLeftOut(annos, vars);
    }
  }
}
