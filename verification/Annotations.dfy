/**
  The annotation store and its sidecar file: what is saved is what is loaded.

  A saved file has one entry per recorded identity (hash, rva), in the order the identities
  first occur, annotations first; the variables of an identity stand in its entry, also
  when it has no name or comment.
*/
module Annotations {
  import opened Common
  import opened Json
  import opened JsonText
  import R = AnnoResolve

  datatype Anno = Anno(hash: nat, rva: nat, bound: nat, name: string, comment: string)

  datatype AnnoVar = AnnoVar(hash: nat, rva: nat, bound: nat, from: string, to: string, typ: string)

  datatype Key = Key(hash: nat, rva: nat)

  // ---------- the store ----------

  const NAME_SIZE: nat := 96
  const COMMENT_SIZE: nat := 256
  const VAR_SIZE: nat := 64

  /** `ds_strlcpy` into a field: up to the NUL, and no longer than the field allows. */
  function Fit(s: string, size: nat): string
    requires size > 0
  {
    var c := CString(s);
    if |c| < size then c else c[..size - 1]
  }

  predicate FitsField(s: string, size: nat) {
    NulFree(s) && |s| < size
  }

  predicate ValidAnno(a: Anno) {
    a.hash < WORD && a.rva < WORD && FitsField(a.name, NAME_SIZE) && FitsField(a.comment, COMMENT_SIZE)
  }

  predicate ValidVar(v: AnnoVar) {
    v.hash < WORD && v.rva < WORD && FitsField(v.from, VAR_SIZE) && FitsField(v.to, VAR_SIZE) &&
        FitsField(v.typ, VAR_SIZE)
  }

  /** `anno_upsert` keeps one annotation per rva. */
  ghost predicate ValidStore(annos: seq<Anno>, vars: seq<AnnoVar>) {
    && (forall i :: 0 <= i < |annos| ==> ValidAnno(annos[i]))
    && (forall i, j :: 0 <= i < j < |annos| ==> annos[i].rva != annos[j].rva)
    && forall i :: 0 <= i < |vars| ==> ValidVar(vars[i])
  }

  function IndexOf(annos: seq<Anno>, rva: nat): (i: nat)
    ensures i <= |annos|
    ensures i < |annos| ==> annos[i].rva == rva
    ensures forall k :: 0 <= k < i ==> annos[k].rva != rva
  {
    if annos == [] || annos[0].rva == rva then 0 else 1 + IndexOf(annos[1..], rva)
  }

  /** The store with an annotation for the rva, a blank one if there was none. */
  function Upserted(annos: seq<Anno>, rva: nat): (r: seq<Anno>)
    ensures |r| >= |annos| && IndexOf(annos, rva) < |r| && r[IndexOf(annos, rva)].rva == rva
  {
    if IndexOf(annos, rva) < |annos| then annos else annos + [Anno(0, rva, R.UNBOUND, "", "")]
  }

  // ---------- what a file says ----------

  function Get(members: seq<(string, JVal)>, k: string): Option<JVal> {
    if members == [] then None
    else if members[0].0 == k then Some(members[0].1)
    else Get(members[1..], k)
  }

  /** A real converted to an unsigned word, where C defines the conversion. */
  function ToWord(n: real): nat {
    if 0.0 <= n < WORD as real then n.Floor else 0
  }

  function GetU64(members: seq<(string, JVal)>, k: string, dflt: nat): nat {
    match Get(members, k)
    case None => dflt
    case Some(v) => if v.Num? then ToWord(v.n) else if v.Str? then StrToUll(CString(v.s)) else dflt
  }

  function GetStr(members: seq<(string, JVal)>, k: string): string {
    match Get(members, k)
    case None => ""
    case Some(v) => if v.Str? then v.s else ""
  }

  /** A variable entry; without a variable, or with neither a rename nor a type, it adds nothing. */
  function LoadVar(members: seq<(string, JVal)>, hash: nat, rva: nat): seq<AnnoVar> {
    var from, to, ty := GetStr(members, "from"), GetStr(members, "to"), GetStr(members, "type");
    if from == "" || (to == "" && ty == "") then []
    else [AnnoVar(hash, rva, R.UNBOUND, Fit(from, VAR_SIZE), Fit(to, VAR_SIZE), Fit(ty, VAR_SIZE))]
  }

  /** The loader's answer: its return code, and the store as it leaves it. */
  datatype Loaded = Loaded(code: int, annos: seq<Anno>, vars: seq<AnnoVar>)

  function LoadVars(items: seq<JVal>, hash: nat, rva: nat, annos: seq<Anno>, vars: seq<AnnoVar>): Loaded {
    if items == [] then Loaded(0, annos, vars)
    else if !items[0].Obj? then Loaded(2, annos, vars)
    else LoadVars(items[1..], hash, rva, annos, vars + LoadVar(items[0].members, hash, rva))
  }

  /** The annotation part of a function entry. */
  function LoadAnno(members: seq<(string, JVal)>, annos: seq<Anno>): seq<Anno> {
    var rva, hash := GetU64(members, "rva", 0), GetU64(members, "hash", 0);
    var name, comment := GetStr(members, "name"), GetStr(members, "comment");
    if name == "" && comment == "" then annos
    else
      var r := Upserted(annos, rva);
      var i := IndexOf(annos, rva);
      r[i := r[i].(hash := hash, bound := R.UNBOUND,
                   name := if name != "" then Fit(name, NAME_SIZE) else r[i].name,
                   comment := if comment != "" then Fit(comment, COMMENT_SIZE) else r[i].comment)]
  }

  function LoadFunctions(fns: seq<JVal>, annos: seq<Anno>, vars: seq<AnnoVar>): Loaded {
    if fns == [] then Loaded(0, annos, vars)
    else if !fns[0].Obj? then Loaded(2, annos, vars)
    else
      var members := fns[0].members;
      var rva, hash := GetU64(members, "rva", 0), GetU64(members, "hash", 0);
      var annos' := LoadAnno(members, annos);
      match Get(members, "vars")
      case None => LoadFunctions(fns[1..], annos', vars)
      case Some(vs) =>
        if !vs.Arr? then Loaded(2, annos', vars)
        else
          var l := LoadVars(vs.items, hash, rva, annos', vars);
          if l.code != 0 then l else LoadFunctions(fns[1..], l.annos, l.vars)
  }

  function IdsOfAnnos(annos: seq<Anno>): seq<R.Identity> {
    seq(|annos|, i requires 0 <= i < |annos| => R.Identity(annos[i].hash, annos[i].rva))
  }

  function IdsOfVars(vars: seq<AnnoVar>): seq<R.Identity> {
    seq(|vars|, i requires 0 <= i < |vars| => R.Identity(vars[i].hash, vars[i].rva))
  }

  /** The store with every binding derived afresh. */
  function ResolvedAnnos(funcs: seq<R.Func>, annos: seq<Anno>): seq<Anno> {
    var b := R.Bounds(funcs, IdsOfAnnos(annos), |annos|);
    seq(|annos|, i requires 0 <= i < |annos| => annos[i].(bound := b[i]))
  }

  function ResolvedVars(funcs: seq<R.Func>, vars: seq<AnnoVar>): seq<AnnoVar> {
    seq(|vars|, i requires 0 <= i < |vars| => vars[i].(bound := R.Bind(funcs, R.Identity(vars[i].hash, vars[i].rva))))
  }

  /** Loading a parsed file over a store; a file that is refused leaves the store alone. */
  function LoadRoot(root: JVal, funcs: seq<R.Func>, annos: seq<Anno>, vars: seq<AnnoVar>): Loaded {
    if !root.Obj? then Loaded(2, annos, vars)
    else if GetU64(root.members, "version", 1) != 1 then Loaded(2, annos, vars)
    else match Get(root.members, "functions")
      case None => Loaded(0, [], [])
      case Some(fns) =>
        if !fns.Arr? then Loaded(2, annos, vars)
        else
          var l := LoadFunctions(fns.items, [], []);
          if l.code != 0 then l else Loaded(0, ResolvedAnnos(funcs, l.annos), ResolvedVars(funcs, l.vars))
  }

  function LoadText(num: Strtod, text: string, funcs: seq<R.Func>, annos: seq<Anno>, vars: seq<AnnoVar>): Loaded {
    match ReadValue(num, text, 0)
    case None => Loaded(2, annos, vars)
    case Some((root, _)) => LoadRoot(root, funcs, annos, vars)
  }

  // ---------- what is saved ----------

  predicate Named(a: Anno) {
    a.name != "" || a.comment != ""
  }

  function NamedOnes(annos: seq<Anno>): seq<Anno> {
    if annos == [] then [] else (if Named(annos[0]) then [annos[0]] else []) + NamedOnes(annos[1..])
  }

  function AnnoKey(a: Anno): Key {
    Key(a.hash, a.rva)
  }

  function VarKey(v: AnnoVar): Key {
    Key(v.hash, v.rva)
  }

  function AddKey(keys: seq<Key>, k: Key): seq<Key> {
    if k in keys then keys else keys + [k]
  }

  function AnnoKeys(annos: seq<Anno>, keys: seq<Key>): seq<Key> {
    if annos == [] then keys
    else AnnoKeys(annos[1..], if Named(annos[0]) then AddKey(keys, AnnoKey(annos[0])) else keys)
  }

  function VarKeys(vars: seq<AnnoVar>, keys: seq<Key>): seq<Key> {
    if vars == [] then keys else VarKeys(vars[1..], AddKey(keys, VarKey(vars[0])))
  }

  /** The identities in the order of the file. */
  function FileKeys(annos: seq<Anno>, vars: seq<AnnoVar>): seq<Key> {
    VarKeys(vars, AnnoKeys(annos, []))
  }

  /** The annotation saved in the entry of a key: the last named one that has it. */
  function AnnoOf(annos: seq<Anno>, k: Key): Option<Anno> {
    if annos == [] then None
    else match AnnoOf(annos[1..], k)
      case Some(a) => Some(a)
      case None => if Named(annos[0]) && AnnoKey(annos[0]) == k then Some(annos[0]) else None
  }

  /** The variables saved in the entry of a key, in their order. */
  function VarsOf(vars: seq<AnnoVar>, k: Key): seq<AnnoVar> {
    if vars == [] then [] else (if VarKey(vars[0]) == k then [vars[0]] else []) + VarsOf(vars[1..], k)
  }

  function HexDoc(v: nat): Doc {
    DStr("0x" + HexText(v))
  }

  function VarDoc(v: AnnoVar): Doc {
    DObj([Member(" ", "from", DStr(v.from)), Member(" ", "to", DStr(v.to))]
         + (if v.typ != "" then [Member(" ", "type", DStr(v.typ))] else []), " ")
  }

  function VarItems(vars: seq<AnnoVar>): seq<Item> {
    if vars == [] then [] else [Item(" ", VarDoc(vars[0]))] + VarItems(vars[1..])
  }

  function NameMembers(a: Option<Anno>): seq<Member> {
    match a
    case None => []
    case Some(x) =>
      (if x.name != "" then [Member(" ", "name", DStr(x.name))] else [])
      + (if x.comment != "" then [Member(" ", "comment", DStr(x.comment))] else [])
  }

  function VarMembers(vs: seq<AnnoVar>): seq<Member> {
    if vs == [] then [] else [Member("\n      ", "vars", DArr(VarItems(vs), " "))]
  }

  function EntryDoc(k: Key, a: Option<Anno>, vs: seq<AnnoVar>): Doc {
    DObj([Member(" ", "hash", HexDoc(k.hash)), Member(" ", "rva", HexDoc(k.rva))] + NameMembers(a) + VarMembers(vs),
         if vs == [] then " " else "\n    ")
  }

  function EntryItems(keys: seq<Key>, annos: seq<Anno>, vars: seq<AnnoVar>): seq<Item> {
    if keys == [] then []
    else
      [Item("\n    ", EntryDoc(keys[0], AnnoOf(annos, keys[0]), VarsOf(vars, keys[0])))]
      + EntryItems(keys[1..], annos, vars)
  }

  function FileDoc(num: Strtod, size: string, annos: seq<Anno>, vars: seq<AnnoVar>): Doc {
    DObj([Member("\n  ", "version", DNum("1", num("1").0)),
          Member("\n  ", "image_size", DNum(size, num(size).0)),
          Member("\n  ", "functions", DArr(EntryItems(FileKeys(annos, vars), annos, vars), "\n  "))], "\n")
  }

  /** The whole text of the file. */
  function SavedText(num: Strtod, size: string, annos: seq<Anno>, vars: seq<AnnoVar>): string {
    Text(FileDoc(num, size, annos, vars)) + "\n"
  }

  // ---------- what comes back ----------

  predicate Empty(v: AnnoVar) {
    v.from == "" || (v.to == "" && v.typ == "")
  }

  function Unbound(annos: seq<Anno>): seq<Anno> {
    seq(|annos|, i requires 0 <= i < |annos| => annos[i].(bound := R.UNBOUND))
  }

  function Kept(vs: seq<AnnoVar>): seq<AnnoVar> {
    if vs == [] then [] else (if Empty(vs[0]) then [] else [vs[0].(bound := R.UNBOUND)]) + Kept(vs[1..])
  }

  /** The variables grouped by identity, in the order of the identities, without the empty ones. */
  function Grouped(keys: seq<Key>, vars: seq<AnnoVar>): seq<AnnoVar> {
    if keys == [] then [] else Kept(VarsOf(vars, keys[0])) + Grouped(keys[1..], vars)
  }
}
