/**
  The engine's annotation store, loaded and saved in place.
*/
module AnnoStore {
  import opened Common
  import opened Json
  import opened JsonText
  import opened Annotations
  import opened AnnoRefusals
  import opened AnnoRoundTrip
  import R = AnnoResolve

  // ---------- text built up member by member ----------

  /** `key: ` as it stands in the file, after its white space. */
  function KeyText(lead: string, key: string): string {
    lead + Quoted(key) + ": "
  }

  lemma MemberTextIs(lead: string, key: string, d: Doc)
    ensures MemberText(Member(lead, key, d)) == KeyText(lead, key) + Text(d)
  {
    hide Text, EscapeAll;
  }

  /** The text of a member list with one more member at its end. */
  lemma {:induction false} MembersTextSnoc(s: seq<Member>, mb: Member)
    ensures MembersText(s + [mb]) == if s == [] then MemberText(mb) else MembersText(s) + ("," + MemberText(mb))
    decreases s
  {
    hide MemberText;
    if s == [] {
      assert s + [mb] == [mb] && [mb][1..] == [];
    } else {
      assert (s + [mb])[1..] == s[1..] + [mb];
      MembersTextSnoc(s[1..], mb);
      if s[1..] != [] {
        Assoc(MemberText(s[0]), ",", MembersText(s[1..]), "," + MemberText(mb));
      }
    }
  }

  lemma Assoc(a: string, b: string, c: string, d: string)
    ensures a + (b + (c + d)) == (a + (b + c)) + d
  {
  }

  lemma {:induction false} ItemsTextSnoc(s: seq<Item>, it: Item)
    ensures ItemsText(s + [it]) == if s == [] then ItemText(it) else ItemsText(s) + ("," + ItemText(it))
    decreases s
  {
    hide ItemText;
    if s == [] {
      assert s + [it] == [it] && [it][1..] == [];
    } else {
      assert (s + [it])[1..] == s[1..] + [it];
      ItemsTextSnoc(s[1..], it);
      if s[1..] != [] {
        Assoc(ItemText(s[0]), ",", ItemsText(s[1..]), "," + ItemText(it));
      }
    }
  }

  /** An object under construction: the text so far, and the members it stands for. */
  ghost predicate Building(o: string, ms: seq<Member>) {
    o == "{" + MembersText(ms)
  }

  /** One more string member. */
  method AddString(o0: string, ghost ms: seq<Member>, lead: string, key: string, s: string, first: bool)
    returns (o: string)
    requires Building(o0, ms) && NulFree(s) && first == (ms == [])
    ensures Building(o, ms + [Member(lead, key, DStr(s))])
  {
    var t := JStr(s);
    CStringOfNulFree(s);
    var k := KeyText(lead, key);
    o := o0 + ((if first then "" else ",") + (k + t));
    MembersTextSnoc(ms, Member(lead, key, DStr(s)));
    MemberTextIs(lead, key, DStr(s));
    hide MembersText, MemberText, KeyText, EscapeAll;
    if first {
      assert "" + (k + t) == k + t;
      assert MembersText([]) == "" by { NoMembersText(); }
      assert "{" + "" == "{";
    } else {
      assert ("{" + MembersText(ms)) + ("," + (k + t)) == "{" + (MembersText(ms) + ("," + (k + t)));
    }
  }

  lemma NoMembersText()
    ensures MembersText([]) == "" && ItemsText([]) == ""
  {
  }

  lemma CloseObject(o: string, ms: seq<Member>, close: string)
    requires Building(o, ms)
    ensures o + (close + "}") == Text(DObj(ms, close))
  {
    hide MembersText;
  }

  method VarText(v: AnnoVar) returns (o: string)
    requires ValidVar(v)
    ensures o == Text(VarDoc(v))
  {
    hide MembersText, Text;
    NoMembersText();
    o := "{";
    assert "{" + "" == "{";
    o := AddString(o, [], " ", "from", v.from, true);
    ghost var ms := [] + [Member(" ", "from", DStr(v.from))];
    o := AddString(o, ms, " ", "to", v.to, false);
    ms := ms + [Member(" ", "to", DStr(v.to))];
    if v.typ != "" {
      o := AddString(o, ms, " ", "type", v.typ, false);
      ms := ms + [Member(" ", "type", DStr(v.typ))];
    }
    CloseObject(o, ms, " ");
    o := o + (" " + "}");
    assert VarDoc(v).members == ms;
  }

  lemma VarItemsSnoc(vs: seq<AnnoVar>, j: nat)
    requires j < |vs|
    ensures VarItems(vs[..j + 1]) == VarItems(vs[..j]) + [Item(" ", VarDoc(vs[j]))]
  {
    hide VarDoc;
    VarItemsAppend(vs[..j], [vs[j]]);
    assert vs[..j + 1] == vs[..j] + [vs[j]];
    assert [vs[j]][1..] == [];
    assert VarItems([vs[j]]) == [Item(" ", VarDoc(vs[j]))] + VarItems([]);
  }

  lemma {:induction false} VarItemsAppend(s: seq<AnnoVar>, t: seq<AnnoVar>)
    ensures VarItems(s + t) == VarItems(s) + VarItems(t)
  {
    hide VarDoc;
    if s == [] {
      assert s + t == t;
    } else {
      assert (s + t)[1..] == s[1..] + t;
      VarItemsAppend(s[1..], t);
    }
  }

  /** The bracketed list of an entry's variables. */
  method VarList(vs: seq<AnnoVar>) returns (o: string)
    requires forall i :: 0 <= i < |vs| ==> ValidVar(vs[i])
    ensures o == Text(DArr(VarItems(vs), " "))
  {
    hide MembersText, VarDoc, ItemsText, VarItems, ValidVar;
    NoMembersText();
    NoVarItems();
    o := "";
    var j := 0;
    assert vs[..0] == [];
    while j < |vs|
      invariant 0 <= j <= |vs| && o == ItemsText(VarItems(vs[..j])) && (j == 0 <==> VarItems(vs[..j]) == [])
    {
      var t := VarText(vs[j]);
      VarItemsSnoc(vs, j);
      ItemsTextSnoc(VarItems(vs[..j]), Item(" ", VarDoc(vs[j])));
      ItemTextIs(" ", VarDoc(vs[j]));
      if j > 0 {
        o := o + ("," + (" " + t));
      } else {
        o := " " + t;
      }
      j := j + 1;
    }
    assert vs[..j] == vs;
    ArrTextIs(VarItems(vs), " ");
    o := "[" + o + " " + "]";
  }

  lemma NoVarItems()
    ensures VarItems([]) == []
  {
  }

  lemma ItemTextIs(lead: string, d: Doc)
    ensures ItemText(Item(lead, d)) == lead + Text(d)
  {
    hide Text;
  }

  lemma ArrTextIs(items: seq<Item>, close: string)
    ensures Text(DArr(items, close)) == "[" + ItemsText(items) + close + "]"
  {
    hide ItemsText;
  }

  /** One more member whose text is at hand. */
  lemma AddMember(o: string, ms: seq<Member>, lead: string, key: string, d: Doc)
    requires Building(o, ms) && ms != []
    ensures Building(o + ("," + (KeyText(lead, key) + Text(d))), ms + [Member(lead, key, d)])
  {
    MembersTextSnoc(ms, Member(lead, key, d));
    MemberTextIs(lead, key, d);
    hide MembersText, MemberText, KeyText, Text;
    AssocOne("{", MembersText(ms), "," + (KeyText(lead, key) + Text(d)));
  }

  lemma FirstMember(lead: string, key: string, d: Doc)
    ensures Building("{" + (KeyText(lead, key) + Text(d)), [Member(lead, key, d)])
  {
    MembersTextSnoc([], Member(lead, key, d));
    assert [] + [Member(lead, key, d)] == [Member(lead, key, d)];
    MemberTextIs(lead, key, d);
    hide MembersText, MemberText, KeyText, Text;
  }

  lemma AssocOne(a: string, b: string, c: string)
    ensures (a + b) + c == a + (b + c)
  {
  }

  lemma HexDocText(v: nat)
    ensures Text(HexDoc(v)) == JHex(v)
  {
    JHexIsQuoted(v);
    hide EscapeAll, HexText, JHex;
  }

  /** One entry of the file. */
  method EntryText(k: Key, a: Option<Anno>, vs: seq<AnnoVar>) returns (o: string)
    requires a.Some? ==> ValidAnno(a.value)
    requires forall i :: 0 <= i < |vs| ==> ValidVar(vs[i])
    ensures o == Text(EntryDoc(k, a, vs))
  {
    hide MembersText, Text, VarItems, JHex, KeyText, Building, ValidVar;
    HexDocText(k.hash);
    HexDocText(k.rva);
    FirstMember(" ", "hash", HexDoc(k.hash));
    o := "{" + (KeyText(" ", "hash") + JHex(k.hash));
    ghost var ms := [Member(" ", "hash", HexDoc(k.hash))];
    AddMember(o, ms, " ", "rva", HexDoc(k.rva));
    o := o + ("," + (KeyText(" ", "rva") + JHex(k.rva)));
    ms := ms + [Member(" ", "rva", HexDoc(k.rva))];
    ghost var first := ms;
    if a.Some? {
      if a.value.name != "" {
        o := AddString(o, ms, " ", "name", a.value.name, false);
        ms := ms + [Member(" ", "name", DStr(a.value.name))];
      }
      if a.value.comment != "" {
        o := AddString(o, ms, " ", "comment", a.value.comment, false);
        ms := ms + [Member(" ", "comment", DStr(a.value.comment))];
      }
    }
    assert ms == first + NameMembers(a);
    if vs != [] {
      var t := VarList(vs);
      AddMember(o, ms, "\n      ", "vars", DArr(VarItems(vs), " "));
      o := o + ("," + (KeyText("\n      ", "vars") + t));
      ms := ms + [Member("\n      ", "vars", DArr(VarItems(vs), " "))];
      CloseObject(o, ms, "\n    ");
      o := o + ("\n    " + "}");
    } else {
      CloseObject(o, ms, " ");
      o := o + (" " + "}");
    }
    EntryMembers(k, a, vs, first, ms);
  }

  lemma EntryMembers(k: Key, a: Option<Anno>, vs: seq<AnnoVar>, first: seq<Member>, ms: seq<Member>)
    requires first == [Member(" ", "hash", HexDoc(k.hash)), Member(" ", "rva", HexDoc(k.rva))]
    requires ms == first + NameMembers(a) + VarMembers(vs)
    ensures EntryDoc(k, a, vs) == DObj(ms, if vs == [] then " " else "\n    ")
  {
    hide NameMembers, VarMembers, HexText;
  }

  // ---------- collecting the identities ----------

  /** `key_index`: where a key is, or is put. */
  method KeyIndex(keys: seq<Key>, k: Key) returns (keys': seq<Key>, i: nat)
    ensures keys' == AddKey(keys, k) && i < |keys'| && keys'[i] == k
    ensures DistinctKeys(keys) ==> DistinctKeys(keys')
  {
    i := 0;
    while i < |keys|
      invariant 0 <= i <= |keys| && forall n :: 0 <= n < i ==> keys[n] != k
    {
      if keys[i] == k {
        return keys, i;
      }
      i := i + 1;
    }
    return keys + [k], i;
  }

  lemma {:induction false} AnnoKeysSnoc(annos: seq<Anno>, i: nat, keys: seq<Key>)
    requires i < |annos|
    ensures AnnoKeys(annos[..i + 1], keys)
            == if Named(annos[i]) then AddKey(AnnoKeys(annos[..i], keys), AnnoKey(annos[i]))
                else AnnoKeys(annos[..i], keys)
    decreases i
  {
    ghost var longer, shorter := annos[..i + 1], annos[..i];
    hide AddKey;
    if i > 0 {
      ghost var keys' := if Named(annos[0]) then AddKey(keys, AnnoKey(annos[0])) else keys;
      AnnoKeysSnoc(annos[1..], i - 1, keys');
      assert longer[1..] == annos[1..][..i] && shorter[1..] == annos[1..][..i - 1];
    } else {
      assert longer[1..] == [] && shorter == [];
    }
  }

  lemma {:induction false} AnnoOfSnoc(annos: seq<Anno>, i: nat, k: Key)
    requires i < |annos|
    ensures AnnoOf(annos[..i + 1], k) == if Named(annos[i]) && AnnoKey(annos[i]) == k then Some(annos[i])
            else AnnoOf(annos[..i], k)
    decreases i
  {
    ghost var longer, shorter := annos[..i + 1], annos[..i];
    if i > 0 {
      AnnoOfSnoc(annos[1..], i - 1, k);
      assert longer[1..] == annos[1..][..i] && shorter[1..] == annos[1..][..i - 1];
    } else {
      assert longer[1..] == [] && shorter == [];
    }
  }

  lemma {:induction false} VarKeysSnoc(vars: seq<AnnoVar>, i: nat, keys: seq<Key>)
    requires i < |vars|
    ensures VarKeys(vars[..i + 1], keys) == AddKey(VarKeys(vars[..i], keys), VarKey(vars[i]))
    decreases i
  {
    ghost var longer, shorter := vars[..i + 1], vars[..i];
    hide AddKey;
    if i > 0 {
      VarKeysSnoc(vars[1..], i - 1, AddKey(keys, VarKey(vars[0])));
      assert longer[1..] == vars[1..][..i] && shorter[1..] == vars[1..][..i - 1];
    } else {
      assert longer[1..] == [] && shorter == [];
    }
  }

  lemma {:induction false} VarsOfSnoc(vars: seq<AnnoVar>, i: nat, k: Key)
    requires i < |vars|
    ensures VarsOf(vars[..i + 1], k) == VarsOf(vars[..i], k) + if VarKey(vars[i]) == k then [vars[i]] else []
    decreases i
  {
    ghost var longer, shorter := vars[..i + 1], vars[..i];
    if i > 0 {
      VarsOfSnoc(vars[1..], i - 1, k);
      assert longer[1..] == vars[1..][..i] && shorter[1..] == vars[1..][..i - 1];
    } else {
      assert longer[1..] == [] && shorter == [];
    }
  }

  /** `anno_of` at some point: for each key the index of the annotation saved under it. */
  ghost predicate AnnosIndexed(annos: seq<Anno>, i: nat, keys: seq<Key>, annoOf: map<nat, nat>)
    requires i <= |annos|
  {
    && (forall n :: n in annoOf ==> n < |keys| && annoOf[n] < i)
    && forall n :: 0 <= n < |keys| ==>
        AnnoOf(annos[..i], keys[n]) == if n in annoOf then Some(annos[annoOf[n]]) else None
  }

  /** No annotation has a key that has not been recorded. */
  ghost predicate NoOtherAnno(annos: seq<Anno>, i: nat, keys: seq<Key>)
    requires i <= |annos|
  {
    forall k :: k !in keys ==> AnnoOf(annos[..i], k).None?
  }

  method CollectAnnos(annos: seq<Anno>) returns (keys: seq<Key>, annoOf: map<nat, nat>)
    ensures keys == AnnoKeys(annos, []) && DistinctKeys(keys)
    ensures AnnosIndexed(annos, |annos|, keys, annoOf) && NoOtherAnno(annos, |annos|, keys)
  {
    keys, annoOf := [], map[];
    var i := 0;
    while i < |annos|
      invariant 0 <= i <= |annos| && keys == AnnoKeys(annos[..i], []) && DistinctKeys(keys)
      invariant AnnosIndexed(annos, i, keys, annoOf) && NoOtherAnno(annos, i, keys)
    {
      ghost var keys0, of0 := keys, annoOf;
      AnnoKeysSnoc(annos, i, []);
      if Named(annos[i]) {
        var n;
        keys, n := KeyIndex(keys, AnnoKey(annos[i]));
        annoOf := annoOf[n := i];
        IndexOneMore(annos, i, keys0, of0, keys, n);
      } else {
        SameIndex(annos, i, keys, annoOf);
      }
      i := i + 1;
    }
    assert annos[..i] == annos;
  }

  lemma SameIndex(annos: seq<Anno>, i: nat, keys: seq<Key>, annoOf: map<nat, nat>)
    requires i < |annos| && !Named(annos[i]) && AnnosIndexed(annos, i, keys, annoOf) && NoOtherAnno(annos, i, keys)
    ensures AnnosIndexed(annos, i + 1, keys, annoOf) && NoOtherAnno(annos, i + 1, keys)
  {
    forall k ensures AnnoOf(annos[..i + 1], k) == AnnoOf(annos[..i], k) {
      AnnoOfSnoc(annos, i, k);
    }
    hide AnnoOf;
  }

  lemma IndexOneMore(annos: seq<Anno>, i: nat, keys0: seq<Key>, of0: map<nat, nat>, keys: seq<Key>, n: nat)
    requires i < |annos| && Named(annos[i]) && AnnosIndexed(annos, i, keys0, of0) && NoOtherAnno(annos, i, keys0)
    requires keys == AddKey(keys0, AnnoKey(annos[i])) && n < |keys| && keys[n] == AnnoKey(annos[i]) &&
             DistinctKeys(keys)
    ensures AnnosIndexed(annos, i + 1, keys, of0[n := i]) && NoOtherAnno(annos, i + 1, keys)
  {
    forall k
      ensures AnnoOf(annos[..i + 1], k) == if AnnoKey(annos[i]) == k then Some(annos[i]) else AnnoOf(annos[..i], k)
    {
      AnnoOfSnoc(annos, i, k);
    }
    hide AnnoOf;
  }

  lemma NothingIndexed(vars: seq<AnnoVar>, keys0: seq<Key>)
    ensures VarsIndexed(vars, 0, keys0, map[]) && VarKeys(vars[..0], keys0) == keys0
  {
  }

  function Pick(vars: seq<AnnoVar>, idx: seq<nat>): seq<AnnoVar>
    requires forall j :: 0 <= j < |idx| ==> idx[j] < |vars|
  {
    seq(|idx|, j requires 0 <= j < |idx| => vars[idx[j]])
  }

  /** `vars_of` at some point: for each key the indices of the variables saved under it. */
  ghost predicate VarsIndexed(vars: seq<AnnoVar>, i: nat, keys: seq<Key>, varsOf: map<nat, seq<nat>>)
    requires i <= |vars|
  {
    && (forall n :: n in varsOf ==> n < |keys| && forall j :: 0 <= j < |varsOf[n]| ==> varsOf[n][j] < i)
    && (forall n :: 0 <= n < |keys| ==> VarsOf(vars[..i], keys[n]) == if n in varsOf then Pick(vars, varsOf[n]) else [])
    && forall k :: k !in keys ==> VarsOf(vars[..i], k) == []
  }

  method CollectVars(vars: seq<AnnoVar>, keys0: seq<Key>) returns (keys: seq<Key>, varsOf: map<nat, seq<nat>>)
    requires DistinctKeys(keys0)
    ensures keys == VarKeys(vars, keys0) && DistinctKeys(keys) && keys0 <= keys &&
            VarsIndexed(vars, |vars|, keys, varsOf)
  {
    hide *;
    keys, varsOf := keys0, map[];
    var i := 0;
    NothingIndexed(vars, keys0);
    while i < |vars|
      invariant 0 <= i <= |vars| && keys == VarKeys(vars[..i], keys0) && DistinctKeys(keys) && keys0 <= keys
      invariant VarsIndexed(vars, i, keys, varsOf)
    {
      ghost var keysBefore, of0 := keys, varsOf;
      VarKeysSnoc(vars, i, keys0);
      var n;
      keys, n := KeyIndex(keys, VarKey(vars[i]));
      varsOf := varsOf[n := (if n in varsOf then varsOf[n] else []) + [i]];
      IndexOneMoreVar(vars, i, keysBefore, of0, keys, n);
      AddedKey(keysBefore, keys, VarKey(vars[i]));
      GrewIsPrefix(keysBefore, keys);
      i := i + 1;
    }
    assert vars[..i] == vars;
  }

  lemma PickSnoc(vars: seq<AnnoVar>, idx: seq<nat>, i: nat)
    requires i < |vars| && forall j :: 0 <= j < |idx| ==> idx[j] < |vars|
    ensures Pick(vars, idx + [i]) == Pick(vars, idx) + [vars[i]]
  {
  }

  predicate Grew(keys0: seq<Key>, keys: seq<Key>) {
    keys0 <= keys && |keys| <= |keys0| + 1 && (|keys| > |keys0| ==> keys[|keys0|] !in keys0)
  }

  /** What was recorded for the key at `n` before this variable came. */
  lemma IndexedBefore(vars: seq<AnnoVar>, i: nat, keys0: seq<Key>, of0: map<nat, seq<nat>>, keys: seq<Key>, n: nat)
    requires i < |vars| && VarsIndexed(vars, i, keys0, of0) && n < |keys| && Grew(keys0, keys)
    ensures n in of0 ==> forall j :: 0 <= j < |of0[n]| ==> of0[n][j] < i
    ensures VarsOf(vars[..i], keys[n]) == if n in of0 then Pick(vars, of0[n]) else []
  {
    hide VarsOf, Pick;
    if n < |keys0| {
      assert keys0[n] == keys[n];
    } else {
      assert keys[n] !in keys0;
    }
  }

  ghost predicate IndexedAt(vars: seq<AnnoVar>, i: nat, keys: seq<Key>, varsOf: map<nat, seq<nat>>, m: nat)
    requires i <= |vars| && m < |keys|
  {
    && (m in varsOf ==> forall j :: 0 <= j < |varsOf[m]| ==> varsOf[m][j] < i)
    && VarsOf(vars[..i], keys[m]) == if m in varsOf then Pick(vars, varsOf[m]) else []
  }

  lemma IndexedAfter(vars: seq<AnnoVar>, i: nat, keys0: seq<Key>, of0: map<nat, seq<nat>>, keys: seq<Key>, n: nat,
          m: nat)
    requires i < |vars| && VarsIndexed(vars, i, keys0, of0) && Grew(keys0, keys)
    requires n < |keys| && keys[n] == VarKey(vars[i]) && m < |keys| && (m != n ==> keys[m] != keys[n])
    ensures IndexedAt(vars, i + 1, keys, of0[n := (if n in of0 then of0[n] else []) + [i]], m)
  {
    hide VarsOf, Pick, VarsIndexed, Grew;
    ghost var idx := if n in of0 then of0[n] else [];
    VarsOfSnoc(vars, i, keys[m]);
    IndexedBefore(vars, i, keys0, of0, keys, m);
    if m == n {
      PickSnoc(vars, idx, i);
      PickNone(vars);
    }
  }

  lemma NothingElse(vars: seq<AnnoVar>, i: nat, keys0: seq<Key>, of0: map<nat, seq<nat>>, keys: seq<Key>, k: Key)
    requires i < |vars| && VarsIndexed(vars, i, keys0, of0) && Grew(keys0, keys) && VarKey(vars[i]) in keys &&
             k !in keys
    ensures VarsOf(vars[..i + 1], k) == []
  {
    VarsOfSnoc(vars, i, k);
    assert k !in keys0;
    hide VarsOf, Pick;
  }

  lemma IndexOneMoreVar(vars: seq<AnnoVar>, i: nat, keys0: seq<Key>, of0: map<nat, seq<nat>>, keys: seq<Key>, n: nat)
    requires i < |vars| && VarsIndexed(vars, i, keys0, of0)
    requires keys == AddKey(keys0, VarKey(vars[i])) && n < |keys| && keys[n] == VarKey(vars[i]) && DistinctKeys(keys)
    ensures VarsIndexed(vars, i + 1, keys, of0[n := (if n in of0 then of0[n] else []) + [i]])
  {
    hide *;
    ghost var varsOf, next := of0[n := (if n in of0 then of0[n] else []) + [i]], i + 1;
    AddedKey(keys0, keys, VarKey(vars[i]));
    IndicesBounded(vars, i, keys0, of0);
    forall m: nat | m < |keys| ensures IndexedAt(vars, next, keys, varsOf, m) {
      DistinctAt(keys, m, n);
      IndexedAfter(vars, i, keys0, of0, keys, n, m);
    }
    forall k | k !in keys ensures VarsOf(vars[..next], k) == [] {
      NothingElse(vars, i, keys0, of0, keys, k);
    }
    AllIndexed(vars, next, keys, varsOf);
  }

  lemma AddedKey(keys0: seq<Key>, keys: seq<Key>, k: Key)
    requires keys == AddKey(keys0, k)
    ensures Grew(keys0, keys) && k in keys && |keys0| <= |keys|
  {
  }

  lemma GrewIsPrefix(keys0: seq<Key>, keys: seq<Key>)
    requires Grew(keys0, keys)
    ensures keys0 <= keys
  {
  }

  lemma IndicesBounded(vars: seq<AnnoVar>, i: nat, keys: seq<Key>, varsOf: map<nat, seq<nat>>)
    requires i <= |vars| && VarsIndexed(vars, i, keys, varsOf)
    ensures forall x :: x in varsOf ==> x < |keys|
  {
    hide VarsOf, Pick;
  }

  lemma DistinctAt(keys: seq<Key>, m: nat, n: nat)
    requires DistinctKeys(keys) && m < |keys| && n < |keys|
    ensures m != n ==> keys[m] != keys[n]
  {
  }

  lemma AllIndexed(vars: seq<AnnoVar>, i: nat, keys: seq<Key>, varsOf: map<nat, seq<nat>>)
    requires i <= |vars| && (forall x :: x in varsOf ==> x < |keys|)
    requires forall m: nat :: m < |keys| ==> IndexedAt(vars, i, keys, varsOf, m)
    requires forall k :: k !in keys ==> VarsOf(vars[..i], k) == []
    ensures VarsIndexed(vars, i, keys, varsOf)
  {
    forall x: nat | x in varsOf ensures forall j :: 0 <= j < |varsOf[x]| ==> varsOf[x][j] < i {
      assert IndexedAt(vars, i, keys, varsOf, x);
    }
    forall m: nat | m < |keys| ensures VarsOf(vars[..i], keys[m]) == if m in varsOf then Pick(vars, varsOf[m]) else [] {
      assert IndexedAt(vars, i, keys, varsOf, m);
    }
    hide VarsOf, Pick, IndexedAt;
  }

  lemma PickNone(vars: seq<AnnoVar>)
    ensures Pick(vars, []) == []
  {
  }

  // ---------- the whole file ----------

  lemma {:induction false} EntryItemsAppend(s: seq<Key>, t: seq<Key>, annos: seq<Anno>, vars: seq<AnnoVar>)
    ensures EntryItems(s + t, annos, vars) == EntryItems(s, annos, vars) + EntryItems(t, annos, vars)
  {
    hide EntryDoc, AnnoOf, VarsOf;
    if s == [] {
      assert s + t == t;
    } else {
      assert (s + t)[1..] == s[1..] + t;
      EntryItemsAppend(s[1..], t, annos, vars);
    }
  }

  lemma EntryItemsSnoc(keys: seq<Key>, j: nat, annos: seq<Anno>, vars: seq<AnnoVar>)
    requires j < |keys|
    ensures EntryItems(keys[..j + 1], annos, vars)
            == EntryItems(keys[..j], annos, vars) +
                [Item("\n    ", EntryDoc(keys[j], AnnoOf(annos, keys[j]), VarsOf(vars, keys[j])))]
  {
    hide EntryDoc, AnnoOf, VarsOf;
    EntryItemsAppend(keys[..j], [keys[j]], annos, vars);
    assert keys[..j + 1] == keys[..j] + [keys[j]];
    assert [keys[j]][1..] == [];
    assert EntryItems([keys[j]], annos, vars)
           == [Item("\n    ", EntryDoc(keys[j], AnnoOf(annos, keys[j]), VarsOf(vars, keys[j])))] +
               EntryItems([], annos, vars);
  }

  lemma NoEntryItems(annos: seq<Anno>, vars: seq<AnnoVar>)
    ensures EntryItems([], annos, vars) == []
  {
  }

  lemma ValidAnnoOf(annos: seq<Anno>, vars: seq<AnnoVar>, k: Key)
    requires ValidStore(annos, vars)
    ensures AnnoOf(annos, k).Some? ==> ValidAnno(AnnoOf(annos, k).value)
  {
    AnnoOfIs(annos, k);
    hide AnnoOf;
    if AnnoOf(annos, k).Some? {
      ghost var i :| 0 <= i < |annos| && annos[i] == AnnoOf(annos, k).value;
    }
  }

  lemma AtKey(annos: seq<Anno>, keys: seq<Key>, annoOf: map<nat, nat>, n: nat)
    requires AnnosIndexed(annos, |annos|, keys, annoOf) && n < |keys|
    ensures n in annoOf ==> annoOf[n] < |annos|
    ensures AnnoOf(annos, keys[n]) == if n in annoOf then Some(annos[annoOf[n]]) else None
  {
    assert annos[..|annos|] == annos;
    hide AnnoOf;
  }

  lemma VarsAtKey(vars: seq<AnnoVar>, keys: seq<Key>, varsOf: map<nat, seq<nat>>, n: nat)
    requires VarsIndexed(vars, |vars|, keys, varsOf) && n < |keys|
    ensures n in varsOf ==> forall j :: 0 <= j < |varsOf[n]| ==> varsOf[n][j] < |vars|
    ensures VarsOf(vars, keys[n]) == if n in varsOf then Pick(vars, varsOf[n]) else []
  {
    assert vars[..|vars|] == vars;
    hide VarsOf, Pick;
  }

  /** The annotation tables cover the keys that variables have added. */
  lemma CoversMore(annos: seq<Anno>, keys0: seq<Key>, keys: seq<Key>, annoOf: map<nat, nat>)
    requires AnnosIndexed(annos, |annos|, keys0, annoOf) && NoOtherAnno(annos, |annos|, keys0) && keys0 <= keys &&
             DistinctKeys(keys)
    ensures AnnosIndexed(annos, |annos|, keys, annoOf)
  {
    hide AnnoOf;
    forall n: nat | n < |keys|
      ensures AnnoOf(annos[..|annos|], keys[n]) == if n in annoOf then Some(annos[annoOf[n]]) else None
    {
      if n < |keys0| {
        assert keys0[n] == keys[n];
      } else {
        forall m | 0 <= m < |keys0| ensures keys0[m] != keys[n] {
          assert keys0[m] == keys[m];
        }
        assert keys[n] !in keys0;
      }
    }
  }

  /** The entries, comma separated, between the brackets. */
  method EntryList(keys: seq<Key>, annos: seq<Anno>, vars: seq<AnnoVar>, annoOf: map<nat, nat>,
          varsOf: map<nat, seq<nat>>) returns (o: string)
    requires ValidStore(annos, vars) && AnnosIndexed(annos, |annos|, keys, annoOf) &&
             VarsIndexed(vars, |vars|, keys, varsOf)
    ensures o == Text(DArr(EntryItems(keys, annos, vars), "\n  "))
  {
    hide *;
    NoMembersText();
    NoEntryItems(annos, vars);
    o := "";
    var k := 0;
    assert keys[..0] == [];
    while k < |keys|
      invariant 0 <= k <= |keys| && o == ItemsText(EntryItems(keys[..k], annos, vars))
      invariant k == 0 <==> EntryItems(keys[..k], annos, vars) == []
    {
      AtKey(annos, keys, annoOf, k);
      VarsAtKey(vars, keys, varsOf, k);
      ValidAnnoOf(annos, vars, keys[k]);
      ValidVarsOf(annos, vars, keys[k]);
      var a := if k in annoOf then Some(annos[annoOf[k]]) else None;
      var vs := if k in varsOf then Pick(vars, varsOf[k]) else [];
      var t := EntryText(keys[k], a, vs);
      EntryItemsSnoc(keys, k, annos, vars);
      ItemsTextSnoc(EntryItems(keys[..k], annos, vars), Item("\n    ", EntryDoc(keys[k], a, vs)));
      ItemTextIs("\n    ", EntryDoc(keys[k], a, vs));
      if k > 0 {
        o := o + ("," + ("\n    " + t));
      } else {
        o := "\n    " + t;
      }
      k := k + 1;
    }
    assert keys[..k] == keys;
    ArrTextIs(EntryItems(keys, annos, vars), "\n  ");
    o := "[" + o + "\n  " + "]";
  }

  lemma NumText(t: string, v: real)
    ensures Text(DNum(t, v)) == t
  {
  }

  class Engine {
    var annos: seq<Anno>
    var vars: seq<AnnoVar>
    var funcs: seq<R.Func>

    constructor (funcs: seq<R.Func>)
      ensures annos == [] && vars == [] && this.funcs == funcs
    {
      annos, vars, this.funcs := [], [], funcs;
    }

    /** `ds_engine_save_annotations`: the bytes of the file. */
    method Save(size: string, ghost num: Strtod) returns (o: string)
      requires ValidStore(annos, vars)
      ensures o == SavedText(num, size, annos, vars)
    {
      hide MembersText, Text, EntryItems, ValidStore, KeyText, Building, AnnosIndexed, VarsIndexed, NoOtherAnno,
           DistinctKeys, EscapeAll;
      var keys0, annoOf := CollectAnnos(annos);
      var keys, varsOf := CollectVars(vars, keys0);
      CoversMore(annos, keys0, keys, annoOf);
      assert keys == FileKeys(annos, vars);
      ghost var v, i := DNum("1", num("1").0), DNum(size, num(size).0);
      ghost var f := DArr(EntryItems(keys, annos, vars), "\n  ");
      NumText("1", num("1").0);
      NumText(size, num(size).0);
      FirstMember("\n  ", "version", v);
      o := "{" + (KeyText("\n  ", "version") + "1");
      ghost var ms := [Member("\n  ", "version", v)];
      AddMember(o, ms, "\n  ", "image_size", i);
      o := o + ("," + (KeyText("\n  ", "image_size") + size));
      ms := ms + [Member("\n  ", "image_size", i)];
      var list := EntryList(keys, annos, vars, annoOf, varsOf);
      AddMember(o, ms, "\n  ", "functions", f);
      o := o + ("," + (KeyText("\n  ", "functions") + list));
      ms := ms + [Member("\n  ", "functions", f)];
      CloseObject(o, ms, "\n");
      o := o + ("\n" + "}") + "\n";
      assert FileDoc(num, size, annos, vars) == DObj(ms, "\n");
    }

    /** `anno_upsert`: the index of the annotation for an rva, which is made if there is none. */
    method Upsert(rva: nat) returns (i: nat)
      modifies this`annos
      ensures annos == Upserted(old(annos), rva) && i == IndexOf(old(annos), rva)
    {
      i := 0;
      while i < |annos|
        invariant 0 <= i <= |annos| && annos == old(annos) && forall k :: 0 <= k < i ==> annos[k].rva != rva
      {
        if annos[i].rva == rva {
          IndexIs(annos, rva, i);
          return i;
        }
        i := i + 1;
      }
      IndexIs(annos, rva, i);
      annos := annos + [Anno(0, rva, R.UNBOUND, "", "")];
    }

    /** One function entry's name and comment. */
    method LoadOneAnno(members: seq<(string, JVal)>)
      modifies this`annos
      ensures annos == LoadAnno(members, old(annos))
    {
      hide GetU64, GetStr, Fit;
      var rva, hash := GetU64(members, "rva", 0), GetU64(members, "hash", 0);
      var name, comment := GetStr(members, "name"), GetStr(members, "comment");
      if name != "" || comment != "" {
        var i := Upsert(rva);
        annos := annos[i := annos[i].(hash := hash, bound := R.UNBOUND)];
        if name != "" {
          annos := annos[i := annos[i].(name := Fit(name, NAME_SIZE))];
        }
        if comment != "" {
          annos := annos[i := annos[i].(comment := Fit(comment, COMMENT_SIZE))];
        }
      }
    }

    /** The variables of one entry; a record that is no object stops the load. */
    method LoadVarList(items: seq<JVal>, hash: nat, rva: nat) returns (code: int)
      modifies this`vars
      ensures Loaded(code, annos, vars) == LoadVars(items, hash, rva, annos, old(vars))
    {
      hide LoadVar;
      var k := 0;
      while k < |items|
        invariant 0 <= k <= |items|
        invariant LoadVars(items[k..], hash, rva, annos, vars) == LoadVars(items, hash, rva, annos, old(vars))
      {
        assert items[k..][1..] == items[k + 1..];
        if !items[k].Obj? {
          return 2;
        }
        vars := vars + LoadVar(items[k].members, hash, rva);
        k := k + 1;
      }
      return 0;
    }

    /** All entries, in order, into an emptied store. */
    method LoadEntries(fns: seq<JVal>) returns (code: int)
      modifies this`annos, this`vars
      ensures Loaded(code, annos, vars) == LoadFunctions(fns, old(annos), old(vars))
    {
      hide LoadAnno, LoadVars, GetU64, Get;
      var i := 0;
      while i < |fns|
        invariant 0 <= i <= |fns|
        invariant LoadFunctions(fns[i..], annos, vars) == LoadFunctions(fns, old(annos), old(vars))
      {
        assert fns[i..][1..] == fns[i + 1..];
        if !fns[i].Obj? {
          return 2;
        }
        var members := fns[i].members;
        var rva, hash := GetU64(members, "rva", 0), GetU64(members, "hash", 0);
        LoadOneAnno(members);
        var vs := Get(members, "vars");
        if vs.Some? {
          if !vs.value.Arr? {
            return 2;
          }
          code := LoadVarList(vs.value.items, hash, rva);
          if code != 0 {
            return;
          }
        }
        i := i + 1;
      }
      return 0;
    }

    /** `ds_anno_resolve` over the whole store. */
    method ResolveAll()
      modifies this`annos, this`vars
      ensures annos == ResolvedAnnos(funcs, old(annos)) && vars == ResolvedVars(funcs, old(vars))
    {
      hide R.Bind, R.Bounds;
      var bounds := R.Resolve(funcs, IdsOfAnnos(annos));
      var varBounds := R.ResolveVars(funcs, IdsOfVars(vars));
      var before, varsBefore := annos, vars;
      annos := seq(|before|, i requires 0 <= i < |before| => before[i].(bound := bounds[i]));
      vars := seq(|varsBefore|, i requires 0 <= i < |varsBefore| => varsBefore[i].(bound := varBounds[i]));
    }

    /**
      `ds_engine_load_annotations` on the bytes of a file: 0, or 2 for a file that is not
      understood.  A file refused before its entries are read leaves the store as it was; of
      one that is not, nothing in the old store is left.
    */
    method Load(text: string, num: Strtod) returns (code: int)
      modifies this`annos, this`vars
      ensures Loaded(code, annos, vars) == LoadText(num, text, funcs, old(annos), old(vars))
      ensures var doc := ReadValue(num, text, 0);
              if doc.None? || !Understood(doc.value.0) then code == 2 && annos == old(annos) && vars == old(vars)
              else code == if EntriesUnderstood(doc.value.0) then 0 else 2
    {
      hide ReadValue, LoadFunctions, Get, GetU64, ResolvedAnnos, ResolvedVars, Understood, EntriesUnderstood;
      TextLoadedExactly(num, text, funcs, annos, vars);
      var jp := new JParser(text, num);
      assert text[0..] == text;
      var found, root := jp.Value();
      if !found || !root.Obj? {
        return 2;
      }
      if GetU64(root.members, "version", 1) != 1 {
        return 2;
      }
      var fns := Get(root.members, "functions");
      if fns.Some? && !fns.value.Arr? {
        return 2;
      }
      annos, vars := [], [];
      if fns.None? {
        return 0;
      }
      code := LoadEntries(fns.value.items);
      if code == 0 {
        ResolveAll();
      }
    }
  }

  lemma IndexIs(annos: seq<Anno>, rva: nat, i: nat)
    requires i <= |annos| && (forall k :: 0 <= k < i ==> annos[k].rva != rva) && (i < |annos| ==> annos[i].rva == rva)
    ensures IndexOf(annos, rva) == i
  {
    ghost var j := IndexOf(annos, rva);
  }
}
