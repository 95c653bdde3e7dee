/**
  Binding stored annotations to the functions of the image as it is now: by content hash
  when exactly one function has it, else by address, and never to a function whose hash is
  known to be another one.
*/
module AnnoResolve {

  const UNBOUND: nat := 0xFFFF_FFFF_FFFF_FFFF

  /** A recovered function: its address, and its content hash, 0 when there is none. */
  datatype Func = Func(rva: nat, hash: nat)

  /** What an annotation remembers of its function. */
  datatype Identity = Identity(hash: nat, rva: nat)

  // ---------- binding one identity ----------

  function CountHash(funcs: seq<Func>, h: nat): nat {
    if funcs == [] then 0 else (if funcs[0].hash == h then 1 else 0) + CountHash(funcs[1..], h)
  }

  function FirstWithHash(funcs: seq<Func>, h: nat): (i: nat)
    ensures i <= |funcs|
    ensures i < |funcs| ==> funcs[i].hash == h
    ensures forall k :: 0 <= k < i ==> funcs[k].hash != h
  {
    if funcs == [] || funcs[0].hash == h then 0 else 1 + FirstWithHash(funcs[1..], h)
  }

  function FirstAt(funcs: seq<Func>, rva: nat): (i: nat)
    ensures i <= |funcs|
    ensures i < |funcs| ==> funcs[i].rva == rva
    ensures forall k :: 0 <= k < i ==> funcs[k].rva != rva
  {
    if funcs == [] || funcs[0].rva == rva then 0 else 1 + FirstAt(funcs[1..], rva)
  }

  /** The identity's hash is that of exactly one function. */
  predicate HashKeyed(funcs: seq<Func>, id: Identity) {
    id.hash != 0 && CountHash(funcs, id.hash) == 1
  }

  lemma {:induction false} CountFinds(funcs: seq<Func>, h: nat)
    ensures CountHash(funcs, h) > 0 <==> FirstWithHash(funcs, h) < |funcs|
  {
    if funcs == [] {
    } else {
      CountFinds(funcs[1..], h);
    }
  }

  /** The rva an identity binds to, or UNBOUND. */
  function Bind(funcs: seq<Func>, id: Identity): nat {
    if HashKeyed(funcs, id) then
      CountFinds(funcs, id.hash);
      funcs[FirstWithHash(funcs, id.hash)].rva
    else
      var i := FirstAt(funcs, id.rva);
      if i == |funcs| then UNBOUND
      else if id.hash != 0 && funcs[i].hash != 0 && id.hash != funcs[i].hash then UNBOUND
      else id.rva
  }

  predicate OneAtEachPlace(funcs: seq<Func>) {
    forall i, j :: 0 <= i < j < |funcs| ==> funcs[i].rva != funcs[j].rva
  }

  /** A binding is to a function that exists, and never joins two known different hashes. */
  lemma BindsToItsOwn(funcs: seq<Func>, id: Identity)
    requires OneAtEachPlace(funcs) && Bind(funcs, id) != UNBOUND
    ensures exists i :: 0 <= i < |funcs| && funcs[i].rva == Bind(funcs, id)
    ensures forall i :: 0 <= i < |funcs| && funcs[i].rva == Bind(funcs, id) ==>
            id.hash == 0 || funcs[i].hash == 0 || funcs[i].hash == id.hash
  {
    if HashKeyed(funcs, id) {
      CountFinds(funcs, id.hash);
      ghost var k := FirstWithHash(funcs, id.hash);
      assert funcs[k].rva == Bind(funcs, id);
    } else {
      ghost var k := FirstAt(funcs, id.rva);
      assert funcs[k].rva == Bind(funcs, id);
    }
  }

  /** The function at `k` is the only one with this hash. */
  predicate OnlyOne(funcs: seq<Func>, h: nat, k: nat) {
    k < |funcs| && funcs[k].hash == h && forall j :: 0 <= j < |funcs| && j != k ==> funcs[j].hash != h
  }

  lemma {:induction false} CountsOnlyOne(funcs: seq<Func>, h: nat)
    ensures CountHash(funcs, h) == 1 <==> exists k: nat :: OnlyOne(funcs, h, k)
    ensures CountHash(funcs, h) == 0 <==> forall k :: 0 <= k < |funcs| ==> funcs[k].hash != h
  {
    if funcs == [] {
    } else {
      ghost var rest := funcs[1..];
      CountsOnlyOne(rest, h);
      if CountHash(funcs, h) == 1 {
        if funcs[0].hash == h {
          forall j | 0 < j < |funcs| ensures funcs[j].hash != h {
            assert rest[j - 1] == funcs[j];
          }
          assert OnlyOne(funcs, h, 0);
        } else {
          ghost var k: nat :| OnlyOne(rest, h, k);
          forall j | 0 < j < |funcs| && j != k + 1 ensures funcs[j].hash != h {
            assert rest[j - 1] == funcs[j];
          }
          assert OnlyOne(funcs, h, k + 1);
        }
      }
      if k: nat :| OnlyOne(funcs, h, k) {
        if k > 0 {
          assert OnlyOne(rest, h, k - 1);
        }
      }
      if forall k :: 0 <= k < |funcs| ==> funcs[k].hash != h {
        forall k | 0 <= k < |rest| ensures rest[k].hash != h {
          assert rest[k] == funcs[k + 1];
        }
      } else {
        ghost var k :| 0 <= k < |funcs| && funcs[k].hash == h;
        assert k > 0 ==> rest[k - 1] == funcs[k];
      }
    }
  }

  /** The function is at the identity's address, and no two known hashes differ. */
  predicate Agrees(f: Func, id: Identity) {
    f.rva == id.rva && (id.hash == 0 || f.hash == 0 || f.hash == id.hash)
  }

  /**
    A known hash that exactly one function has decides, wherever that function is; else the
    address does, if the function there agrees; else nothing.
  */
  lemma BindsExactly(funcs: seq<Func>, id: Identity)
    requires OneAtEachPlace(funcs)
    ensures forall k: nat :: id.hash != 0 && OnlyOne(funcs, id.hash, k) ==> Bind(funcs, id) == funcs[k].rva
    ensures (id.hash == 0 || forall k: nat :: !OnlyOne(funcs, id.hash, k)) ==>
              Bind(funcs, id) == if exists i :: 0 <= i < |funcs| && Agrees(funcs[i], id) then id.rva else UNBOUND
  {
    CountsOnlyOne(funcs, id.hash);
    CountFinds(funcs, id.hash);
    if !HashKeyed(funcs, id) {
      ghost var i := FirstAt(funcs, id.rva);
      if k :| 0 <= k < |funcs| && Agrees(funcs[k], id) {
        assert i == k;
      }
    }
  }

  /** It is UNBOUND exactly when no hash decides and no function at the address is compatible. */
  lemma UnboundExactly(funcs: seq<Func>, id: Identity)
    requires OneAtEachPlace(funcs) && forall i :: 0 <= i < |funcs| ==> funcs[i].rva < UNBOUND
    ensures Bind(funcs, id) == UNBOUND
            <==> !HashKeyed(funcs, id)
                 && forall i :: 0 <= i < |funcs| && funcs[i].rva == id.rva ==>
                     id.hash != 0 && funcs[i].hash != 0 && funcs[i].hash != id.hash
  {
    if HashKeyed(funcs, id) {
      CountFinds(funcs, id.hash);
    } else {
      ghost var k := FirstAt(funcs, id.rva);
      if k < |funcs| {
        assert funcs[k].rva == id.rva;
      }
    }
  }

  // ---------- one annotation per function ----------

  /** The final bindings: an annotation whose function an earlier one has taken stays unbound. */
  function Bounds(funcs: seq<Func>, ids: seq<Identity>, n: nat): (r: seq<nat>)
    requires n <= |ids|
    ensures |r| == n
  {
    if n == 0 then []
    else
      var before := Bounds(funcs, ids, n - 1);
      var b := Bind(funcs, ids[n - 1]);
      before + [if b in before then UNBOUND else b]
  }

  /** No earlier identity binds to the same place. */
  predicate IsFirst(funcs: seq<Func>, ids: seq<Identity>, i: nat)
    requires i < |ids|
  {
    forall k :: 0 <= k < i ==> Bind(funcs, ids[k]) != Bind(funcs, ids[i])
  }

  /** What has been bound so far is every place some identity binds to. */
  lemma {:induction false} TakenSoFar(funcs: seq<Func>, ids: seq<Identity>, n: nat, b: nat)
    requires n <= |ids| && b != UNBOUND
    ensures b in Bounds(funcs, ids, n) <==> exists k :: 0 <= k < n && Bind(funcs, ids[k]) == b
    decreases n
  {
    hide Bind;
    if n == 0 {
    } else {
      ghost var before, c := Bounds(funcs, ids, n - 1), Bind(funcs, ids[n - 1]);
      TakenSoFar(funcs, ids, n - 1, b);
      assert Bounds(funcs, ids, n) == before + [if c in before then UNBOUND else c];
      hide Bounds;
      if k :| 0 <= k < n && Bind(funcs, ids[k]) == b {
        assert k < n - 1 || c == b;
      }
    }
  }

  /** The first annotation in file order that binds to a function gets it; the others get nothing. */
  lemma {:induction false} FirstWins(funcs: seq<Func>, ids: seq<Identity>, n: nat, i: nat)
    requires i < n <= |ids|
    ensures Bounds(funcs, ids, n)[i] == if IsFirst(funcs, ids, i) then Bind(funcs, ids[i]) else UNBOUND
    decreases n
  {
    hide Bind;
    ghost var b := Bind(funcs, ids[i]);
    if i < n - 1 {
      hide IsFirst;
      FirstWins(funcs, ids, n - 1, i);
    } else if b != UNBOUND {
      TakenSoFar(funcs, ids, i, b);
    }
  }

  /** No two annotations are bound to the same function. */
  lemma NoTwoShare(funcs: seq<Func>, ids: seq<Identity>, i: nat, j: nat)
    requires i < j < |ids|
    ensures var r := Bounds(funcs, ids, |ids|); r[i] == r[j] ==> r[i] == UNBOUND
  {
    hide Bind, Bounds;
    FirstWins(funcs, ids, |ids|, i);
    FirstWins(funcs, ids, |ids|, j);
  }

  // ---------- moving the image ----------

  /** Every function has moved to `g` of where it was and kept its hash. */
  ghost predicate Moved(funcs: seq<Func>, funcs': seq<Func>, g: nat -> nat) {
    |funcs| == |funcs'| && forall i :: 0 <= i < |funcs| ==> funcs'[i] == Func(g(funcs[i].rva), funcs[i].hash)
  }

  lemma {:induction false} MovedCounts(funcs: seq<Func>, funcs': seq<Func>, g: nat -> nat, h: nat)
    requires Moved(funcs, funcs', g)
    ensures CountHash(funcs', h) == CountHash(funcs, h) && FirstWithHash(funcs', h) == FirstWithHash(funcs, h)
  {
    if funcs == [] {
    } else {
      assert funcs'[0] == Func(g(funcs[0].rva), funcs[0].hash);
      assert forall i :: 0 <= i < |funcs| - 1 ==> funcs'[1..][i] == funcs'[i + 1] && funcs[1..][i] == funcs[i + 1];
      MovedCounts(funcs[1..], funcs'[1..], g, h);
    }
  }

  /** A binding decided by hash moves with its function, wherever the functions go. */
  lemma HashBindingMoves(funcs: seq<Func>, funcs': seq<Func>, g: nat -> nat, id: Identity)
    requires Moved(funcs, funcs', g) && HashKeyed(funcs, id)
    ensures HashKeyed(funcs', id) && Bind(funcs', id) == g(Bind(funcs, id))
  {
    MovedCounts(funcs, funcs', g, id.hash);
    CountFinds(funcs, id.hash);
    CountFinds(funcs', id.hash);
  }

  /**
    After ownership, too: a hash-keyed annotation that owned its function owns it after the
    move if and only if no earlier annotation now lands on the function's new place; and
    only one that goes by its address can.
  */
  lemma OwnerMoves(funcs: seq<Func>, funcs': seq<Func>, g: nat -> nat, ids: seq<Identity>, i: nat)
    requires Moved(funcs, funcs', g) && i < |ids| && HashKeyed(funcs, ids[i])
    requires forall x: nat, y: nat :: g(x) == g(y) ==> x == y
    requires var b := Bounds(funcs, ids, |ids|)[i]; b != UNBOUND && g(b) != UNBOUND
    ensures var b := Bounds(funcs, ids, |ids|)[i];
            Bounds(funcs', ids, |ids|)[i] == g(b)
            <==> forall k :: 0 <= k < i && !HashKeyed(funcs, ids[k]) ==> Bind(funcs', ids[k]) != g(b)
  {
    hide Bind, Bounds, HashKeyed;
    FirstWins(funcs, ids, |ids|, i);
    FirstWins(funcs', ids, |ids|, i);
    HashBindingMoves(funcs, funcs', g, ids[i]);
    ghost var b := Bounds(funcs, ids, |ids|)[i];
    assert b == Bind(funcs, ids[i]);
    forall k | 0 <= k < i && HashKeyed(funcs, ids[k]) ensures Bind(funcs', ids[k]) != g(b) {
      HashBindingMoves(funcs, funcs', g, ids[k]);
    }
  }

  /** An annotation without a hash, recorded at the new place, can take a moved function from its owner. */
  lemma AddressCanTakeOver(h: nat, old_: nat, new_: nat)
    requires h != 0 && old_ != new_ && old_ != UNBOUND && new_ != UNBOUND
    ensures var ids := [Identity(0, new_), Identity(h, old_)];
            && Bounds([Func(old_, h)], ids, 2) == [UNBOUND, old_]
            && Bounds([Func(new_, h)], ids, 2) == [new_, UNBOUND]
  {
    ghost var ids := [Identity(0, new_), Identity(h, old_)];
    BindOne(Func(old_, h), ids[0]);
    BindOne(Func(old_, h), ids[1]);
    BindOne(Func(new_, h), ids[0]);
    BindOne(Func(new_, h), ids[1]);
    hide Bind;
    forall fs: seq<Func> ensures Bounds(fs, ids, 2)
        == [Bind(fs, ids[0]), if Bind(fs, ids[1]) == Bind(fs, ids[0]) then UNBOUND else Bind(fs, ids[1])] {
      assert Bounds(fs, ids, 0) == [];
      assert Bounds(fs, ids, 1) == [Bind(fs, ids[0])];
    }
  }

  lemma BindOne(f: Func, id: Identity)
    ensures Bind([f], id) == (if id.hash != 0 && f.hash == id.hash then f.rva
                              else if f.rva != id.rva || (id.hash != 0 && f.hash != 0) then UNBOUND else id.rva)
  {
    assert [f][1..] == [];
    assert CountHash([f], id.hash) == if f.hash == id.hash then 1 else 0;
  }

  // ---------- the loops of ds_anno_resolve ----------

  /** The hash tables: how many functions have each hash, and the first that does. */
  method HashTables(funcs: seq<Func>) returns (hcount: map<nat, nat>, hfirst: map<nat, nat>)
    ensures forall h :: h != 0 ==> (if h in hcount then hcount[h] else 0) == CountHash(funcs, h)
    ensures forall h :: h in hcount && h != 0 ==> h in hfirst && hfirst[h] == FirstWithHash(funcs, h)
  {
    hcount, hfirst := map[], map[];
    var i := 0;
    while i < |funcs|
      invariant 0 <= i <= |funcs|
      invariant 0 !in hcount
      invariant forall h :: h != 0 ==> (if h in hcount then hcount[h] else 0) == CountHash(funcs[..i], h)
      invariant forall h :: h in hcount ==> h in hfirst && hcount[h] > 0 && hfirst[h] == FirstWithHash(funcs, h) < i
    {
      var h := funcs[i].hash;
      forall x ensures CountHash(funcs[..i + 1], x) == CountHash(funcs[..i], x) + if h == x then 1 else 0 {
        CountSnoc(funcs, i, x);
      }
      if h != 0 {
        var before := if h in hcount then hcount[h] else 0;
        if before == 0 {
          hfirst := hfirst[h := i];
          NoneBefore(funcs, i, h);
        }
        hcount := hcount[h := before + 1];
      }
      i := i + 1;
    }
    assert funcs[..i] == funcs;
  }

  lemma {:induction false} CountSnoc(funcs: seq<Func>, i: nat, h: nat)
    requires i < |funcs|
    ensures CountHash(funcs[..i + 1], h) == CountHash(funcs[..i], h) + if funcs[i].hash == h then 1 else 0
  {
    if i == 0 {
    } else {
      CountSnoc(funcs[1..], i - 1, h);
      assert funcs[..i + 1][1..] == funcs[1..][..i] && funcs[..i][1..] == funcs[1..][..i - 1];
    }
  }

  lemma NoneBefore(funcs: seq<Func>, i: nat, h: nat)
    requires i < |funcs| && funcs[i].hash == h && CountHash(funcs[..i], h) == 0
    ensures FirstWithHash(funcs, h) == i
  {
    CountFinds(funcs[..i], h);
    assert forall k :: 0 <= k < i ==> funcs[..i][k].hash != h;
  }

  /** One identity bound with the tables at hand. */
  method BindOneIdentity(funcs: seq<Func>, hcount: map<nat, nat>, hfirst: map<nat, nat>, id: Identity) returns (b: nat)
    requires forall h :: h != 0 ==> (if h in hcount then hcount[h] else 0) == CountHash(funcs, h)
    requires forall h :: h in hcount && h != 0 ==> h in hfirst && hfirst[h] == FirstWithHash(funcs, h)
    ensures b == Bind(funcs, id)
  {
    CountFinds(funcs, id.hash);
    if id.hash != 0 {
      if id.hash in hcount && hcount[id.hash] == 1 {
        return funcs[hfirst[id.hash]].rva;
      }
    }
    var i := 0;
    while i < |funcs|
      invariant 0 <= i <= |funcs| && forall k :: 0 <= k < i ==> funcs[k].rva != id.rva
    {
      if funcs[i].rva == id.rva {
        if id.hash != 0 && funcs[i].hash != 0 && id.hash != funcs[i].hash {
          return UNBOUND;
        }
        return id.rva;
      }
      i := i + 1;
    }
    return UNBOUND;
  }

  /** The annotations in file order, with the functions taken so far. */
  method Resolve(funcs: seq<Func>, ids: seq<Identity>) returns (bounds: seq<nat>)
    ensures bounds == Bounds(funcs, ids, |ids|)
  {
    var hcount, hfirst := HashTables(funcs);
    hide Bind, HashKeyed;
    var owner: map<nat, nat> := map[];
    bounds := [];
    var i := 0;
    while i < |ids|
      invariant 0 <= i <= |ids| && bounds == Bounds(funcs, ids, i)
      invariant forall b :: b in owner <==> b in bounds && b != UNBOUND
    {
      var b := BindOneIdentity(funcs, hcount, hfirst, ids[i]);
      if b != UNBOUND {
        if b in owner {
          b := UNBOUND;
        } else {
          owner := owner[b := i];
        }
      }
      bounds := bounds + [b];
      i := i + 1;
    }
  }

  /** Variables are many to a function: each is bound on its own. */
  method ResolveVars(funcs: seq<Func>, ids: seq<Identity>) returns (bounds: seq<nat>)
    ensures |bounds| == |ids| && forall i :: 0 <= i < |ids| ==> bounds[i] == Bind(funcs, ids[i])
  {
    var hcount, hfirst := HashTables(funcs);
    hide Bind, HashKeyed;
    bounds := [];
    var i := 0;
    while i < |ids|
      invariant 0 <= i <= |ids| && |bounds| == i && forall k :: 0 <= k < i ==> bounds[k] == Bind(funcs, ids[k])
    {
      var b := BindOneIdentity(funcs, hcount, hfirst, ids[i]);
      bounds := bounds + [b];
      i := i + 1;
    }
  }
}
