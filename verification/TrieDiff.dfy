/** The diff of a snapshot against the live state, as a patch: insertions, updates, deletions. */
module TrieDiff {
  import opened Common
  import opened CanonicalJson
  import opened VersionedStore

  datatype Field = Field(name: string, value: Json)

  /** One object of a snapshot: its `object_id`, if that is a string, and its other members in the
      order in which one pass over the Go map meets them. */
  datatype Item = Item(objectId: Option<string>, fields: seq<Field>)

  /** A key hash and the value hash a snapshot gives it. */
  datatype Pair = Pair(key: Digest, value: Digest)

  predicate HasId(item: Item) {
    item.objectId.Some? && item.objectId.value != ""
  }

  /** The fields of an object that can be hashed; the others are skipped with a warning. */
  ghost function FieldPairs(h: Hash, objectId: string, fields: seq<Field>): seq<Pair> {
    if fields == [] then []
    else
      var front, f := FieldPairs(h, objectId, fields[..|fields| - 1]), fields[|fields| - 1];
      match ValueHash(h, f.value)
      case None => front
      case Some(v) => front + [Pair(KeyHash(h, objectId, f.name), v)]
  }

  ghost function ItemPairs(h: Hash, item: Item): seq<Pair> {
    if HasId(item) then FieldPairs(h, item.objectId.value, item.fields) else []
  }

  /** Every key and value of a snapshot, in the order one pass meets them. */
  ghost function Pairs(h: Hash, items: seq<Item>): seq<Pair> {
    if items == [] then [] else Pairs(h, items[..|items| - 1]) + ItemPairs(h, items[|items| - 1])
  }

  /** The pairs of a snapshot, told without the passes: one for every member, that can be hashed, of an
      object with a non-empty id. */
  ghost predicate FromMember(h: Hash, item: Item, f: Field, p: Pair) {
    && item.objectId.Some? && item.objectId.value != "" && f in item.fields
    && Canonical(f.value).Some?
    && p == Pair(h(item.objectId.value + ":" + f.name), h(Canonical(f.value).value))
  }

  lemma {:induction false} FieldPairsAreMembers(h: Hash, id: string, fields: seq<Field>, p: Pair)
    requires id != ""
    ensures p in FieldPairs(h, id, fields) <==> exists f :: FromMember(h, Item(Some(id), fields), f, p)
  {
    if fields != [] {
      var front, last := fields[..|fields| - 1], fields[|fields| - 1];
      var item, shorter := Item(Some(id), fields), Item(Some(id), front);
      FieldPairsAreMembers(h, id, front, p);
      assert fields == front + [last];
      if f :| FromMember(h, shorter, f, p) {
        assert FromMember(h, item, f, p);
      }
      if f :| FromMember(h, item, f, p) && f != last {
        assert FromMember(h, shorter, f, p);
      }
      assert p in FieldPairs(h, id, fields) <==> p in FieldPairs(h, id, front) || FromMember(h, item, last, p);
    }
  }

  lemma {:induction false} PairsAreMembers(h: Hash, items: seq<Item>, p: Pair)
    ensures p in Pairs(h, items) <==> exists item, f :: item in items && FromMember(h, item, f, p)
  {
    if items != [] {
      var front, last := items[..|items| - 1], items[|items| - 1];
      PairsAreMembers(h, front, p);
      assert items == front + [last];
      if HasId(last) {
        FieldPairsAreMembers(h, last.objectId.value, last.fields, p);
        assert last == Item(Some(last.objectId.value), last.fields);
      }
    }
  }

  /** The state a snapshot describes; of equal keys the last one counts. */
  function SetAll(m: map<Digest, Digest>, ps: seq<Pair>): map<Digest, Digest> {
    if ps == [] then m
    else SetAll(m, ps[..|ps| - 1])[ps[|ps| - 1].key := ps[|ps| - 1].value]
  }

  function SnapshotOf(ps: seq<Pair>): map<Digest, Digest> {
    SetAll(map[], ps)
  }

  function RemoveAll(m: map<Digest, Digest>, ks: seq<Digest>): map<Digest, Digest> {
    if ks == [] then m else RemoveAll(m, ks[..|ks| - 1]) - {ks[|ks| - 1]}
  }

  /** applyTrieOperations as a function. */
  function Patch(m: map<Digest, Digest>, ins: seq<Pair>, upd: seq<Pair>, dels: seq<Digest>): map<Digest, Digest> {
    RemoveAll(SetAll(SetAll(m, ins), upd), dels)
  }

  function KeySet(ps: seq<Pair>): set<Digest> {
    set i | 0 <= i < |ps| :: ps[i].key
  }

  function Insertions(ps: seq<Pair>, current: map<Digest, Digest>): seq<Pair> {
    if ps == [] then []
    else
      var front, p := Insertions(ps[..|ps| - 1], current), ps[|ps| - 1];
      if p.key !in current then front + [p] else front
  }

  function Updates(ps: seq<Pair>, current: map<Digest, Digest>): seq<Pair> {
    if ps == [] then []
    else
      var front, p := Updates(ps[..|ps| - 1], current), ps[|ps| - 1];
      if p.key in current && current[p.key] != p.value then front + [p] else front
  }

  ghost predicate Distinct<T>(s: seq<T>) {
    forall i, j :: 0 <= i < j < |s| ==> s[i] != s[j]
  }

  ghost predicate DistinctKeys(ps: seq<Pair>) {
    forall i, j :: 0 <= i < j < |ps| ==> ps[i].key != ps[j].key
  }

  /** `s` lists the elements of a set, each once, in some order. */
  ghost predicate Lists<T(!new)>(s: seq<T>, xs: set<T>) {
    Distinct(s) && forall x :: x in s <==> x in xs
  }

  // ---- Looking a key up ----

  /** The value the last pair of a key gives it. */
  function LastValue(ps: seq<Pair>, k: Digest): Option<Digest> {
    if ps == [] then None
    else if ps[|ps| - 1].key == k then Some(ps[|ps| - 1].value)
    else LastValue(ps[..|ps| - 1], k)
  }

  lemma {:induction false} SetAllLookup(m: map<Digest, Digest>, ps: seq<Pair>, k: Digest)
    ensures Lookup(SetAll(m, ps), k) == if LastValue(ps, k).Some? then LastValue(ps, k) else Lookup(m, k)
  {
    if ps != [] {
      SetAllLookup(m, ps[..|ps| - 1], k);
    }
  }

  lemma {:induction false} RemoveAllLookup(m: map<Digest, Digest>, ks: seq<Digest>, k: Digest)
    ensures Lookup(RemoveAll(m, ks), k) == if k in ks then None else Lookup(m, k)
  {
    if ks != [] {
      RemoveAllLookup(m, ks[..|ks| - 1], k);
      assert ks == ks[..|ks| - 1] + [ks[|ks| - 1]];
    }
  }

  lemma {:induction false} LastValueFound(ps: seq<Pair>, k: Digest)
    ensures LastValue(ps, k).Some? <==> k in KeySet(ps)
    ensures LastValue(ps, k).Some? ==> Pair(k, LastValue(ps, k).value) in ps
  {
    if ps != [] {
      var front, p := ps[..|ps| - 1], ps[|ps| - 1];
      LastValueFound(front, k);
      assert ps == front + [p];
      assert forall i :: 0 <= i < |front| ==> front[i] == ps[i];
      if k in KeySet(ps) && p.key != k {
        var i :| 0 <= i < |ps| && ps[i].key == k;
        assert front[i].key == k;
      }
      if k in KeySet(front) {
        var i :| 0 <= i < |front| && front[i].key == k;
        assert ps[i].key == k;
      }
      assert ps[|ps| - 1].key in KeySet(ps);
    }
  }

  lemma {:induction false} InsertionsLookup(ps: seq<Pair>, current: map<Digest, Digest>, k: Digest)
    ensures LastValue(Insertions(ps, current), k) == if k in current then None else LastValue(ps, k)
  {
    if ps != [] {
      var front, p := ps[..|ps| - 1], ps[|ps| - 1];
      InsertionsLookup(front, current, k);
      LastOfSnoc(Insertions(front, current), p, k);
    }
  }

  lemma LastOfSnoc(ps: seq<Pair>, p: Pair, k: Digest)
    ensures LastValue(ps + [p], k) == if p.key == k then Some(p.value) else LastValue(ps, k)
  {
    assert (ps + [p])[..|ps|] == ps;
  }

  /** The last value of a live key that differs from the current one. */
  function LastChange(ps: seq<Pair>, k: Digest, now: Digest): Option<Digest> {
    if ps == [] then None
    else if ps[|ps| - 1].key == k && ps[|ps| - 1].value != now then Some(ps[|ps| - 1].value)
    else LastChange(ps[..|ps| - 1], k, now)
  }

  lemma {:induction false} UpdatesLookup(ps: seq<Pair>, current: map<Digest, Digest>, k: Digest)
    ensures LastValue(Updates(ps, current), k) == if k in current then LastChange(ps, k, current[k]) else None
  {
    if ps != [] {
      var front, p := ps[..|ps| - 1], ps[|ps| - 1];
      UpdatesLookup(front, current, k);
      LastOfSnoc(Updates(front, current), p, k);
    }
  }

  // ---- When the patch is right ----

  /** A live key listed with a new value first and with its current value last: the diff keeps the
      update and drops the reversion. */
  ghost predicate RevertsLate(ps: seq<Pair>, current: map<Digest, Digest>) {
    exists p :: p in ps && p.key in current && p.value != current[p.key]
                && LastValue(ps, p.key) == Some(current[p.key])
  }

  lemma {:induction false} LastChangeFound(ps: seq<Pair>, k: Digest, now: Digest)
    ensures LastChange(ps, k, now).Some? ==>
              Pair(k, LastChange(ps, k, now).value) in ps && LastChange(ps, k, now).value != now
    ensures LastChange(ps, k, now).None? ==> forall p :: p in ps && p.key == k ==> p.value == now
    ensures LastValue(ps, k).Some? && LastValue(ps, k).value != now ==> LastChange(ps, k, now) == LastValue(ps, k)
  {
    if ps != [] {
      var front, p := ps[..|ps| - 1], ps[|ps| - 1];
      LastChangeFound(front, k, now);
      assert ps == front + [p];
    }
  }

  /** What the patched state says of a key. */
  lemma PatchLookup(ps: seq<Pair>, current: map<Digest, Digest>, dels: seq<Digest>, k: Digest)
    requires Lists(dels, current.Keys - KeySet(ps))
    ensures var patched := Patch(current, Insertions(ps, current), Updates(ps, current), dels);
            Lookup(patched, k) ==
            if k !in KeySet(ps) then None
            else if k !in current then LastValue(ps, k)
            else if LastChange(ps, k, current[k]).Some? then LastChange(ps, k, current[k])
            else Some(current[k])
  {
    var ins, upd := Insertions(ps, current), Updates(ps, current);
    SetAllLookup(current, ins, k);
    SetAllLookup(SetAll(current, ins), upd, k);
    RemoveAllLookup(SetAll(SetAll(current, ins), upd), dels, k);
    InsertionsLookup(ps, current, k);
    UpdatesLookup(ps, current, k);
    LastValueFound(ps, k);
    if k in current {
      LastChangeFound(ps, k, current[k]);
      if k !in KeySet(ps) {
        assert k in dels;
      } else {
        assert k !in dels;
      }
    } else {
      assert k !in dels;
    }
  }

  /** The diff patches the live state to the snapshot exactly when no live key reverts late. */
  lemma PatchReachesSnapshot(ps: seq<Pair>, current: map<Digest, Digest>, dels: seq<Digest>)
    requires Lists(dels, current.Keys - KeySet(ps))
    ensures Patch(current, Insertions(ps, current), Updates(ps, current), dels) == SnapshotOf(ps)
            <==> !RevertsLate(ps, current)
  {
    var patched := Patch(current, Insertions(ps, current), Updates(ps, current), dels);
    if !RevertsLate(ps, current) {
      forall k ensures Lookup(patched, k) == Lookup(SnapshotOf(ps), k) {
        PatchLookup(ps, current, dels, k);
        SetAllLookup(map[], ps, k);
        LastValueFound(ps, k);
        if k in current && k in KeySet(ps) {
          LastChangeFound(ps, k, current[k]);
        }
      }
      EqualLookups(patched, SnapshotOf(ps));
    }
    if patched == SnapshotOf(ps) && RevertsLate(ps, current) {
      var p :| p in ps && p.key in current && p.value != current[p.key]
               && LastValue(ps, p.key) == Some(current[p.key]);
      PatchLookup(ps, current, dels, p.key);
      SetAllLookup(map[], ps, p.key);
      LastValueFound(ps, p.key);
      LastChangeFound(ps, p.key, current[p.key]);
      assert false;
    }
  }

  /** Distinct key hashes leave no room for a reversion. */
  lemma DistinctNeverReverts(ps: seq<Pair>, current: map<Digest, Digest>)
    requires DistinctKeys(ps)
    ensures !RevertsLate(ps, current)
  {
    forall p | p in ps ensures LastValue(ps, p.key) == Some(p.value) {
      DistinctLastValue(ps, p);
    }
  }

  lemma {:induction false} DistinctLastValue(ps: seq<Pair>, p: Pair)
    requires DistinctKeys(ps) && p in ps
    ensures LastValue(ps, p.key) == Some(p.value)
  {
    LastValueFound(ps, p.key);
    var i :| 0 <= i < |ps| && ps[i] == p;
    var q := Pair(p.key, LastValue(ps, p.key).value);
    assert ps[i].key in KeySet(ps);
    var j :| 0 <= j < |ps| && ps[j] == q;
    assert i == j;
  }

  /** The late reversion happens: key `k` is at `v`, and the snapshot lists `w` and then `v` for it. */
  lemma LateReversionExample(k: Digest, v: Digest, w: Digest)
    requires v != w
    ensures var ps, current := [Pair(k, w), Pair(k, v)], map[k := v];
            && RevertsLate(ps, current)
            && Lookup(SnapshotOf(ps), k) == Some(v)
            && Lookup(Patch(current, Insertions(ps, current), Updates(ps, current), []), k) == Some(w)
  {
    var ps, current := [Pair(k, w), Pair(k, v)], map[k := v];
    var dels: seq<Digest> := [];
    assert ps[0] in ps && ps[1].key in KeySet(ps);
    assert Lists(dels, current.Keys - KeySet(ps));
    PatchLookup(ps, current, dels, k);
    SetAllLookup(map[], ps, k);
    assert LastChange(ps, k, v) == LastChange(ps[..1], k, v) == Some(w);
  }

  /** Two objects whose key hashes collide: "a:b" with "c", and "a" with "b:c". */
  function CollidingItems(): seq<Item> {
    [Item(Some("a:b"), [Field("c", JBool(true))]), Item(Some("a"), [Field("b:c", JBool(false))])]
  }

  /** A snapshot of two objects with colliding keys, over a state that holds the second one's value:
      the update to the first one's value is published and the reversion is lost. */
  lemma CollidingSnapshotReverts(h: Hash)
    requires h("true") != h("false")
    ensures var k, ps := h("a:b:c"), Pairs(h, CollidingItems());
            var current := map[k := h("false")];
            && RevertsLate(ps, current)
            && Lookup(SnapshotOf(ps), k) == Some(h("false"))
            && Lookup(Patch(current, Insertions(ps, current), Updates(ps, current), []), k) == Some(h("true"))
  {
    CollidingPairs(h);
    LateReversionExample(h("a:b:c"), h("false"), h("true"));
  }

  lemma CollidingPairs(h: Hash)
    ensures Pairs(h, CollidingItems()) == [Pair(h("a:b:c"), h("true")), Pair(h("a:b:c"), h("false"))]
  {
    var items := CollidingItems();
    assert "a:b" + ":" + "c" == "a:b:c" && "a" + ":" + "b:c" == "a:b:c";
    OneFieldPairs(h, "a:b", items[0].fields, h("true"));
    OneFieldPairs(h, "a", items[1].fields, h("false"));
    assert items[..1][..0] == [] && items[..1] == [items[0]];
  }

  lemma OneFieldPairs(h: Hash, id: string, fields: seq<Field>, v: Digest)
    requires |fields| == 1 && ValueHash(h, fields[0].value) == Some(v)
    ensures FieldPairs(h, id, fields) == [Pair(KeyHash(h, id, fields[0].name), v)]
  {
    assert fields[..0] == [];
  }

  // ---- Minimality ----

  /** The keys on which two states differ. */
  function Differing(a: map<Digest, Digest>, b: map<Digest, Digest>): set<Digest> {
    set k | k in a.Keys + b.Keys && Lookup(a, k) != Lookup(b, k)
  }

  lemma {:induction false} InsertionMembers(ps: seq<Pair>, current: map<Digest, Digest>)
    ensures forall p :: p in Insertions(ps, current) <==> p in ps && p.key !in current
  {
    if ps != [] {
      assert ps == ps[..|ps| - 1] + [ps[|ps| - 1]];
      InsertionMembers(ps[..|ps| - 1], current);
    }
  }

  lemma {:induction false} UpdateMembers(ps: seq<Pair>, current: map<Digest, Digest>)
    ensures forall p :: p in Updates(ps, current) <==> p in ps && p.key in current && current[p.key] != p.value
  {
    if ps != [] {
      assert ps == ps[..|ps| - 1] + [ps[|ps| - 1]];
      UpdateMembers(ps[..|ps| - 1], current);
    }
  }

  lemma {:induction false} FilteredKeys(ps: seq<Pair>, current: map<Digest, Digest>)
    requires DistinctKeys(ps)
    ensures DistinctKeys(Insertions(ps, current)) && DistinctKeys(Updates(ps, current))
  {
    if ps != [] {
      var front, p := ps[..|ps| - 1], ps[|ps| - 1];
      FilteredKeys(front, current);
      InsertionMembers(front, current);
      UpdateMembers(front, current);
      forall q | q in front ensures q.key != p.key {
        var i :| 0 <= i < |front| && front[i] == q;
        assert ps[i] == q;
      }
      DistinctSnoc(Insertions(front, current), p);
      DistinctSnoc(Updates(front, current), p);
    }
  }

  lemma DistinctSnoc(ps: seq<Pair>, p: Pair)
    requires DistinctKeys(ps)
    ensures (forall q :: q in ps ==> q.key != p.key) ==> DistinctKeys(ps + [p])
  {
    if forall q :: q in ps ==> q.key != p.key {
      forall i, j | 0 <= i < j < |ps + [p]| ensures (ps + [p])[i].key != (ps + [p])[j].key {
        assert i < |ps| ==> ps[i] in ps;
      }
    }
  }

  lemma {:induction false} DistinctCount(ps: seq<Pair>)
    requires DistinctKeys(ps)
    ensures |KeySet(ps)| == |ps|
  {
    if ps != [] {
      var n := |ps| - 1;
      DistinctCount(ps[..n]);
      KeySetSnoc(ps[..n], ps[n]);
      assert ps == ps[..n] + [ps[n]];
      NewKey(ps, n);
    }
  }

  lemma NewKey(ps: seq<Pair>, n: nat)
    requires DistinctKeys(ps) && n < |ps|
    ensures ps[n].key !in KeySet(ps[..n])
  {
  }

  lemma KeySetSnoc(ps: seq<Pair>, p: Pair)
    ensures KeySet(ps + [p]) == KeySet(ps) + {p.key}
  {
    var all := ps + [p];
    assert forall i :: 0 <= i < |ps| ==> all[i] == ps[i];
    assert all[|ps|] == p;
    forall k | k in KeySet(all) ensures k in KeySet(ps) + {p.key} {
      var i :| 0 <= i < |all| && all[i].key == k;
      if i < |ps| { assert ps[i].key == k; }
    }
    forall k | k in KeySet(ps) + {p.key} ensures k in KeySet(all) {
      if k in KeySet(ps) {
        var i :| 0 <= i < |ps| && ps[i].key == k;
        assert all[i].key == k;
      } else {
        assert all[|ps|].key == k;
      }
    }
  }

  lemma {:induction false} ListCount<T(!new)>(s: seq<T>, xs: set<T>)
    requires Lists(s, xs)
    ensures |s| == |xs|
  {
    if s == [] {
      assert xs == {} by {
        assert forall x :: x in xs ==> x in s;
      }
    } else {
      var n := |s| - 1;
      assert s == s[..n] + [s[n]];
      assert Lists(s[..n], xs - {s[n]});
      ListCount(s[..n], xs - {s[n]});
    }
  }

  /** The diff is minimal: its three key sets are disjoint and together are exactly the keys on which
      the live state and the snapshot differ, each named once. */
  lemma DiffIsMinimal(ps: seq<Pair>, current: map<Digest, Digest>, dels: seq<Digest>)
    requires DistinctKeys(ps) && Lists(dels, current.Keys - KeySet(ps))
    ensures var ins, upd := Insertions(ps, current), Updates(ps, current);
            var gone := current.Keys - KeySet(ps);
            && DistinctKeys(ins) && DistinctKeys(upd) && Distinct(dels)
            && KeySet(ins) !! KeySet(upd) && KeySet(ins) !! gone && KeySet(upd) !! gone
            && KeySet(ins) + KeySet(upd) + gone == Differing(current, SnapshotOf(ps))
            && |ins| + |upd| + |dels| == |Differing(current, SnapshotOf(ps))|
  {
    var ins, upd := Insertions(ps, current), Updates(ps, current);
    FilteredKeys(ps, current);
    DiffKeySets(ps, current);
    DistinctCount(ins);
    DistinctCount(upd);
    ListCount(dels, current.Keys - KeySet(ps));
  }

  lemma DiffKeySets(ps: seq<Pair>, current: map<Digest, Digest>)
    requires DistinctKeys(ps)
    ensures var a, b := KeySet(Insertions(ps, current)), KeySet(Updates(ps, current));
            var gone := current.Keys - KeySet(ps);
            a !! b && a !! gone && b !! gone && a + b + gone == Differing(current, SnapshotOf(ps))
  {
    forall k
      ensures k in KeySet(Insertions(ps, current)) <==> k in KeySet(ps) && k !in current
      ensures k in KeySet(Updates(ps, current)) <==>
                k in KeySet(ps) && k in current && Lookup(SnapshotOf(ps), k) != Some(current[k])
      ensures k in SnapshotOf(ps) <==> k in KeySet(ps)
    {
      DiffKeys(ps, current, k);
    }
  }

  /** In which of the lists a key stands. */
  lemma DiffKeys(ps: seq<Pair>, current: map<Digest, Digest>, k: Digest)
    requires DistinctKeys(ps)
    ensures k in KeySet(Insertions(ps, current)) <==> k in KeySet(ps) && k !in current
    ensures k in KeySet(Updates(ps, current)) <==>
              k in KeySet(ps) && k in current && Lookup(SnapshotOf(ps), k) != Some(current[k])
    ensures k in SnapshotOf(ps) <==> k in KeySet(ps)
  {
    var ins, upd := Insertions(ps, current), Updates(ps, current);
    SetAllLookup(map[], ps, k);
    LastValueFound(ps, k);
    LastValueFound(ins, k);
    InsertionsLookup(ps, current, k);
    LastValueFound(upd, k);
    UpdatesLookup(ps, current, k);
    if k in current && k in KeySet(ps) {
      var p := Pair(k, LastValue(ps, k).value);
      LastChangeFound(ps, k, current[k]);
      if LastChange(ps, k, current[k]).Some? {
        DistinctLastValue(ps, Pair(k, LastChange(ps, k, current[k]).value));
      }
    }
  }

  lemma PairInKeySet(ps: seq<Pair>, p: Pair)
    requires p in ps
    ensures p.key in KeySet(ps)
  {
    var i :| 0 <= i < |ps| && ps[i] == p;
  }

  // ---- Order independence ----

  /** One change of the patch. */
  datatype Edit = Put(key: Digest, value: Digest) | Drop(key: Digest)

  function ApplyEdit(m: map<Digest, Digest>, e: Edit): map<Digest, Digest> {
    match e
    case Put(k, v) => m[k := v]
    case Drop(k) => m - {k}
  }

  function ApplyEdits(m: map<Digest, Digest>, es: seq<Edit>): map<Digest, Digest> {
    if es == [] then m else ApplyEdit(ApplyEdits(m, es[..|es| - 1]), es[|es| - 1])
  }

  ghost predicate DistinctEdits(es: seq<Edit>) {
    forall i, j :: 0 <= i < j < |es| ==> es[i].key != es[j].key
  }

  lemma {:induction false} EditLookup(m: map<Digest, Digest>, es: seq<Edit>, e: Edit)
    requires DistinctEdits(es) && e in es
    ensures Lookup(ApplyEdits(m, es), e.key) == if e.Put? then Some(e.value) else None
  {
    var front, last := es[..|es| - 1], es[|es| - 1];
    assert es == front + [last];
    if e != last {
      assert e in front;
      var i :| 0 <= i < |front| && front[i] == e;
      assert es[i] == e;
      EditLookup(m, front, e);
    }
  }

  lemma {:induction false} NoEditLookup(m: map<Digest, Digest>, es: seq<Edit>, k: Digest)
    requires forall e :: e in es ==> e.key != k
    ensures Lookup(ApplyEdits(m, es), k) == Lookup(m, k)
  {
    if es != [] {
      assert es == es[..|es| - 1] + [es[|es| - 1]];
      NoEditLookup(m, es[..|es| - 1], k);
    }
  }

  /** Edits with distinct keys give the same state in every order. */
  lemma EditOrderIrrelevant(m: map<Digest, Digest>, a: seq<Edit>, b: seq<Edit>)
    requires multiset(a) == multiset(b) && DistinctEdits(a) && DistinctEdits(b)
    ensures ApplyEdits(m, a) == ApplyEdits(m, b)
  {
    forall e ensures e in a <==> e in b {
      assert e in a <==> e in multiset(a);
      assert e in b <==> e in multiset(b);
    }
    forall k ensures Lookup(ApplyEdits(m, a), k) == Lookup(ApplyEdits(m, b), k) {
      if exists e :: e in a && e.key == k {
        var e :| e in a && e.key == k;
        EditLookup(m, a, e);
        EditLookup(m, b, e);
      } else {
        NoEditLookup(m, a, k);
        NoEditLookup(m, b, k);
      }
    }
    EqualLookups(ApplyEdits(m, a), ApplyEdits(m, b));
  }

  function Puts(ps: seq<Pair>): seq<Edit> {
    seq(|ps|, i requires 0 <= i < |ps| => Put(ps[i].key, ps[i].value))
  }

  function Drops(ks: seq<Digest>): seq<Edit> {
    seq(|ks|, i requires 0 <= i < |ks| => Drop(ks[i]))
  }

  lemma {:induction false} ApplyPuts(m: map<Digest, Digest>, es: seq<Edit>, ps: seq<Pair>)
    ensures ApplyEdits(m, es + Puts(ps)) == SetAll(ApplyEdits(m, es), ps)
  {
    if ps == [] {
      assert es + Puts(ps) == es;
    } else {
      var n := |ps| - 1;
      assert (es + Puts(ps))[..|es| + n] == es + Puts(ps[..n]);
      ApplyPuts(m, es, ps[..n]);
    }
  }

  lemma {:induction false} ApplyDrops(m: map<Digest, Digest>, es: seq<Edit>, ks: seq<Digest>)
    ensures ApplyEdits(m, es + Drops(ks)) == RemoveAll(ApplyEdits(m, es), ks)
  {
    if ks == [] {
      assert es + Drops(ks) == es;
    } else {
      var n := |ks| - 1;
      assert (es + Drops(ks))[..|es| + n] == es + Drops(ks[..n]);
      ApplyDrops(m, es, ks[..n]);
    }
  }

  /** Whatever order a patch's changes are made in, they give the patched state. */
  lemma PatchInAnyOrder(ps: seq<Pair>, current: map<Digest, Digest>, dels: seq<Digest>, order: seq<Edit>)
    requires DistinctKeys(ps) && Lists(dels, current.Keys - KeySet(ps))
    requires DistinctEdits(order)
    requires multiset(order) == multiset(Puts(Insertions(ps, current)) + Puts(Updates(ps, current)) + Drops(dels))
    ensures ApplyEdits(current, order) == SnapshotOf(ps)
  {
    var ins, upd := Insertions(ps, current), Updates(ps, current);
    var edits := Puts(ins) + Puts(upd) + Drops(dels);
    assert [] + Puts(ins) == Puts(ins);
    ApplyPuts(current, [], ins);
    ApplyPuts(current, Puts(ins), upd);
    ApplyDrops(current, Puts(ins) + Puts(upd), dels);
    PatchIsDistinct(ps, current, dels);
    EditOrderIrrelevant(current, order, edits);
    DistinctNeverReverts(ps, current);
    PatchReachesSnapshot(ps, current, dels);
  }

  lemma PatchIsDistinct(ps: seq<Pair>, current: map<Digest, Digest>, dels: seq<Digest>)
    requires DistinctKeys(ps) && Lists(dels, current.Keys - KeySet(ps))
    ensures DistinctEdits(Puts(Insertions(ps, current)) + Puts(Updates(ps, current)) + Drops(dels))
  {
    var ins, upd := Insertions(ps, current), Updates(ps, current);
    FilteredKeys(ps, current);
    InsertionMembers(ps, current);
    UpdateMembers(ps, current);
    forall p | p in ins || p in upd ensures p.key in KeySet(ps) {
      PairInKeySet(ps, p);
    }
    forall i | 0 <= i < |ins| ensures ins[i].key !in current && ins[i].key in KeySet(ps) {
      assert ins[i] in ins;
    }
    forall i | 0 <= i < |upd| ensures upd[i].key in current && upd[i].key in KeySet(ps) {
      assert upd[i] in upd;
    }
    forall i | 0 <= i < |dels| ensures dels[i] in current && dels[i] !in KeySet(ps) {
      assert dels[i] in dels;
    }
  }
}
