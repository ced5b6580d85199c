/** The producer: diff a fetched snapshot against the store, patch a scratch trie, publish both. */
module Publisher {
  import opened Common
  import opened CanonicalJson
  import opened VersionedStore
  import opened StoreInvariant
  import opened DatabaseObject
  import opened Hex
  import opened TrieDiff

  const NULL_TRIE_HASH := "0000000000000000000000000000000000000000000000000000000000000000"

  datatype KVHex = KVHex(key: string, value: string)

  /** The uploaded file. */
  datatype Payload = Payload(
    data: seq<Item>, insertions: seq<KVHex>, updates: seq<KVHex>, deletions: seq<string>,
    currentRoot: string, previousRoot: string, previousFile: string)

  function HexPairs(ps: seq<Pair>): seq<KVHex> {
    seq(|ps|, i requires 0 <= i < |ps| => KVHex(HexOf(ps[i].key), HexOf(ps[i].value)))
  }

  function HexKeys(ks: seq<Digest>): seq<string> {
    seq(|ks|, i requires 0 <= i < |ks| => HexOf(ks[i]))
  }

  /** The patched state a producer at `live` computes for a snapshot. */
  ghost function Scratch(h: Hash, live: map<Digest, Digest>, items: seq<Item>, dels: seq<Digest>): map<Digest, Digest> {
    var ps := Pairs(h, items);
    Patch(live, Insertions(ps, live), Updates(ps, live), dels)
  }

  /** What a producer at `live` publishes for a snapshot; `dels` is the order it found deletions in. */
  ghost predicate Publishes(
      h: Hash, root: map<Digest, Digest> -> Digest, live: map<Digest, Digest>, items: seq<Item>,
      dels: seq<Digest>, p: Payload)
  {
    var ps := Pairs(h, items);
    && Lists(dels, live.Keys - KeySet(ps))
    && p.data == items
    && p.insertions == HexPairs(Insertions(ps, live))
    && p.updates == HexPairs(Updates(ps, live))
    && p.deletions == HexKeys(dels)
    && p.previousRoot == HexOf(root(live))
    && p.currentRoot == HexOf(root(Scratch(h, live, items, dels)))
  }

  // ---- The diff as it runs ----

  lemma FilterSnoc(ps: seq<Pair>, current: map<Digest, Digest>, p: Pair)
    ensures Insertions(ps + [p], current) == Insertions(ps, current) + if p.key !in current then [p] else []
    ensures Updates(ps + [p], current)
            == Updates(ps, current) + if p.key in current && current[p.key] != p.value then [p] else []
    ensures KeySet(ps + [p]) == KeySet(ps) + {p.key}
  {
    assert (ps + [p])[..|ps|] == ps;
    KeySetSnoc(ps, p);
  }

  method ComputeValueHash(h: Hash, v: Json) returns (vh: Option<Digest>)
    ensures vh == ValueHash(h, v)
  {
    var c := Canonicalize(v);
    vh := if c.None? then None else Some(h(c.value));
  }

  /** diffTrieOpsCore: one pass over the snapshot, then the deletions in whatever order the state map
      is iterated. */
  method DiffTrieOpsCore(h: Hash, items: seq<Item>, current: map<Digest, Digest>)
      returns (ins: seq<Pair>, upd: seq<Pair>, dels: seq<Digest>)
    ensures ins == Insertions(Pairs(h, items), current)
    ensures upd == Updates(Pairs(h, items), current)
    ensures Lists(dels, current.Keys - KeySet(Pairs(h, items)))
  {
    var seen: set<Digest> := {};
    ins, upd := [], [];
    for i := 0 to |items|
      invariant ins == Insertions(Pairs(h, items[..i]), current)
      invariant upd == Updates(Pairs(h, items[..i]), current)
      invariant seen == KeySet(Pairs(h, items[..i]))
    {
      assert items[..i + 1][..i] == items[..i];
      if HasId(items[i]) {
        ins, upd, seen := DiffFields(h, items[i].objectId.value, items[i].fields, current,
                                     Pairs(h, items[..i]), ins, upd, seen);
      } else {
        assert Pairs(h, items[..i + 1]) == Pairs(h, items[..i]);
      }
    }
    assert items[..|items|] == items;
    dels := ListSet(current.Keys - seen);
  }

  method DiffFields(
      h: Hash, objectId: string, fields: seq<Field>, current: map<Digest, Digest>,
      ghost done: seq<Pair>, ins0: seq<Pair>, upd0: seq<Pair>, seen0: set<Digest>)
      returns (ins: seq<Pair>, upd: seq<Pair>, seen: set<Digest>)
    requires ins0 == Insertions(done, current) && upd0 == Updates(done, current) && seen0 == KeySet(done)
    ensures var ps := done + FieldPairs(h, objectId, fields);
            ins == Insertions(ps, current) && upd == Updates(ps, current) && seen == KeySet(ps)
  {
    ins, upd, seen := ins0, upd0, seen0;
    assert done + [] == done;
    for j := 0 to |fields|
      invariant ins == Insertions(done + FieldPairs(h, objectId, fields[..j]), current)
      invariant upd == Updates(done + FieldPairs(h, objectId, fields[..j]), current)
      invariant seen == KeySet(done + FieldPairs(h, objectId, fields[..j]))
    {
      assert fields[..j + 1][..j] == fields[..j];
      ghost var before := FieldPairs(h, objectId, fields[..j]);
      var f := fields[j];
      var vh := ComputeValueHash(h, f.value);
      if vh.Some? {
        var p := Pair(KeyHash(h, objectId, f.name), vh.value);
        assert done + (before + [p]) == (done + before) + [p];
        FilterSnoc(done + before, current, p);
        if p.key !in current {
          ins := ins + [p];
        } else if current[p.key] != p.value {
          upd := upd + [p];
        }
        seen := seen + {p.key};
      }
    }
    assert fields[..|fields|] == fields;
  }

  /** The elements of a set in the arbitrary order iteration gives. */
  method ListSet<T(==,!new)>(xs: set<T>) returns (s: seq<T>)
    ensures Lists(s, xs)
  {
    s := [];
    var todo := xs;
    while todo != {}
      invariant todo <= xs
      invariant Lists(s, xs - todo)
      decreases todo
    {
      var x :| x in todo;
      s := s + [x];
      todo := todo - {x};
    }
    assert xs - todo == xs;
  }

  // ---- The scratch trie ----

  /** MemoryTrie: a copy of the store's trie that is never written back. */
  class MemoryTrie {
    var trie: map<Digest, Digest>

    constructor (t: Tables)
      ensures trie == LoadedTrie(t)
    {
      trie := LoadedTrie(t);
    }

    method Update(k: Digest, v: Digest)
      modifies this
      ensures trie == old(trie)[k := v]
    {
      trie := trie[k := v];
    }

    /** Unlike the store's trie, the scratch trie ignores the error for an absent key. */
    method Delete(k: Digest)
      modifies this
      ensures trie == old(trie) - {k}
    {
      trie := trie - {k};
    }

    /** applyTrieOperations. */
    method ApplyTrieOperations(ins: seq<Pair>, upd: seq<Pair>, dels: seq<Digest>)
      modifies this
      ensures trie == Patch(old(trie), ins, upd, dels)
    {
      SetEach(ins);
      SetEach(upd);
      ghost var start := trie;
      for i := 0 to |dels|
        invariant trie == RemoveAll(start, dels[..i])
      {
        assert dels[..i + 1][..i] == dels[..i];
        Delete(dels[i]);
      }
      assert dels[..|dels|] == dels;
    }

    method SetEach(ps: seq<Pair>)
      modifies this
      ensures trie == SetAll(old(trie), ps)
    {
      for i := 0 to |ps|
        invariant trie == SetAll(old(trie), ps[..i])
      {
        assert ps[..i + 1][..i] == ps[..i];
        Update(ps[i].key, ps[i].value);
      }
      assert ps[..|ps|] == ps;
    }
  }

  /** The publishing step of a block at the tip: both roots are computed from the scratch trie, before
      and after the patch. */
  method Publish(db: Database, root: map<Digest, Digest> -> Digest, items: seq<Item>, previousFile: string)
      returns (p: Payload, scratch: MemoryTrie, ghost dels: seq<Digest>)
    requires Inv(db.digest, db.tables)
    ensures Publishes(db.digest, root, LiveOf(db.tables.keys), items, dels, p)
    ensures scratch.trie == Scratch(db.digest, LiveOf(db.tables.keys), items, dels)
    ensures p.currentRoot == HexOf(root(scratch.trie)) && p.previousFile == previousFile
  {
    FiltersAgree(db.digest, db.tables);
    scratch := new MemoryTrie(db.tables);
    var current := db.GetCurrentStateMap();
    var ins, upd, listed := DiffTrieOpsCore(db.digest, items, current);
    dels := listed;
    var previousRoot := HexOf(root(scratch.trie));
    scratch.ApplyTrieOperations(ins, upd, listed);
    p := Payload(items, HexPairs(ins), HexPairs(upd), HexKeys(listed),
                 HexOf(root(scratch.trie)), previousRoot, previousFile);
  }
}
