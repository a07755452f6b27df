/** crud.py: add, update and delete entries of the catalog in place. */
module Crud {
  import opened Base
  import opened Seqs
  import opened Text
  import opened Dicts
  import opened Entries

  /** The `updates` dict of `update_entry`: `None` for a key it does not
      name, `Some(v)` for one it sets to `v`, where `v` is `None` for a null
      value; a stored null reads as an absent key, as everywhere else. */
  datatype Patch = Patch(
    acronym: Option<Option<string>>,
    definition: Option<Option<string>>,
    category: Option<Option<string>>,
    description: Option<Option<string>>,
    aliases: Option<Option<seq<string>>>,
    origin: Option<Option<string>>,
    relatedAcronyms: Option<Option<seq<string>>>,
    notes: Option<Option<string>>)

  /** What the patch sets `f` to, if it names `f`. */
  function PatchGet(p: Patch, f: Field): Option<Option<Value>>
  {
    match f
    case Acronym => Named(p.acronym, StrOf)
    case Definition => Named(p.definition, StrOf)
    case Category => Named(p.category, StrOf)
    case Description => Named(p.description, StrOf)
    case Aliases => Named(p.aliases, StrsOf)
    case Origin => Named(p.origin, StrOf)
    case RelatedAcronyms => Named(p.relatedAcronyms, StrsOf)
    case Notes => Named(p.notes, StrOf)
  }

  function Named<T>(o: Option<Option<T>>, wrap: Option<T> -> Option<Value>): Option<Option<Value>>
  {
    if o.Some? then Some(wrap(o.value)) else None
  }

  function Override<T>(patched: Option<Option<T>>, current: Option<T>): Option<T>
  {
    if patched.Some? then patched.value else current
  }

  /** `entry.update(updates)`: every field the patch names takes the patch's
      value, a null one included; every other field keeps its value. */
  function Merge(e: Entry, p: Patch): (r: Entry)
    ensures forall f: Field :: Get(r, f) == if PatchGet(p, f).Some? then PatchGet(p, f).value else Get(e, f)
  {
    Entry(
      Override(p.acronym, e.acronym),
      Override(p.definition, e.definition),
      Override(p.category, e.category),
      Override(p.description, e.description),
      Override(p.aliases, e.aliases),
      Override(p.origin, e.origin),
      Override(p.relatedAcronyms, e.relatedAcronyms),
      Override(p.notes, e.notes))
  }

  /** `entry.get("category", "Misc")`: the stored category, or "Misc"
      when the key is absent. */
  function CategoryOf(e: Entry): (c: string)
    ensures e.category.Some? ==> c == e.category.value
    ensures e.category.None? ==> c == "Misc"
  {
    if e.category.Some? then e.category.value else "Misc"
  }

  /** The matching test of `update_entry` and `delete_entry`, once
      `entry["acronym"]` has been found: the acronym or one of the aliases
      equals the key, ignoring case. */
  predicate Matches(e: Entry, key: string)
    requires e.acronym.Some?
  {
    Lower(e.acronym.value) == Lower(key) || Lower(key) in LowerAll(OrEmpty(e.aliases))
  }

  /** The list comprehension of the test reads: some alias equals the key,
      ignoring case. */
  lemma MatchesMeaning(e: Entry, key: string)
    requires e.acronym.Some?
    ensures Matches(e, key) <==>
      Lower(e.acronym.value) == Lower(key) || exists a :: a in OrEmpty(e.aliases) && Lower(a) == Lower(key)
  {
    var xs := OrEmpty(e.aliases);
    forall a | a in xs ensures Lower(a) in LowerAll(xs) {
      var i :| 0 <= i < |xs| && xs[i] == a;
      assert LowerAll(xs)[i] == Lower(a);
    }
  }

  /** The scan goes on past `e`: it has an acronym and does not match. */
  predicate Passes(e: Entry, key: string)
  {
    e.acronym.Some? && !Matches(e, key)
  }

  /** Position `i` is where the scan of `es` stops. */
  ghost predicate FirstStop(es: seq<Entry>, i: int, key: string)
  {
    0 <= i < |es| && !Passes(es[i], key) && forall t :: 0 <= t < i ==> Passes(es[t], key)
  }

  /** Where the scan of one list stops, if it does. */
  function ScanBucket(es: seq<Entry>, key: string): (r: Option<nat>)
    ensures r.Some? ==> FirstStop(es, r.value, key)
    ensures r.None? ==> forall t :: 0 <= t < |es| ==> Passes(es[t], key)
    decreases |es|
  {
    if es == [] then None
    else if !Passes(es[0], key) then Some(0)
    else match ScanBucket(es[1..], key)
      case None => None
      case Some(t) => Some(t + 1)
  }

  /** Where a scan of the catalog ends: at the first matching entry, at the
      first entry without an acronym (`entry["acronym"]` raises), or past the end. */
  datatype Stop = Hit(category: string, pos: nat) | Missing(category: string, pos: nat) | Through

  function ScanKeys(m: map<string, seq<Entry>>, ks: seq<string>, key: string): (r: Stop)
    requires KeysIn(m, ks)
    ensures !r.Through? ==> r.category in m && r.pos < |m[r.category]|
    decreases |ks|
  {
    if ks == [] then Through
    else match ScanBucket(m[ks[0]], key)
      case Some(t) => if m[ks[0]][t].acronym.Some? then Hit(ks[0], t) else Missing(ks[0], t)
      case None => ScanKeys(m, ks[1..], key)
  }

  /** The scan of `for entries in data.values(): for entry in entries`. */
  function Scan(d: Categories, key: string): (r: Stop)
    requires d.Valid()
    ensures !r.Through? ==> r.category in d.items && r.pos < |d.items[r.category]|
  {
    ScanKeys(d.items, d.keys, key)
  }

  /** Every entry of the buckets named by `ks` lets the scan pass. */
  ghost predicate AllPass(m: map<string, seq<Entry>>, ks: seq<string>, key: string)
    requires KeysIn(m, ks)
  {
    forall n, t :: 0 <= n < |ks| && 0 <= t < |m[ks[n]]| ==> Passes(m[ks[n]][t], key)
  }

  /** The scan stops at the first entry, in category order then list order,
      that matches or lacks an acronym; it runs through only when every entry
      has an acronym and none matches. */
  lemma {:induction false} ScanKeysFacts(m: map<string, seq<Entry>>, ks: seq<string>, key: string)
    requires KeysIn(m, ks)
    ensures ScanKeys(m, ks, key).Through? <==> AllPass(m, ks, key)
    ensures var r := ScanKeys(m, ks, key);
      !r.Through? ==> exists n :: 0 <= n < |ks| && ks[n] == r.category && AllPass(m, ks[..n], key)
                                   && FirstStop(m[r.category], r.pos, key)
    ensures var r := ScanKeys(m, ks, key);
      (r.Hit? ==> m[r.category][r.pos].acronym.Some?) && (r.Missing? ==> m[r.category][r.pos].acronym.None?)
    decreases |ks|
  {
    var r := ScanKeys(m, ks, key);
    if ks != [] {
      var b := ScanBucket(m[ks[0]], key);
      if b.Some? {
        assert !AllPass(m, ks, key) by {
          assert !Passes(m[ks[0]][b.value], key);
        }
        assert ks[0] == r.category && AllPass(m, ks[..0], key);
      } else {
        var rest := ks[1..];
        ScanKeysFacts(m, rest, key);
        assert ks == [ks[0]] + rest;
        if AllPass(m, rest, key) {
          AllPassCons(m, ks[0], rest, key);
        } else {
          assert !AllPass(m, ks, key) by {
            var n, t :| 0 <= n < |rest| && 0 <= t < |m[rest[n]]| && !Passes(m[rest[n]][t], key);
            assert rest[n] == ks[n + 1];
          }
        }
        if !r.Through? {
          var n :| 0 <= n < |rest| && rest[n] == r.category && AllPass(m, rest[..n], key) && FirstStop(m[r.category], r.pos, key);
          assert ks[n + 1] == r.category;
          assert ks[..n + 1] == [ks[0]] + rest[..n];
          AllPassCons(m, ks[0], rest[..n], key);
        }
      }
    }
  }

  lemma AllPassCons(m: map<string, seq<Entry>>, k: string, ks: seq<string>, key: string)
    requires k in m && KeysIn(m, ks) && AllPass(m, ks, key)
    requires forall t :: 0 <= t < |m[k]| ==> Passes(m[k][t], key)
    ensures KeysIn(m, [k] + ks) && AllPass(m, [k] + ks, key)
  {
    var ks' := [k] + ks;
    forall n, t | 0 <= n < |ks'| && 0 <= t < |m[ks'[n]]| ensures Passes(m[ks'[n]][t], key) {
      if n > 0 {
        assert ks'[n] == ks[n - 1];
      }
    }
  }

  /** The scan's verdict: `True` for a match, `False` past the end, and the
      `KeyError` of `entry["acronym"]` for an entry without one. */
  function Outcome(s: Stop): (r: Result<bool>)
    ensures r == Ok(true) <==> s.Hit?
    ensures r == Ok(false) <==> s.Through?
    ensures r.Err? <==> s.Missing?
    ensures r.Err? ==> r.error == KeyError("acronym")
  {
    match s
    case Hit(_, _) => Ok(true)
    case Through => Ok(false)
    case Missing(_, _) => Err(KeyError("acronym"))
  }

  /** When every entry has an acronym, `update_entry` and `delete_entry`
      report `True` iff some entry matches the key. */
  lemma OutcomeWithAcronyms(d: Categories, key: string)
    requires d.Valid()
    requires forall c, t :: c in d.items && 0 <= t < |d.items[c]| ==> d.items[c][t].acronym.Some?
    ensures Outcome(Scan(d, key)).Ok?
    ensures Outcome(Scan(d, key)) == Ok(true)
        <==> exists c, t :: c in d.items && 0 <= t < |d.items[c]| && Matches(d.items[c][t], key)
  {
    ScanKeysFacts(d.items, d.keys, key);
    if exists c, t :: c in d.items && 0 <= t < |d.items[c]| && Matches(d.items[c][t], key) {
      var c, t :| c in d.items && 0 <= t < |d.items[c]| && Matches(d.items[c][t], key);
      var n :| 0 <= n < |d.keys| && d.keys[n] == c;
      assert !Passes(d.items[d.keys[n]][t], key);
    } else {
      forall n, t | 0 <= n < |d.keys| && 0 <= t < |d.items[d.keys[n]]| ensures Passes(d.items[d.keys[n]][t], key) {
        assert d.keys[n] in d.items;
      }
    }
  }

  /** The catalog after `add_entry(data, e)`: the entry is appended to the
      bucket its category names ("Misc" when it has none); a missing bucket is
      created last; the other buckets are as they were. */
  function Added(d: Categories, e: Entry): (r: Categories)
    requires d.Valid()
    ensures r.Valid()
    ensures var c := CategoryOf(e);
      && c in r.items
      && |r.items[c]| == (if c in d.items then |d.items[c]| else 0) + 1
      && r.items[c][|r.items[c]| - 1] == e
      && r.items[c][..|r.items[c]| - 1] == (if c in d.items then d.items[c] else [])
      && r.keys == (if c in d.items then d.keys else d.keys + [c])
    ensures forall k :: k != CategoryOf(e) ==> (k in r.items <==> k in d.items)
    ensures forall k :: k != CategoryOf(e) && k in d.items ==> r.items[k] == d.items[k]
  {
    var c := CategoryOf(e);
    var bucket := if c in d.items then d.items[c] else [];
    var r := d.Put(c, bucket + [e]);
    assert r.items[c][..|r.items[c]| - 1] == bucket;
    r
  }

  /** Adding puts exactly one more entry into the catalog. */
  lemma AddedContents(d: Categories, e: Entry)
    requires d.Valid()
    ensures multiset(Flatten(Added(d, e))) == multiset(Flatten(d)) + multiset{e}
  {
    var c := CategoryOf(e);
    if c in d.items {
      var b := d.items[c];
      FlattenPutExisting(d, c, b + [e]);
      MultisetCancel(multiset(Flatten(Added(d, e))), multiset(Flatten(d)), multiset(b), multiset{}, multiset{e});
    } else {
      FlattenPutNew(d, c, [e]);
    }
  }

  /** The catalog after `update_entry(data, key, p)`: only the entry the scan
      stops at changes, and only when it matches. */
  function Updated(d: Categories, key: string, p: Patch): (r: Categories)
    requires d.Valid()
    ensures r.Valid() && r.keys == d.keys
    ensures !Scan(d, key).Hit? ==> r == d
    ensures Scan(d, key).Hit? ==>
      var c, i := Scan(d, key).category, Scan(d, key).pos;
      && (forall k :: k in r.items <==> k in d.items)
      && (forall k :: k in d.items && k != c ==> r.items[k] == d.items[k])
      && |r.items[c]| == |d.items[c]|
      && r.items[c][i] == Merge(d.items[c][i], p)
      && (forall t :: 0 <= t < |d.items[c]| && t != i ==> r.items[c][t] == d.items[c][t])
  {
    match Scan(d, key)
    case Hit(c, i) => d.Put(c, d.items[c][i := Merge(d.items[c][i], p)])
    case _ => d
  }

  /** The update of a hit, by position. */
  lemma UpdatedAt(d: Categories, key: string, p: Patch, c: string, j: nat)
    requires d.Valid() && Scan(d, key) == Hit(c, j)
    ensures c in d.items && j < |d.items[c]|
    ensures Updated(d, key, p) == d.Put(c, d.items[c][j := Merge(d.items[c][j], p)])
  {
  }

  /** A successful update swaps one entry for its merged version. */
  lemma UpdatedContents(d: Categories, key: string, p: Patch)
    requires d.Valid() && Scan(d, key).Hit?
    ensures var c, i := Scan(d, key).category, Scan(d, key).pos;
      multiset(Flatten(Updated(d, key, p))) + multiset{d.items[c][i]}
        == multiset(Flatten(d)) + multiset{Merge(d.items[c][i], p)}
  {
    var c, i := Scan(d, key).category, Scan(d, key).pos;
    var b := d.items[c];
    var b' := b[i := Merge(b[i], p)];
    assert Updated(d, key, p) == d.Put(c, b');
    FlattenPutExisting(d, c, b');
    MultisetSwap(multiset(Flatten(d.Put(c, b'))), multiset(Flatten(d)), multiset(b), multiset(b'),
      multiset{b[i]}, multiset{Merge(b[i], p)});
  }

  /** The catalog after `delete_entry(data, key)`: the matching entry leaves
      its list, the rest keep their order, and a list left empty loses its
      category key. */
  function Deleted(d: Categories, key: string): (r: Categories)
    requires d.Valid()
    ensures r.Valid()
    ensures !Scan(d, key).Hit? ==> r == d
    ensures Scan(d, key).Hit? ==>
      var c, i := Scan(d, key).category, Scan(d, key).pos;
      && (c in r.items <==> |d.items[c]| > 1)
      && (c in r.items ==> r.items[c] == d.items[c][..i] + d.items[c][i + 1..] && r.keys == d.keys)
      && (c !in r.items ==> r.keys == Without(d.keys, c))
      && (forall k :: k != c ==> (k in r.items <==> k in d.items))
      && (forall k :: k in d.items && k != c ==> r.items[k] == d.items[k])
  {
    match Scan(d, key)
    case Hit(c, i) =>
      var rest := d.items[c][..i] + d.items[c][i + 1..];
      if rest == [] then d.Remove(c) else d.Put(c, rest)
    case _ => d
  }

  /** The deletion of a hit, by position. */
  lemma DeletedAt(d: Categories, key: string, c: string, j: nat)
    requires d.Valid() && Scan(d, key) == Hit(c, j)
    ensures c in d.items && j < |d.items[c]|
    ensures var rest := d.items[c][..j] + d.items[c][j + 1..];
      Deleted(d, key) == if rest == [] then d.Remove(c) else d.Put(c, rest)
  {
  }

  /** Cutting position `i` out of a list takes exactly its entry out. */
  lemma CutOut(b: seq<Entry>, i: nat)
    requires i < |b|
    ensures multiset(b) == multiset(b[..i] + b[i + 1..]) + multiset{b[i]}
  {
    assert b == b[..i] + [b[i]] + b[i + 1..];
  }

  /** A successful delete takes exactly one entry out of the catalog. */
  lemma DeletedContents(d: Categories, key: string)
    requires d.Valid() && Scan(d, key).Hit?
    ensures var c, i := Scan(d, key).category, Scan(d, key).pos;
      multiset(Flatten(Deleted(d, key))) + multiset{d.items[c][i]} == multiset(Flatten(d))
  {
    var c, i := Scan(d, key).category, Scan(d, key).pos;
    DeletedAt(d, key, c, i);
    var b := d.items[c];
    var rest := b[..i] + b[i + 1..];
    CutOut(b, i);
    if rest == [] {
      FlattenRemove(d, c);
    } else {
      FlattenPutExisting(d, c, rest);
      MultisetCancel(multiset(Flatten(d.Put(c, rest))), multiset(Flatten(d)), multiset(rest), multiset{b[i]}, multiset{});
    }
  }

  /** The scan from the `i`-th category stops where that category's list stops it. */
  lemma ScanStop(d: Categories, i: nat, j: nat, key: string)
    requires d.Valid() && i < |d.keys| && FirstStop(d.items[d.keys[i]], j, key)
    ensures KeysIn(d.items, d.keys[i..])
    ensures ScanKeys(d.items, d.keys[i..], key)
         == if d.items[d.keys[i]][j].acronym.Some? then Hit(d.keys[i], j) else Missing(d.keys[i], j)
  {
    assert ScanBucket(d.items[d.keys[i]], key) == Some(j);
    assert d.keys[i..][0] == d.keys[i];
  }

  /** A category whose whole list lets the scan pass hands it on to the next one. */
  lemma ScanPass(d: Categories, i: nat, key: string)
    requires d.Valid() && i < |d.keys|
    requires forall t :: 0 <= t < |d.items[d.keys[i]]| ==> Passes(d.items[d.keys[i]][t], key)
    ensures KeysIn(d.items, d.keys[i..]) && KeysIn(d.items, d.keys[i + 1..])
    ensures ScanKeys(d.items, d.keys[i..], key) == ScanKeys(d.items, d.keys[i + 1..], key)
  {
    assert ScanBucket(d.items[d.keys[i]], key) == None;
    assert d.keys[i..][0] == d.keys[i];
    assert d.keys[i..][1..] == d.keys[i + 1..];
  }

  /** The inner loop of `update_entry` and `delete_entry` over one list:
      the position where it stops, or the length when every entry passes. */
  method StopIn(entries: seq<Entry>, key: string) returns (j: nat)
    ensures j <= |entries|
    ensures j < |entries| ==> FirstStop(entries, j, key)
    ensures j == |entries| ==> forall t :: 0 <= t < |entries| ==> Passes(entries[t], key)
  {
    j := 0;
    while j < |entries|
      invariant 0 <= j <= |entries|
      invariant forall t :: 0 <= t < j ==> Passes(entries[t], key)
    {
      var entry := entries[j];
      if entry.acronym.None? || Matches(entry, key) {
        return;
      }
      j := j + 1;
    }
  }

  /** The catalog that `update_entry` and `delete_entry` change in place. */
  class Catalog {
    var data: Categories

    ghost predicate Valid()
      reads this
    {
      data.Valid()
    }

    constructor (data: Categories)
      requires data.Valid()
      ensures Valid() && this.data == data
    {
      this.data := data;
    }

    /** `add_entry`. */
    method AddEntry(entry: Entry)
      requires Valid()
      modifies this
      ensures Valid()
      ensures data == Added(old(data), entry)
    {
      var category := if entry.category.Some? then entry.category.value else "Misc";
      if category !in data.items {
        data := data.Put(category, []);
      }
      data := data.Put(category, data.items[category] + [entry]);
    }

    /** `update_entry`. */
    method UpdateEntry(key: string, updates: Patch) returns (r: Result<bool>)
      requires Valid()
      modifies this
      ensures Valid()
      ensures data == Updated(old(data), key, updates)
      ensures r == Outcome(Scan(old(data), key))
    {
      var i := 0;
      while i < |data.keys|
        invariant 0 <= i <= |data.keys|
        invariant data == old(data)
        invariant Scan(data, key) == ScanKeys(data.items, data.keys[i..], key)
      {
        var category := data.keys[i];
        var entries := data.items[category];
        var j := StopIn(entries, key);
        if j < |entries| {
          var entry := entries[j];
          ScanStop(data, i, j, key);
          if entry.acronym.None? {
            return Err(KeyError("acronym"));
          }
          UpdatedAt(data, key, updates, category, j);
          data := data.Put(category, entries[j := Merge(entry, updates)]);
          return Ok(true);
        }
        ScanPass(data, i, key);
        i := i + 1;
      }
      return Ok(false);
    }

    /** `delete_entry`. */
    method DeleteEntry(key: string) returns (r: Result<bool>)
      requires Valid()
      modifies this
      ensures Valid()
      ensures data == Deleted(old(data), key)
      ensures r == Outcome(Scan(old(data), key))
    {
      var i := 0;
      while i < |data.keys|
        invariant 0 <= i <= |data.keys|
        invariant data == old(data)
        invariant Scan(data, key) == ScanKeys(data.items, data.keys[i..], key)
      {
        var category := data.keys[i];
        var entries := data.items[category];
        var j := StopIn(entries, key);
        if j < |entries| {
          ScanStop(data, i, j, key);
          if entries[j].acronym.None? {
            return Err(KeyError("acronym"));
          }
          DeletedAt(data, key, category, j);
          var rest := entries[..j] + entries[j + 1..];
          if rest == [] {
            data := data.Remove(category);
          } else {
            data := data.Put(category, rest);
          }
          return Ok(true);
        }
        ScanPass(data, i, key);
        i := i + 1;
      }
      return Ok(false);
    }
  }
}
