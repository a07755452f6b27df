/** The catalog's data: an entry record, the category -> entries mapping,
    and the flattened view of every entry in category order. */
module Entries {
  import opened Base
  import opened Seqs
  import opened Dicts

  /** One acronym record. Each field is `None` when its key is absent. */
  datatype Entry = Entry(
    acronym: Option<string>,
    definition: Option<string>,
    category: Option<string>,
    description: Option<string>,
    aliases: Option<seq<string>>,
    origin: Option<string>,
    relatedAcronyms: Option<seq<string>>,
    notes: Option<string>)

  /** The keys of an entry. */
  datatype Field = Acronym | Definition | Category | Description | Aliases | Origin | RelatedAcronyms | Notes

  /** What a field holds: a string, or a list of strings. */
  datatype Value = Str(text: string) | Strs(texts: seq<string>)

  /** `entry.get(field)`. */
  function Get(e: Entry, f: Field): Option<Value>
  {
    match f
    case Acronym => StrOf(e.acronym)
    case Definition => StrOf(e.definition)
    case Category => StrOf(e.category)
    case Description => StrOf(e.description)
    case Aliases => StrsOf(e.aliases)
    case Origin => StrOf(e.origin)
    case RelatedAcronyms => StrsOf(e.relatedAcronyms)
    case Notes => StrOf(e.notes)
  }

  function StrOf(o: Option<string>): Option<Value>
  {
    if o.Some? then Some(Str(o.value)) else None
  }

  function StrsOf(o: Option<seq<string>>): Option<Value>
  {
    if o.Some? then Some(Strs(o.value)) else None
  }

  /** Python truthiness of a field value: a non-empty string or list. */
  predicate Truthy(v: Value)
  {
    match v
    case Str(s) => s != ""
    case Strs(xs) => xs != []
  }

  /** Python truthiness of an entry: a non-empty dict. */
  predicate NonEmpty(e: Entry)
  {
    exists f: Field :: Get(e, f).Some?
  }

  /** `x or []` for a list-valued field. */
  function OrEmpty(xs: Option<seq<string>>): seq<string>
  {
    if xs.Some? then xs.value else []
  }

  /** The catalog: category name -> entries, in file order. */
  type Categories = Dict<string, seq<Entry>>

  /** The buckets named by `ks`, concatenated. */
  function FlattenKeys(m: map<string, seq<Entry>>, ks: seq<string>): seq<Entry>
    requires forall i :: 0 <= i < |ks| ==> ks[i] in m
    decreases |ks|
  {
    if ks == [] then [] else FlattenKeys(m, ks[..|ks| - 1]) + m[ks[|ks| - 1]]
  }

  /** Every entry of the catalog, category by category: the order in which
      `for entries in data.values(): for entry in entries` visits them. */
  function Flatten(d: Categories): seq<Entry>
    requires d.Valid()
  {
    FlattenKeys(d.items, d.keys)
  }

  /** One more key appends its bucket. */
  lemma FlattenKeysSnoc(m: map<string, seq<Entry>>, ks: seq<string>, i: nat)
    requires forall j :: 0 <= j < |ks| ==> ks[j] in m
    requires i < |ks|
    ensures FlattenKeys(m, ks[..i + 1]) == FlattenKeys(m, ks[..i]) + m[ks[i]]
  {
    assert ks[..i + 1][..i] == ks[..i];
  }

  lemma {:induction false} FlattenKeysMember(m: map<string, seq<Entry>>, ks: seq<string>, e: Entry)
    requires forall i :: 0 <= i < |ks| ==> ks[i] in m
    ensures e in FlattenKeys(m, ks) <==> exists i :: 0 <= i < |ks| && e in m[ks[i]]
    decreases |ks|
  {
    if ks != [] {
      var p := ks[..|ks| - 1];
      FlattenKeysMember(m, p, e);
      if e in m[ks[|ks| - 1]] {
        assert e in FlattenKeys(m, ks);
      }
    }
  }

  /** An entry is in the flattened catalog iff some bucket holds it. */
  lemma FlattenMember(d: Categories, e: Entry)
    requires d.Valid()
    ensures e in Flatten(d) <==> exists c :: c in d.items && e in d.items[c]
  {
    FlattenKeysMember(d.items, d.keys, e);
    if exists c :: c in d.items && e in d.items[c] {
      var c :| c in d.items && e in d.items[c];
      var i :| 0 <= i < |d.keys| && d.keys[i] == c;
    }
  }

  lemma {:induction false} FlattenKeysAgree(m: map<string, seq<Entry>>, m': map<string, seq<Entry>>, ks: seq<string>)
    requires forall i :: 0 <= i < |ks| ==> ks[i] in m && ks[i] in m' && m[ks[i]] == m'[ks[i]]
    ensures FlattenKeys(m, ks) == FlattenKeys(m', ks)
    decreases |ks|
  {
    if ks != [] {
      FlattenKeysAgree(m, m', ks[..|ks| - 1]);
    }
  }

  lemma {:induction false} FlattenKeysReplace(m: map<string, seq<Entry>>, ks: seq<string>, c: string, b: seq<Entry>)
    requires Distinct(ks) && c in ks
    requires forall i :: 0 <= i < |ks| ==> ks[i] in m
    ensures multiset(FlattenKeys(m[c := b], ks)) + multiset(m[c]) == multiset(FlattenKeys(m, ks)) + multiset(b)
    decreases |ks|
  {
    var p := ks[..|ks| - 1];
    var l := ks[|ks| - 1];
    if l == c {
      FlattenKeysAgree(m, m[c := b], p);
    } else {
      FlattenKeysReplace(m, p, c, b);
      var a, a', ml := multiset(FlattenKeys(m, p)), multiset(FlattenKeys(m[c := b], p)), multiset(m[l]);
      assert a' + multiset(m[c]) == a + multiset(b);
      assert multiset(FlattenKeys(m[c := b], ks)) == a' + ml;
      assert multiset(FlattenKeys(m, ks)) == a + ml;
      var mc, mb := multiset(m[c]), multiset(b);
      forall x ensures ((a' + ml) + mc)[x] == ((a + ml) + mb)[x] {
        assert (a' + mc)[x] == (a + mb)[x];
      }
      assert (a' + ml) + mc == (a + ml) + mb;
    }
  }

  /** Visiting `a` then `b` is visiting `a + b`. */
  lemma {:induction false} FlattenKeysAppend(m: map<string, seq<Entry>>, a: seq<string>, b: seq<string>)
    requires KeysIn(m, a) && KeysIn(m, b)
    ensures KeysIn(m, a + b)
    ensures FlattenKeys(m, a + b) == FlattenKeys(m, a) + FlattenKeys(m, b)
    decreases |b|
  {
    assert KeysIn(m, a + b) by {
      forall i | 0 <= i < |a + b| ensures (a + b)[i] in m {
        if i >= |a| {
          assert (a + b)[i] == b[i - |a|];
        }
      }
    }
    if b == [] {
      assert a + b == a;
    } else {
      var q := b[..|b| - 1];
      FlattenKeysAppend(m, a, q);
      assert (a + b)[..|a + b| - 1] == a + q;
      assert FlattenKeys(m, a + b) == FlattenKeys(m, a + q) + m[b[|b| - 1]];
    }
  }

  /** The bucket of a key sits between the buckets before and after it. */
  lemma FlattenKeysSplice(m: map<string, seq<Entry>>, a: seq<string>, c: string, b: seq<string>)
    requires KeysIn(m, a) && c in m && KeysIn(m, b)
    ensures KeysIn(m, a + [c] + b)
    ensures FlattenKeys(m, a + [c] + b) == FlattenKeys(m, a) + m[c] + FlattenKeys(m, b)
  {
    FlattenKeysAppend(m, a, [c]);
    assert FlattenKeys(m, [c]) == m[c] by {
      assert [c][..0] == [];
    }
    FlattenKeysAppend(m, a + [c], b);
  }

  predicate KeysIn(m: map<string, seq<Entry>>, ks: seq<string>)
  {
    forall i :: 0 <= i < |ks| ==> ks[i] in m
  }

  /** Re-assigning an existing bucket swaps its entries and keeps all others. */
  lemma FlattenPutExisting(d: Categories, c: string, b: seq<Entry>)
    requires d.Valid() && c in d.items
    ensures multiset(Flatten(d.Put(c, b))) + multiset(d.items[c]) == multiset(Flatten(d)) + multiset(b)
  {
    FlattenKeysReplace(d.items, d.keys, c, b);
  }

  /** A new bucket is visited last. */
  lemma FlattenPutNew(d: Categories, c: string, b: seq<Entry>)
    requires d.Valid() && c !in d.items
    ensures Flatten(d.Put(c, b)) == Flatten(d) + b
  {
    var d' := d.Put(c, b);
    assert d'.keys[..|d.keys|] == d.keys;
    FlattenKeysAgree(d.items, d'.items, d.keys);
  }

  /** Dropping a bucket drops exactly its entries. */
  lemma FlattenRemove(d: Categories, c: string)
    requires d.Valid() && c in d.items
    ensures multiset(Flatten(d.Remove(c))) + multiset(d.items[c]) == multiset(Flatten(d))
  {
    var i :| 0 <= i < |d.keys| && d.keys[i] == c;
    FlattenAround(d, i);
    FlattenRemoveAt(d, i);
  }

  /** The bucket at position `i` sits between the buckets before and after it. */
  lemma FlattenAround(d: Categories, i: nat)
    requires d.Valid() && i < |d.keys|
    ensures KeysIn(d.items, d.keys[..i]) && KeysIn(d.items, d.keys[i + 1..])
    ensures Flatten(d) == FlattenKeys(d.items, d.keys[..i]) + d.items[d.keys[i]] + FlattenKeys(d.items, d.keys[i + 1..])
  {
    assert d.keys == d.keys[..i] + [d.keys[i]] + d.keys[i + 1..];
    FlattenKeysSplice(d.items, d.keys[..i], d.keys[i], d.keys[i + 1..]);
  }

  /** Removing the key at position `i` leaves the buckets before and after it, in order. */
  lemma FlattenRemoveAt(d: Categories, i: nat)
    requires d.Valid() && i < |d.keys|
    ensures KeysIn(d.items, d.keys[..i]) && KeysIn(d.items, d.keys[i + 1..])
    ensures Flatten(d.Remove(d.keys[i])) == FlattenKeys(d.items, d.keys[..i]) + FlattenKeys(d.items, d.keys[i + 1..])
  {
    var c, a, b := d.keys[i], d.keys[..i], d.keys[i + 1..];
    WithoutAt(d.keys, c, i);
    assert c !in a && c !in b;
    FlattenKeysRemoved(d.items, d.items - {c}, a, b);
  }

  /** Visiting `a + b` in a map that agrees with `m` on them is visiting `a` then `b` in `m`. */
  lemma FlattenKeysRemoved(m: map<string, seq<Entry>>, m': map<string, seq<Entry>>, a: seq<string>, b: seq<string>)
    requires KeysIn(m, a) && KeysIn(m, b)
    requires forall i :: 0 <= i < |a| ==> a[i] in m' && m'[a[i]] == m[a[i]]
    requires forall i :: 0 <= i < |b| ==> b[i] in m' && m'[b[i]] == m[b[i]]
    ensures KeysIn(m', a + b)
    ensures FlattenKeys(m', a + b) == FlattenKeys(m, a) + FlattenKeys(m, b)
  {
    FlattenKeysAppend(m', a, b);
    FlattenKeysAgree(m, m', a);
    FlattenKeysAgree(m, m', b);
  }
}
