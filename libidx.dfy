/** libidx.py: the acronym index, the category index and the substring search. */
module Libidx {
  import opened Base
  import opened Seqs
  import opened Text
  import opened Dicts
  import opened Entries

  /** `if acronym:` for `acronym = entry.get("acronym")`: present and non-empty. */
  predicate Indexable(e: Entry)
  {
    e.acronym.Some? && e.acronym.value != ""
  }

  /** The index produced by assigning `index[acronym] = entry` for each
      indexable entry of `es`, in order. */
  function IndexOf(es: seq<Entry>): (d: Dict<string, Entry>)
    ensures d.Valid()
    ensures forall k :: k in d.items ==> k != "" && d.items[k].acronym == Some(k)
    decreases |es|
  {
    if es == [] then Empty()
    else
      var d := IndexOf(es[..|es| - 1]);
      var e := es[|es| - 1];
      if Indexable(e) then d.Put(e.acronym.value, e) else d
  }

  /** What `build_acronym_index(data)` returns. */
  function AcronymIndex(data: Categories): (index: Dict<string, Entry>)
    requires data.Valid()
    ensures index.Valid()
    ensures forall k :: k in index.items ==> k != "" && index.items[k].acronym == Some(k)
  {
    IndexOf(Flatten(data))
  }

  /** Entry `j` is the last entry of `es` whose acronym is `k`. */
  ghost predicate LastWith(es: seq<Entry>, k: string, j: int)
  {
    0 <= j < |es| && es[j].acronym == Some(k) && forall t :: j < t < |es| ==> es[t].acronym != Some(k)
  }

  /** A key is present iff some entry has it as a non-empty acronym, and
      it holds the last such entry. */
  lemma IndexOfFacts(es: seq<Entry>, k: string)
    ensures k in IndexOf(es).items <==> k != "" && exists j :: 0 <= j < |es| && es[j].acronym == Some(k)
    ensures k in IndexOf(es).items ==> exists j :: LastWith(es, k, j) && IndexOf(es).items[k] == es[j]
  {
    IndexOfKeys(es, k);
    if k in IndexOf(es).items {
      IndexOfLast(es, k);
    }
  }

  lemma {:induction false} IndexOfKeys(es: seq<Entry>, k: string)
    ensures k in IndexOf(es).items <==> k != "" && exists j :: 0 <= j < |es| && es[j].acronym == Some(k)
    decreases |es|
  {
    if es != [] {
      var n := |es| - 1;
      var p := es[..n];
      IndexOfKeys(p, k);
      if exists j :: 0 <= j < n && p[j].acronym == Some(k) {
        var j :| 0 <= j < n && p[j].acronym == Some(k);
        assert es[j].acronym == Some(k);
      }
      if exists j :: 0 <= j < |es| && es[j].acronym == Some(k) {
        var j :| 0 <= j < |es| && es[j].acronym == Some(k);
        if j < n {
          assert p[j].acronym == Some(k);
        }
      }
    }
  }

  lemma {:induction false} IndexOfLast(es: seq<Entry>, k: string)
    requires k in IndexOf(es).items
    ensures exists j :: LastWith(es, k, j) && IndexOf(es).items[k] == es[j]
    decreases |es|
  {
    var n := |es| - 1;
    var p := es[..n];
    if es[n].acronym == Some(k) && k != "" {
      assert LastWith(es, k, n);
    } else {
      IndexOfLast(p, k);
      var j :| LastWith(p, k, j) && IndexOf(p).items[k] == p[j];
      assert LastWith(es, k, j);
    }
  }

  /** The keys of the index are exactly the non-empty acronyms of the
      catalog, unmodified: entries without an acronym are skipped and
      aliases are not keys. */
  lemma AcronymIndexKeys(data: Categories, k: string)
    requires data.Valid()
    ensures k in AcronymIndex(data).items
        <==> k != "" && exists e :: e in Flatten(data) && e.acronym == Some(k)
  {
    IndexOfFacts(Flatten(data), k);
  }

  /** Every key maps to an entry of the catalog whose acronym is that key. */
  lemma AcronymIndexSound(data: Categories, k: string)
    requires data.Valid() && k in AcronymIndex(data).items
    ensures AcronymIndex(data).items[k].acronym == Some(k)
    ensures exists c :: c in data.items && AcronymIndex(data).items[k] in data.items[c]
  {
    IndexOfFacts(Flatten(data), k);
    FlattenMember(data, AcronymIndex(data).items[k]);
  }

  /** Last write wins: among entries sharing an acronym, the one visited
      last (category order, then list order) is the indexed one. */
  lemma AcronymIndexLastWins(data: Categories, k: string)
    requires data.Valid() && k in AcronymIndex(data).items
    ensures exists j :: LastWith(Flatten(data), k, j) && AcronymIndex(data).items[k] == Flatten(data)[j]
  {
    IndexOfFacts(Flatten(data), k);
  }

  /** `build_acronym_index`. */
  method BuildAcronymIndex(data: Categories) returns (index: Dict<string, Entry>)
    requires data.Valid()
    ensures index == AcronymIndex(data)
  {
    index := Empty();
    var i := 0;
    while i < |data.keys|
      invariant 0 <= i <= |data.keys|
      invariant index == IndexOf(FlattenKeys(data.items, data.keys[..i]))
    {
      var entries := data.items[data.keys[i]];
      ghost var before := FlattenKeys(data.items, data.keys[..i]);
      var j := 0;
      assert before + entries[..0] == before;
      while j < |entries|
        invariant 0 <= j <= |entries|
        invariant index == IndexOf(before + entries[..j])
      {
        var e := entries[j];
        IndexOfSnoc(before, entries, j);
        if e.acronym.Some? && e.acronym.value != "" {
          index := index.Put(e.acronym.value, e);
        }
        j := j + 1;
      }
      assert entries[..j] == entries;
      FlattenKeysSnoc(data.items, data.keys, i);
      i := i + 1;
    }
    assert data.keys[..i] == data.keys;
  }

  /** One more entry is indexed on top of the index of those before it. */
  lemma IndexOfSnoc(before: seq<Entry>, entries: seq<Entry>, j: nat)
    requires j < |entries|
    ensures IndexOf(before + entries[..j + 1])
         == if Indexable(entries[j]) then IndexOf(before + entries[..j]).Put(entries[j].acronym.value, entries[j])
            else IndexOf(before + entries[..j])
  {
    assert (before + entries[..j + 1])[..|before| + j] == before + entries[..j];
  }

  /** `build_category_index`: a copy with the same keys, in the same order,
      each holding the same list. */
  method BuildCategoryIndex(data: Categories) returns (categoryIndex: Categories)
    requires data.Valid()
    ensures categoryIndex.Valid()
    ensures categoryIndex.keys == data.keys
    ensures forall c :: c in categoryIndex.items <==> c in data.items
    ensures forall c :: c in categoryIndex.items ==> categoryIndex.items[c] == data.items[c]
  {
    categoryIndex := Empty();
    var i := 0;
    while i < |data.keys|
      invariant 0 <= i <= |data.keys|
      invariant categoryIndex.Valid()
      invariant categoryIndex.keys == data.keys[..i]
      invariant forall c :: c in categoryIndex.items ==> c in data.items && categoryIndex.items[c] == data.items[c]
    {
      var name := data.keys[i];
      categoryIndex := categoryIndex.Put(name, data.items[name]);
      i := i + 1;
    }
  }

  /** `query_lower in key.lower()`. */
  predicate KeyHit(key: string, query: string)
    ensures query == [] ==> KeyHit(key, query)
    ensures Lower(key) == Lower(query) ==> KeyHit(key, query)
  {
    assert OccursAt(Lower(key), [], 0);
    assert Lower(key) == Lower(query) ==> OccursAt(Lower(key), Lower(query), 0);

    Contains(Lower(key), Lower(query))
  }

  predicate HasAcronyms(s: seq<Entry>)
  {
    forall i :: 0 <= i < |s| ==> s[i].acronym.Some?
  }

  /** Non-decreasing by acronym, as `sort(key=lambda e: e["acronym"])` leaves it. */
  predicate SortedByAcronym(s: seq<Entry>)
  {
    HasAcronyms(s) && forall i, j :: 0 <= i < j < |s| ==> LexLe(s[i].acronym.value, s[j].acronym.value)
  }

  lemma SortedCons(x: Entry, s: seq<Entry>)
    requires x.acronym.Some? && SortedByAcronym(s)
    requires forall i :: 0 <= i < |s| ==> LexLe(x.acronym.value, s[i].acronym.value)
    ensures SortedByAcronym([x] + s)
  {
  }

  function InsertByAcronym(e: Entry, s: seq<Entry>): (r: seq<Entry>)
    requires e.acronym.Some? && SortedByAcronym(s)
    ensures SortedByAcronym(r)
    ensures multiset(r) == multiset(s) + multiset{e}
    decreases |s|
  {
    if s == [] then [e]
    else if LexLe(e.acronym.value, s[0].acronym.value) then
      InsertFront(e, s);
      [e] + s
    else
      var r := InsertByAcronym(e, s[1..]);
      InsertBehind(e, s, r);
      assert s == [s[0]] + s[1..];
      [s[0]] + r
  }

  lemma InsertFront(e: Entry, s: seq<Entry>)
    requires e.acronym.Some? && SortedByAcronym(s) && s != []
    requires LexLe(e.acronym.value, s[0].acronym.value)
    ensures SortedByAcronym([e] + s)
  {
    forall i | 0 <= i < |s| ensures LexLe(e.acronym.value, s[i].acronym.value) {
      if i > 0 {
        LexLeTrans(e.acronym.value, s[0].acronym.value, s[i].acronym.value);
      }
    }
    SortedCons(e, s);
  }

  lemma InsertBehind(e: Entry, s: seq<Entry>, r: seq<Entry>)
    requires e.acronym.Some? && SortedByAcronym(s) && s != []
    requires !LexLe(e.acronym.value, s[0].acronym.value)
    requires SortedByAcronym(r) && multiset(r) == multiset(s[1..]) + multiset{e}
    ensures SortedByAcronym([s[0]] + r)
  {
    forall i | 0 <= i < |r| ensures LexLe(s[0].acronym.value, r[i].acronym.value) {
      assert r[i] in multiset(r);
      if r[i] == e {
        LexLeTotal(e.acronym.value, s[0].acronym.value);
      } else {
        assert r[i] in s[1..];
        var j :| 0 <= j < |s[1..]| && s[1..][j] == r[i];
        assert s[j + 1] == r[i];
      }
    }
    SortedCons(s[0], r);
  }

  /** The sort of `results.sort(key=lambda e: e["acronym"])`: the same
      entries, ordered by acronym. */
  function SortByAcronym(s: seq<Entry>): (r: seq<Entry>)
    requires HasAcronyms(s)
    ensures SortedByAcronym(r)
    ensures multiset(r) == multiset(s)
    decreases |s|
  {
    if s == [] then []
    else
      assert s == [s[0]] + s[1..];
      InsertByAcronym(s[0], SortByAcronym(s[1..]))
  }

  /** `search_acronyms`: the entries whose key contains the query, ignoring
      case, each once, sorted by acronym; a `KeyError` when one of them has
      no acronym to sort by. */
  method SearchAcronyms(index: Dict<string, Entry>, query: string) returns (r: Result<seq<Entry>>)
    requires index.Valid()
    ensures r.Err? <==> exists k :: k in index.items && KeyHit(k, query) && index.items[k].acronym.None?
    ensures r.Err? ==> r.error == KeyError("acronym")
    ensures r.Ok? ==> forall e :: e in r.value <==> Hits(index, query, e)
    ensures r.Ok? ==> Distinct(r.value) && SortedByAcronym(r.value)
  {
    var queryLower := Lower(query);
    var results: seq<Entry> := [];
    var i := 0;
    while i < |index.keys|
      invariant 0 <= i <= |index.keys|
      invariant Distinct(results)
      invariant forall e :: e in results <==> HitBefore(index, query, i, e)
    {
      var key := index.keys[i];
      var entry := index.items[key];
      if Contains(Lower(key), queryLower) && entry !in results {
        results := results + [entry];
      }
      forall e ensures HitBefore(index, query, i + 1, e) <==> HitBefore(index, query, i, e) || (KeyHit(key, query) && entry == e) {
        if HitBefore(index, query, i + 1, e) {
          var t :| 0 <= t < i + 1 && KeyHit(index.keys[t], query) && index.items[index.keys[t]] == e;
          if t < i {
            assert HitBefore(index, query, i, e);
          }
        }
      }
      i := i + 1;
    }
    if exists e | e in results :: e.acronym.None? {
      var e :| e in results && e.acronym.None?;
      HitAnywhere(index, query, e);
      r := Err(KeyError("acronym"));
    } else {
      r := Ok(SortByAcronym(results));
      DistinctPerm(results, r.value);
      forall e ensures e in r.value <==> Hits(index, query, e) {
        assert e in r.value <==> e in multiset(r.value);
        HitAnywhere(index, query, e);
      }
      forall k | k in index.items && KeyHit(k, query) ensures index.items[k].acronym.Some? {
        HitAnywhere(index, query, index.items[k]);
      }
    }
  }

  /** Some key that the query hits maps to `e`. */
  ghost predicate Hits(index: Dict<string, Entry>, query: string, e: Entry)
  {
    exists k :: k in index.items && KeyHit(k, query) && index.items[k] == e
  }

  /** Some key among the first `n` of the index order is hit and maps to `e`. */
  ghost predicate HitBefore(index: Dict<string, Entry>, query: string, n: int, e: Entry)
    requires index.Valid() && n <= |index.keys|
  {
    exists t :: 0 <= t < n && KeyHit(index.keys[t], query) && index.items[index.keys[t]] == e
  }

  lemma HitAnywhere(index: Dict<string, Entry>, query: string, e: Entry)
    requires index.Valid()
    ensures HitBefore(index, query, |index.keys|, e) <==> Hits(index, query, e)
  {
    if Hits(index, query, e) {
      var k :| k in index.items && KeyHit(k, query) && index.items[k] == e;
      var t :| 0 <= t < |index.keys| && index.keys[t] == k;
    }
  }
}
