/** acro.py: the loaded document, the field formatter of the entry display,
    the fuzzy search pool and the three-step lookup of the command line. */
module Acro {
  import opened Base
  import opened Seqs
  import opened Text
  import opened Dicts
  import opened Entries
  import opened Libidx

  // ------------------------------------------------------------------
  // Display
  // ------------------------------------------------------------------

  /** `entry.get(field) or "None"`: the stored value when it is truthy,
      the text "None" otherwise; never blank, never invented. */
  function Fmt(e: Entry, f: Field): (v: Value)
    ensures Truthy(v)
    ensures Get(e, f) == Some(v) || v == Str("None")
    ensures Get(e, f).Some? && Truthy(Get(e, f).value) ==> Get(e, f) == Some(v)
  {
    var g := Get(e, f);
    if g.Some? && Truthy(g.value) then g.value else Str("None")
  }

  // ------------------------------------------------------------------
  // Loading
  // ------------------------------------------------------------------

  /** The root of a parsed YAML document, as far as the program looks at it. */
  datatype Document =
    | ListRoot(entries: seq<Entry>)
    | MapRoot(categories: Categories)
    | ScalarRoot(text: string)
    | NullRoot

  ghost predicate WellFormed(doc: Document)
  {
    doc.MapRoot? ==> doc.categories.Valid()
  }

  /** The root rewrite of `load_yaml`: a bare list becomes the one category
      "default"; every other root is returned as it is. */
  function NormaliseRoot(doc: Document): (r: Document)
    requires WellFormed(doc)
    ensures WellFormed(r) && !r.ListRoot?
    ensures doc.ListRoot? ==> r.MapRoot? && r.categories.keys == ["default"] && Flatten(r.categories) == doc.entries
    ensures !doc.ListRoot? ==> r == doc
  {
    match doc
    case ListRoot(es) =>
      var d := Empty().Put("default", es);
      assert ["default"][..0] == [];
      MapRoot(d)
    case _ => doc
  }

  /** The catalog `main` hands to `build_acronym_index`: the normalised root
      when it is a mapping; otherwise `.values()` is missing. */
  function LoadCatalog(doc: Document): (r: Result<Categories>)
    requires WellFormed(doc)
    ensures r.Ok? ==> r.value.Valid()
    ensures doc.ListRoot? ==> r.Ok? && r.value.keys == ["default"] && Flatten(r.value) == doc.entries
    ensures doc.MapRoot? ==> r == Ok(doc.categories)
    ensures doc.ScalarRoot? || doc.NullRoot? ==> r == Err(AttributeError("values"))
  {
    match NormaliseRoot(doc)
    case MapRoot(d) => Ok(d)
    case _ => Err(AttributeError("values"))
  }

  // ------------------------------------------------------------------
  // The fuzzy search pool
  // ------------------------------------------------------------------

  /** `text.upper().split()` when `text` is truthy, nothing otherwise. */
  function TextWords(text: Option<string>): (ws: seq<string>)
    ensures forall i :: 0 <= i < |ws| ==> IsToken(ws[i])
    ensures text.None? || text.value == "" ==> ws == []
  {
    if text.Some? && text.value != "" then Split(Upper(text.value)) else []
  }

  /** The search terms of the entry filed under `ac`, in the order they are
      assigned: the acronym, the aliases, the related acronyms, then the
      words of the definition, the description and the category. */
  function EntryTerms(ac: string, e: Entry): (ts: seq<string>)
    ensures ts != [] && ts[0] == ac
  {
    [ac] + UpperAll(OrEmpty(e.aliases)) + UpperAll(OrEmpty(e.relatedAcronyms))
      + TextWords(e.definition) + TextWords(e.description) + TextWords(e.category)
  }

  /** Each term paired with the acronym it maps back to. */
  function Tag(ts: seq<string>, ac: string): (ps: seq<(string, string)>)
    ensures |ps| == |ts| && forall i :: 0 <= i < |ts| ==> ps[i] == (ts[i], ac)
    ensures Firsts(ps) == ts
  {
    seq(|ts|, i requires 0 <= i < |ts| => (ts[i], ac))
  }

  /** How an entry's search terms are drawn from it. */
  type Extractor = (string, Entry) -> seq<string>

  /** Every assignment `search_pool[term] = ac` made while visiting the keys
      `ks`, with the terms of each entry drawn by `terms`. */
  function PoolPairs(index: Dict<string, Entry>, ks: seq<string>, terms: Extractor): seq<(string, string)>
    requires forall i :: 0 <= i < |ks| ==> ks[i] in index.items
    decreases |ks|
  {
    if ks == [] then []
    else
      var ac := ks[|ks| - 1];
      PoolPairs(index, ks[..|ks| - 1], terms) + Tag(terms(ac, index.items[ac]), ac)
  }

  /** The finished `search_pool`: term -> acronym, terms in order of first assignment. */
  function SearchPool(index: Dict<string, Entry>): (pool: Dict<string, string>)
    requires index.Valid()
    ensures pool.Valid()
    ensures pool.keys == Dedup(Firsts(PoolPairs(index, index.keys, EntryTerms)))
  {
    var ps := PoolPairs(index, index.keys, EntryTerms);
    PutAllOrder(ps);
    PutAll(Empty(), ps)
  }

  /** Every assignment names a visited acronym and one of its own terms. */
  lemma {:induction false} PoolPairsOwners(index: Dict<string, Entry>, ks: seq<string>, terms: Extractor)
    requires forall i :: 0 <= i < |ks| ==> ks[i] in index.items
    ensures forall i :: 0 <= i < |PoolPairs(index, ks, terms)| ==> OwnedPair(index, ks, terms, PoolPairs(index, ks, terms)[i])
    decreases |ks|
  {
    if ks != [] {
      var p := ks[..|ks| - 1];
      PoolPairsOwners(index, p, terms);
      var ps := PoolPairs(index, ks, terms);
      var front := PoolPairs(index, p, terms);
      forall i | 0 <= i < |ps| ensures OwnedPair(index, ks, terms, ps[i]) {
        if i < |front| {
          assert ps[i] == front[i];
          assert OwnedPair(index, p, terms, front[i]);
        }
      }
    }
  }

  /** The pair assigns a term of the entry of a key of `ks` to that key. */
  ghost predicate OwnedPair(index: Dict<string, Entry>, ks: seq<string>, terms: Extractor, pair: (string, string))
  {
    pair.1 in ks && pair.1 in index.items && pair.0 in terms(pair.1, index.items[pair.1])
  }

  /** `t` is a search term of the entry filed under `ks[i]`. */
  ghost predicate TermOf(index: Dict<string, Entry>, ks: seq<string>, terms: Extractor, t: string, i: int)
  {
    0 <= i < |ks| && ks[i] in index.items && t in terms(ks[i], index.items[ks[i]])
  }

  /** A term is assigned iff it is a term of one of the visited acronyms. */
  lemma {:induction false} PoolPairsTerms(index: Dict<string, Entry>, ks: seq<string>, terms: Extractor, t: string)
    requires forall i :: 0 <= i < |ks| ==> ks[i] in index.items
    ensures t in Firsts(PoolPairs(index, ks, terms)) <==> exists i :: TermOf(index, ks, terms, t, i)
    decreases |ks|
  {
    if ks != [] {
      var n := |ks| - 1;
      var p := ks[..n];
      PoolPairsTerms(index, p, terms, t);
      var last := terms(ks[n], index.items[ks[n]]);
      assert Firsts(PoolPairs(index, ks, terms)) == Firsts(PoolPairs(index, p, terms)) + last;
      if t in Firsts(PoolPairs(index, ks, terms)) {
        if t in Firsts(PoolPairs(index, p, terms)) {
          var i :| TermOf(index, p, terms, t, i);
          assert p[i] == ks[i];
          assert TermOf(index, ks, terms, t, i);
        } else {
          assert TermOf(index, ks, terms, t, n);
        }
      }
      if exists i :: TermOf(index, ks, terms, t, i) {
        var i :| TermOf(index, ks, terms, t, i);
        if i < n {
          assert p[i] == ks[i];
          assert TermOf(index, p, terms, t, i);
        }
      }
    }
  }

  /** What the pool holds: its terms are exactly the terms of the indexed
      entries, every acronym is a term, every term maps back to the last
      indexed acronym that owns it, and the candidates come in order of
      first assignment. */
  lemma SearchPoolFacts(index: Dict<string, Entry>, t: string)
    requires index.Valid()
    ensures t in SearchPool(index).items <==> exists ac :: ac in index.items && t in EntryTerms(ac, index.items[ac])
    ensures t in index.items ==> t in SearchPool(index).items
    ensures t in SearchPool(index).items ==>
      exists j :: LastTermOf(index, index.keys, EntryTerms, t, j) && SearchPool(index).items[t] == index.keys[j]
    ensures SearchPool(index).keys == Dedup(Firsts(PoolPairs(index, index.keys, EntryTerms)))
  {
    SearchPoolTerms(index, t);
    SearchPoolOwner(index, t);
    PutAllOrder(PoolPairs(index, index.keys, EntryTerms));
  }

  lemma SearchPoolTerms(index: Dict<string, Entry>, t: string)
    requires index.Valid()
    ensures t in SearchPool(index).items <==> exists ac :: ac in index.items && t in EntryTerms(ac, index.items[ac])
    ensures t in index.items ==> t in SearchPool(index).items
  {
    var ps := PoolPairs(index, index.keys, EntryTerms);
    PutAllKeys(Empty(), ps, t);
    PoolPairsTerms(index, index.keys, EntryTerms, t);
    if exists i :: TermOf(index, index.keys, EntryTerms, t, i) {
      var i :| TermOf(index, index.keys, EntryTerms, t, i);
      assert index.keys[i] in index.items && t in EntryTerms(index.keys[i], index.items[index.keys[i]]);
    }
    if exists ac :: ac in index.items && t in EntryTerms(ac, index.items[ac]) {
      var ac :| ac in index.items && t in EntryTerms(ac, index.items[ac]);
      var i :| 0 <= i < |index.keys| && index.keys[i] == ac;
      assert TermOf(index, index.keys, EntryTerms, t, i);
    }
    if t in index.items {
      assert t in EntryTerms(t, index.items[t]);
    }
  }

  /** The owner of a pooled term is the last indexed acronym, in index
      order, whose entry has that term. */
  lemma SearchPoolOwner(index: Dict<string, Entry>, t: string)
    requires index.Valid()
    ensures t in SearchPool(index).items ==>
      exists j :: LastTermOf(index, index.keys, EntryTerms, t, j) && SearchPool(index).items[t] == index.keys[j]
    ensures t in SearchPool(index).items ==>
      var ac := SearchPool(index).items[t]; ac in index.items && t in EntryTerms(ac, index.items[ac])
  {
    var ps := PoolPairs(index, index.keys, EntryTerms);
    if t in SearchPool(index).items {
      PutAllKeys(Empty(), ps, t);
      PoolPairsTerms(index, index.keys, EntryTerms, t);
      var i :| TermOf(index, index.keys, EntryTerms, t, i);
      LastTermExists(index, index.keys, EntryTerms, t, i);
      var j :| LastTermOf(index, index.keys, EntryTerms, t, j);
      SearchPoolLastOwner(index, t, j);
    }
  }

  /** `ks[j]` is the last key of `ks` whose entry has the term `t`. */
  ghost predicate LastTermOf(index: Dict<string, Entry>, ks: seq<string>, terms: Extractor, t: string, j: int)
  {
    TermOf(index, ks, terms, t, j) && forall j' :: j < j' < |ks| ==> !TermOf(index, ks, terms, t, j')
  }

  /** Later entries win: the pool sends `t` to the last acronym in index
      order whose entry has it, whatever earlier entries assigned. */
  lemma SearchPoolLastOwner(index: Dict<string, Entry>, t: string, j: int)
    requires index.Valid()
    requires LastTermOf(index, index.keys, EntryTerms, t, j)
    ensures t in SearchPool(index).items && SearchPool(index).items[t] == index.keys[j]
  {
    PoolLastOwner(index, index.keys, EntryTerms, t, j);
  }

  lemma {:induction false} PoolLastOwner(index: Dict<string, Entry>, ks: seq<string>, terms: Extractor, t: string, j: int)
    requires forall i :: 0 <= i < |ks| ==> ks[i] in index.items
    requires LastTermOf(index, ks, terms, t, j)
    ensures t in PutAll(Empty(), PoolPairs(index, ks, terms)).items
    ensures PutAll(Empty(), PoolPairs(index, ks, terms)).items[t] == ks[j]
    decreases |ks|
  {
    var n := |ks| - 1;
    var p := ks[..n];
    var front := PoolPairs(index, p, terms);
    var ts := terms(ks[n], index.items[ks[n]]);
    var last := Tag(ts, ks[n]);
    assert PoolPairs(index, ks, terms) == front + last;
    PutAllAppend(Empty(), front, last);
    var d := PutAll(Empty(), front);
    if j == n {
      PutAllLastWins(d, last, t);
      var i :| 0 <= i < |last| && LastAssigns(last, t, i) && PutAll(d, last).items[t] == last[i].1;
      assert last[i] == (ts[i], ks[n]);
    } else {
      LastTermShrink(index, ks, terms, t, j);
      PoolLastOwner(index, p, terms, t, j);
      assert !TermOf(index, ks, terms, t, n);
      PutAllUntouched(d, last, t);
    }
  }

  /** Dropping a later key keeps `ks[j]` the last owner of `t`. */
  lemma LastTermShrink(index: Dict<string, Entry>, ks: seq<string>, terms: Extractor, t: string, j: int)
    requires LastTermOf(index, ks, terms, t, j) && j < |ks| - 1
    ensures LastTermOf(index, ks[..|ks| - 1], terms, t, j)
  {
    var p := ks[..|ks| - 1];
    assert p[j] == ks[j];
    forall j' | j < j' < |p| ensures !TermOf(index, p, terms, t, j') {
      assert p[j'] == ks[j'];
      assert !TermOf(index, ks, terms, t, j');
    }
  }

  /** A term some entry has has a last owner. */
  lemma {:induction false} LastTermExists(index: Dict<string, Entry>, ks: seq<string>, terms: Extractor, t: string, i: int)
    requires TermOf(index, ks, terms, t, i)
    ensures exists j :: LastTermOf(index, ks, terms, t, j)
    decreases |ks| - i
  {
    if exists j' :: i < j' < |ks| && TermOf(index, ks, terms, t, j') {
      var j' :| i < j' < |ks| && TermOf(index, ks, terms, t, j');
      LastTermExists(index, ks, terms, t, j');
    } else {
      assert LastTermOf(index, ks, terms, t, i);
    }
  }

  function IdsEntry(): Entry
  {
    Entry(Some("IDS"), None, None, None, None, None, None, None)
  }

  function NidsEntry(): Entry
  {
    Entry(Some("NIDS"), None, None, None, Some(["ids"]), None, None, None)
  }

  /** An index where "NIDS" is filed after "IDS" and lists the alias "ids". */
  function CollisionIndex(): (index: Dict<string, Entry>)
    ensures index.Valid() && index.keys == ["IDS", "NIDS"]
    ensures index.items == map["IDS" := IdsEntry(), "NIDS" := NidsEntry()]
  {
    Empty().Put("IDS", IdsEntry()).Put("NIDS", NidsEntry())
  }

  lemma IdsTerms()
    ensures EntryTerms("IDS", IdsEntry()) == ["IDS"]
  {
    var e := IdsEntry();
    assert UpperAll(OrEmpty(e.aliases)) == [] && UpperAll(OrEmpty(e.relatedAcronyms)) == [];
    assert TextWords(e.definition) == [] && TextWords(e.description) == [] && TextWords(e.category) == [];
  }

  lemma NidsTerms()
    ensures EntryTerms("NIDS", NidsEntry()) == ["NIDS", "IDS"]
  {
    var e := NidsEntry();
    UpperIds();
    assert UpperAll(OrEmpty(e.aliases)) == ["IDS"] by {
      assert ["ids"][..0] == [];
    }
    assert UpperAll(OrEmpty(e.relatedAcronyms)) == [];
    assert TextWords(e.definition) == [] && TextWords(e.description) == [] && TextWords(e.category) == [];
  }

  lemma UpperIds()
    ensures Upper("ids") == "IDS"
  {
    var r := Upper("ids");
    assert r[0] == UpperChar('i') && r[1] == UpperChar('d') && r[2] == UpperChar('s');
  }

  /** Later assignments win across entries too: in `CollisionIndex` the pool
      sends the term "IDS" to "NIDS", so the acronym "IDS" itself no longer
      leads back to "IDS". */
  lemma PoolCollision()
    ensures "IDS" in SearchPool(CollisionIndex()).items
    ensures SearchPool(CollisionIndex()).items["IDS"] == "NIDS"
  {
    var ps := [("IDS", "IDS"), ("NIDS", "NIDS"), ("IDS", "NIDS")];
    CollisionPairs();
    assert ps[..2][..1][..0] == [];
    assert PutAll(Empty(), ps) == PutAll(Empty(), ps[..2]).Put("IDS", "NIDS");
  }

  lemma CollisionPairs()
    ensures PoolPairs(CollisionIndex(), CollisionIndex().keys, EntryTerms) == [("IDS", "IDS"), ("NIDS", "NIDS"), ("IDS", "NIDS")]
  {
    var index := CollisionIndex();
    IdsPairs();
    NidsPairs();
    assert index.keys[..1] == ["IDS"];
  }

  lemma IdsPairs()
    ensures PoolPairs(CollisionIndex(), ["IDS"], EntryTerms) == [("IDS", "IDS")]
  {
    IdsTerms();
    assert ["IDS"][..0] == [];
    assert EntryTerms("IDS", CollisionIndex().items["IDS"]) == ["IDS"];
  }

  lemma NidsPairs()
    ensures Tag(EntryTerms("NIDS", NidsEntry()), "NIDS") == [("NIDS", "NIDS"), ("IDS", "NIDS")]
  {
    NidsTerms();
  }

  /** `search_pool[term] = ac` for each term in turn. */
  method AssignAll(pool: Dict<string, string>, terms: seq<string>, ac: string) returns (r: Dict<string, string>)
    requires pool.Valid()
    ensures r == PutAll(pool, Tag(terms, ac))
  {
    r := pool;
    var j := 0;
    while j < |terms|
      invariant 0 <= j <= |terms|
      invariant r == PutAll(pool, Tag(terms[..j], ac))
    {
      assert Tag(terms[..j + 1], ac)[..j] == Tag(terms[..j], ac);
      r := r.Put(terms[j], ac);
      j := j + 1;
    }
    assert terms[..j] == terms;
  }

  /** The words of one text field, when the field is truthy. */
  method AssignWords(pool: Dict<string, string>, text: Option<string>, ac: string) returns (r: Dict<string, string>)
    requires pool.Valid()
    ensures r == PutAll(pool, Tag(TextWords(text), ac))
  {
    if text.Some? && text.value != "" {
      r := AssignAll(pool, Split(Upper(text.value)), ac);
    } else {
      r := pool;
    }
  }

  lemma PutAllTagAppend(d: Dict<string, string>, a: seq<string>, b: seq<string>, ac: string)
    requires d.Valid()
    ensures PutAll(d, Tag(a + b, ac)) == PutAll(PutAll(d, Tag(a, ac)), Tag(b, ac))
  {
    assert Tag(a + b, ac) == Tag(a, ac) + Tag(b, ac);
    PutAllAppend(d, Tag(a, ac), Tag(b, ac));
  }

  /** The body of the pool-building loop for one index entry: the acronym,
      its aliases, its related acronyms, then the words of its text fields. */
  method AssignEntry(pool: Dict<string, string>, ac: string, entry: Entry) returns (r: Dict<string, string>)
    requires pool.Valid()
    ensures r == PutAll(pool, Tag(EntryTerms(ac, entry), ac))
  {
    ghost var done: seq<string> := [ac];
    r := pool.Put(ac, ac);
    assert r == PutAll(pool, Tag(done, ac));
    var aliases := UpperAll(OrEmpty(entry.aliases));
    r := AssignAll(r, aliases, ac);
    PutAllTagAppend(pool, done, aliases, ac);
    done := done + aliases;
    var related := UpperAll(OrEmpty(entry.relatedAcronyms));
    r := AssignAll(r, related, ac);
    PutAllTagAppend(pool, done, related, ac);
    done := done + related;
    r := AssignWords(r, entry.definition, ac);
    PutAllTagAppend(pool, done, TextWords(entry.definition), ac);
    done := done + TextWords(entry.definition);
    r := AssignWords(r, entry.description, ac);
    PutAllTagAppend(pool, done, TextWords(entry.description), ac);
    done := done + TextWords(entry.description);
    r := AssignWords(r, entry.category, ac);
    PutAllTagAppend(pool, done, TextWords(entry.category), ac);
    done := done + TextWords(entry.category);
    assert done == EntryTerms(ac, entry);
  }

  /** Visiting one more key adds its entry's tagged terms. */
  lemma PoolStep(index: Dict<string, Entry>, ks: seq<string>, i: nat, terms: Extractor)
    requires forall j :: 0 <= j < |ks| ==> ks[j] in index.items
    requires i < |ks|
    ensures PutAll(Empty(), PoolPairs(index, ks[..i + 1], terms))
         == PutAll(PutAll(Empty(), PoolPairs(index, ks[..i], terms)), Tag(terms(ks[i], index.items[ks[i]]), ks[i]))
  {
    assert ks[..i + 1][..i] == ks[..i];
    PutAllAppend(Empty(), PoolPairs(index, ks[..i], terms), Tag(terms(ks[i], index.items[ks[i]]), ks[i]));
  }

  /** The pool-building loops of `fuzzy_search`. */
  method BuildSearchPool(index: Dict<string, Entry>) returns (pool: Dict<string, string>)
    requires index.Valid()
    ensures pool == SearchPool(index)
  {
    pool := Empty();
    var i := 0;
    while i < |index.keys|
      invariant 0 <= i <= |index.keys|
      invariant pool == PutAll(Empty(), PoolPairs(index, index.keys[..i], EntryTerms))
    {
      var ac := index.keys[i];
      pool := AssignEntry(pool, ac, index.items[ac]);
      PoolStep(index, index.keys, i, EntryTerms);
      i := i + 1;
    }
    assert index.keys[..i] == index.keys;
  }

  // ------------------------------------------------------------------
  // Fuzzy search
  // ------------------------------------------------------------------

  /** The close-match oracle only ever returns candidates it was given. */
  ghost predicate PicksCandidates(closeMatches: (string, seq<string>, int) -> seq<string>)
  {
    forall q, cs, n, m :: m in closeMatches(q, cs, n) ==> m in cs
  }

  /** `[search_pool[m] for m in ms]`. */
  function Owners(pool: Dict<string, string>, ms: seq<string>): (r: seq<string>)
    requires forall i :: 0 <= i < |ms| ==> ms[i] in pool.items
    ensures |r| == |ms| && forall i :: 0 <= i < |ms| ==> r[i] == pool.items[ms[i]]
  {
    seq(|ms|, i requires 0 <= i < |ms| => pool.items[ms[i]])
  }

  /** The terms the oracle picks for `query` out of the pool, `2 * limit` at most asked. */
  function PickedTerms(index: Dict<string, Entry>, query: string, limit: int,
                   closeMatches: (string, seq<string>, int) -> seq<string>): (ms: seq<string>)
    requires index.Valid() && PicksCandidates(closeMatches)
    ensures forall i :: 0 <= i < |ms| ==> ms[i] in SearchPool(index).items
  {
    var ms := closeMatches(Upper(query), SearchPool(index).keys, limit * 2);
    assert forall i :: 0 <= i < |ms| ==> ms[i] in SearchPool(index).keys by {
      forall i | 0 <= i < |ms| ensures ms[i] in SearchPool(index).keys {
        assert ms[i] in ms;
      }
    }
    ms
  }

  /** What `fuzzy_search(index, query, limit)` returns: the acronyms owning
      the matched terms, each once, in order of first match, at most `limit`;
      a `ValueError` from the oracle when `limit` is not positive. */
  function FuzzyResult(index: Dict<string, Entry>, query: string, limit: int,
                       closeMatches: (string, seq<string>, int) -> seq<string>): (r: Result<seq<string>>)
    requires index.Valid() && PicksCandidates(closeMatches)
    ensures r.Err? <==> limit <= 0
    ensures r.Err? ==> r.error.ValueError?
  {
    if limit <= 0 then Err(ValueError("n must be > 0"))
    else Ok(Take(Dedup(Owners(SearchPool(index), PickedTerms(index, query, limit, closeMatches))), limit))
  }

  /** Some matched term maps to `a`. */
  ghost predicate OwnerOf(pool: Dict<string, string>, ms: seq<string>, a: string)
    requires forall i :: 0 <= i < |ms| ==> ms[i] in pool.items
  {
    exists j :: 0 <= j < |ms| && pool.items[ms[j]] == a
  }

  /** The first `limit` distinct owners of the matched terms: distinct, each
      an owner, and all of the owners when fewer than `limit` come back. */
  lemma FirstOwners(pool: Dict<string, string>, ms: seq<string>, limit: int)
    requires forall i :: 0 <= i < |ms| ==> ms[i] in pool.items
    requires limit > 0
    ensures var acs := Take(Dedup(Owners(pool, ms)), limit);
      && |acs| <= limit && Distinct(acs)
      && (forall i :: 0 <= i < |acs| ==> OwnerOf(pool, ms, acs[i]))
      && (|acs| < limit ==> forall j :: 0 <= j < |ms| ==> pool.items[ms[j]] in acs)
  {
    var owners := Owners(pool, ms);
    var all := Dedup(owners);
    var acs := Take(all, limit);
    forall i | 0 <= i < |acs| ensures OwnerOf(pool, ms, acs[i]) {
      assert acs[i] == all[i];
      var j :| 0 <= j < |owners| && owners[j] == all[i];
    }
    forall i, j | 0 <= i < j < |acs| ensures acs[i] != acs[j] {
      assert acs[i] == all[i] && acs[j] == all[j];
    }
    if |acs| < limit {
      assert acs == all;
      forall j | 0 <= j < |ms| ensures pool.items[ms[j]] in acs {
        assert owners[j] in owners;
      }
    }
  }

  /** The meaning of a fuzzy result: at most `limit` distinct indexed
      acronyms, each owning a matched term; when fewer than `limit` come
      back, every owner of a matched term is among them; no match, no result. */
  lemma FuzzyResultMeaning(index: Dict<string, Entry>, query: string, limit: int,
                           closeMatches: (string, seq<string>, int) -> seq<string>)
    requires index.Valid() && PicksCandidates(closeMatches) && limit > 0
    ensures var acs := FuzzyResult(index, query, limit, closeMatches).value;
      var pool := SearchPool(index);
      var ms := PickedTerms(index, query, limit, closeMatches);
      && |acs| <= limit && Distinct(acs)
      && (forall i :: 0 <= i < |acs| ==> acs[i] in index.items && OwnerOf(pool, ms, acs[i]))
      && (|acs| < limit ==> forall j :: 0 <= j < |ms| ==> pool.items[ms[j]] in acs)
      && (ms == [] ==> acs == [])
  {
    var acs := FuzzyResult(index, query, limit, closeMatches).value;
    var pool := SearchPool(index);
    var ms := PickedTerms(index, query, limit, closeMatches);
    FirstOwners(pool, ms, limit);
    OwnersIndexed(index, ms);
  }

  /** Every matched term maps back to an indexed acronym. */
  lemma OwnersIndexed(index: Dict<string, Entry>, ms: seq<string>)
    requires index.Valid()
    requires forall j :: 0 <= j < |ms| ==> ms[j] in SearchPool(index).items
    ensures forall a :: OwnerOf(SearchPool(index), ms, a) ==> a in index.items
  {
    forall a | OwnerOf(SearchPool(index), ms, a) ensures a in index.items {
      var j :| 0 <= j < |ms| && SearchPool(index).items[ms[j]] == a;
      SearchPoolOwner(index, ms[j]);
    }
  }

  /** The loop that converts matched terms to acronyms: owners in order of
      first match, each once, stopping once `limit` are collected. */
  method CollectOwners(pool: Dict<string, string>, matches: seq<string>, limit: int) returns (final: seq<string>)
    requires forall i :: 0 <= i < |matches| ==> matches[i] in pool.items
    requires limit > 0
    ensures final == Take(Dedup(Owners(pool, matches)), limit)
  {
    ghost var owners := Owners(pool, matches);
    final := [];
    var i := 0;
    while i < |matches|
      invariant 0 <= i <= |matches|
      invariant final == Dedup(owners[..i])
      invariant |final| < limit
    {
      var ac := pool.items[matches[i]];
      DedupSnoc(owners, i);
      if ac !in final {
        final := final + [ac];
      }
      if |final| >= limit {
        DedupPrefix(owners, i + 1);
        TakePrefix(final, Dedup(owners), limit);
        return;
      }
      i := i + 1;
    }
    assert owners[..i] == owners;
  }

  /** `fuzzy_search`: builds the pool, asks the oracle for `2 * limit`
      terms, and collects their owners until `limit` are found. */
  method FuzzySearch(index: Dict<string, Entry>, query: string, limit: int,
                     closeMatches: (string, seq<string>, int) -> seq<string>) returns (r: Result<seq<string>>)
    requires index.Valid() && PicksCandidates(closeMatches)
    ensures r == FuzzyResult(index, query, limit, closeMatches)
  {
    var q := Upper(query);
    var pool := BuildSearchPool(index);
    if limit <= 0 {
      return Err(ValueError("n must be > 0"));
    }
    var matches := closeMatches(q, pool.keys, limit * 2);
    assert matches == PickedTerms(index, query, limit, closeMatches);
    var final := CollectOwners(pool, matches, limit);
    return Ok(final);
  }

  // ------------------------------------------------------------------
  // Lookup
  // ------------------------------------------------------------------

  /** `args.query.strip().upper()`. */
  function ExactQuery(raw: string): (q: string)
    ensures forall i :: 0 <= i < |q| ==> !IsAsciiLower(q[i])
    ensures q == [] || (!IsSpace(q[0]) && !IsSpace(q[|q| - 1]))
  {
    Upper(Strip(raw))
  }

  /** `any(a.upper() == query for a in entry.get("aliases") or [])`. */
  predicate AliasMatch(e: Entry, q: string)
    ensures AliasMatch(e, q) <==> q in UpperAll(OrEmpty(e.aliases))
  {
    var xs := OrEmpty(e.aliases);
    assert forall a :: a in xs ==> Upper(a) in UpperAll(xs) by {
      forall a | a in xs ensures Upper(a) in UpperAll(xs) {
        var i :| 0 <= i < |xs| && xs[i] == a;
        assert UpperAll(xs)[i] == Upper(a);
      }
    }
    assert q in UpperAll(xs) ==> exists a :: a in xs && Upper(a) == q by {
      if q in UpperAll(xs) {
        var i :| 0 <= i < |xs| && UpperAll(xs)[i] == q;
        assert xs[i] in xs;
      }
    }

    exists a :: a in OrEmpty(e.aliases) && Upper(a) == q
  }

  /** `ks[j]` is the first key of `ks` whose entry has an alias matching `q`. */
  ghost predicate FirstAliasAt(index: Dict<string, Entry>, ks: seq<string>, q: string, j: int)
    requires forall i :: 0 <= i < |ks| ==> ks[i] in index.items
  {
    0 <= j < |ks| && AliasMatch(index.items[ks[j]], q)
    && forall t :: 0 <= t < j ==> !AliasMatch(index.items[ks[t]], q)
  }

  /** The first key of `ks`, in order, whose entry has an alias matching `q`. */
  function FirstAliasOwner(index: Dict<string, Entry>, ks: seq<string>, q: string): (r: Option<string>)
    requires forall i :: 0 <= i < |ks| ==> ks[i] in index.items
    ensures r.None? <==> forall i :: 0 <= i < |ks| ==> !AliasMatch(index.items[ks[i]], q)
    ensures r.Some? ==> r.value in ks
    ensures r.Some? ==> exists j :: FirstAliasAt(index, ks, q, j) && ks[j] == r.value
    decreases |ks|
  {
    if ks == [] then None
    else if AliasMatch(index.items[ks[0]], q) then
      assert FirstAliasAt(index, ks, q, 0);
      Some(ks[0])
    else
      var r := FirstAliasOwner(index, ks[1..], q);
      FirstAliasShift(index, ks, q, r);
      r
  }

  lemma FirstAliasShift(index: Dict<string, Entry>, ks: seq<string>, q: string, r: Option<string>)
    requires forall i :: 0 <= i < |ks| ==> ks[i] in index.items
    requires ks != [] && !AliasMatch(index.items[ks[0]], q)
    requires r.Some? ==> exists j :: FirstAliasAt(index, ks[1..], q, j) && ks[1..][j] == r.value
    ensures r.Some? ==> exists j :: FirstAliasAt(index, ks, q, j) && ks[j] == r.value
  {
    if r.Some? {
      var j :| FirstAliasAt(index, ks[1..], q, j) && ks[1..][j] == r.value;
      assert FirstAliasAt(index, ks, q, j + 1);
    }
  }

  /** What the command shows. */
  datatype Answer =
    | Show(entry: Entry)               // one entry, found exactly or by alias
    | NotFound(query: string)          // the "not found" message
    | Similar(acronyms: seq<string>)   // the fuzzy matches, each then displayed

  /** The lookup of `main` on a built index, for the cleaned query `q`: an
      exact key hit on a non-empty entry wins; otherwise the alias scan,
      unless fuzzy search was asked for; otherwise the fuzzy matches. */
  function LookupIn(index: Dict<string, Entry>, q: string, fuzzy: bool, limit: int,
                    closeMatches: (string, seq<string>, int) -> seq<string>): (r: Result<Answer>)
    requires index.Valid() && PicksCandidates(closeMatches)
    ensures r.Err? <==> !(q in index.items && NonEmpty(index.items[q])) && fuzzy && limit <= 0
    ensures r.Err? ==> r.error.ValueError?
    ensures r.Ok? && r.value.Show? ==> exists k :: k in index.items && index.items[k] == r.value.entry
    ensures r.Ok? && r.value.NotFound? ==> !fuzzy && r.value.query == q
    ensures r.Ok? && r.value.Similar? ==> fuzzy
  {
    if q in index.items && NonEmpty(index.items[q]) then Ok(Show(index.items[q]))
    else if !fuzzy then
      match FirstAliasOwner(index, index.keys, q)
      case Some(k) => Ok(Show(index.items[k]))
      case None => Ok(NotFound(q))
    else
      match FuzzyResult(index, q, limit, closeMatches)
      case Ok(acs) => Ok(Similar(acs))
      case Err(e) => Err(e)
  }

  /** Step 1: a stored key equal to the cleaned query is shown, fuzzy or not. */
  lemma LookupExact(index: Dict<string, Entry>, q: string, fuzzy: bool, limit: int,
                    closeMatches: (string, seq<string>, int) -> seq<string>)
    requires index.Valid() && PicksCandidates(closeMatches)
    requires q in index.items && index.items[q].acronym.Some?
    ensures LookupIn(index, q, fuzzy, limit, closeMatches) == Ok(Show(index.items[q]))
  {
    assert Get(index.items[q], Acronym).Some?;
  }

  /** Step 2: without `-f`, the entry shown is the first one in index order
      with an alias equal to the query up to case; when no alias matches,
      the "not found" answer names the cleaned query. */
  lemma LookupAlias(index: Dict<string, Entry>, q: string, limit: int,
                    closeMatches: (string, seq<string>, int) -> seq<string>)
    requires index.Valid() && PicksCandidates(closeMatches)
    requires !(q in index.items && NonEmpty(index.items[q]))
    ensures var r := LookupIn(index, q, false, limit, closeMatches);
      && r.Ok? && (r.value.Show? || r.value == NotFound(q))
      && (r.value.Show? ==> exists j :: FirstAliasAt(index, index.keys, q, j)
                                      && r.value.entry == index.items[index.keys[j]])
      && (r.value.NotFound? <==> forall k :: k in index.items ==> !AliasMatch(index.items[k], q))
  {
    if exists k :: k in index.items && AliasMatch(index.items[k], q) {
      var k :| k in index.items && AliasMatch(index.items[k], q);
      var i :| 0 <= i < |index.keys| && index.keys[i] == k;
    }
  }

  /** Step 3: with `-f`, the answer lists indexed acronyms only, at most
      `limit` of them, so displaying each of them cannot fail. */
  lemma LookupFuzzy(index: Dict<string, Entry>, q: string, limit: int,
                    closeMatches: (string, seq<string>, int) -> seq<string>)
    requires index.Valid() && PicksCandidates(closeMatches)
    requires !(q in index.items && NonEmpty(index.items[q]))
    ensures var r := LookupIn(index, q, true, limit, closeMatches);
      && (limit <= 0 <==> r.Err?)
      && (r.Ok? ==> r.value.Similar? && |r.value.acronyms| <= limit
                    && forall i :: 0 <= i < |r.value.acronyms| ==> r.value.acronyms[i] in index.items)
  {
    if limit > 0 {
      FuzzyResultMeaning(index, q, limit, closeMatches);
    }
  }

  /** A key holding a lower-case letter is never reached by step 1: the
      query is upper-cased while the keys keep their case. */
  lemma LowerCaseKeyNeverExact(raw: string, k: string, i: int)
    requires 0 <= i < |k| && IsAsciiLower(k[i])
    ensures ExactQuery(raw) != k
  {
  }

  /** An upper-case key without surrounding whitespace is found by step 1
      from every case variant of itself: any `v` that upper-cases to it,
      among them the key itself and its lower-case form. */
  lemma ExactQueryFixes(k: string, v: string)
    requires k != [] && !IsSpace(k[0]) && !IsSpace(k[|k| - 1])
    requires forall i :: 0 <= i < |k| ==> !IsAsciiLower(k[i])
    ensures Upper(k) == k && Upper(Lower(k)) == k
    ensures Upper(v) == k ==> ExactQuery(v) == k
  {
    assert Upper(k) == k;
    var l := Lower(k);
    assert Upper(l) == k by {
      forall i | 0 <= i < |k| ensures Upper(l)[i] == k[i] {
        if IsAsciiUpper(k[i]) {
          assert IsAsciiLower(l[i]) && UpperChar(l[i]) == k[i];
        }
      }
    }
    if Upper(v) == k {
      StripFixed(v);
    }
  }

  /** Stripping a string without surrounding whitespace keeps it. */
  lemma StripFixed(s: string)
    requires s != [] && !IsSpace(s[0]) && !IsSpace(s[|s| - 1])
    ensures Strip(s) == s
  {
    var r := Strip(s);
    var a :| 0 <= a && StrippedAt(s, r, a);
  }

  /** The alias scan of `main`: the entries in index order, the first whose
      alias list has a member equal to `q` once upper-cased. */
  method FindByAlias(index: Dict<string, Entry>, q: string) returns (found: Option<Entry>)
    requires index.Valid()
    ensures found.None? <==> forall k :: k in index.items ==> !AliasMatch(index.items[k], q)
    ensures found.Some? ==> exists j :: FirstAliasAt(index, index.keys, q, j) && found.value == index.items[index.keys[j]]
  {
    var i := 0;
    while i < |index.keys|
      invariant 0 <= i <= |index.keys|
      invariant forall t :: 0 <= t < i ==> !AliasMatch(index.items[index.keys[t]], q)
    {
      var ac := index.keys[i];
      var ent := index.items[ac];
      if AliasMatch(ent, q) {
        assert FirstAliasAt(index, index.keys, q, i);
        return Some(ent);
      }
      i := i + 1;
    }
    forall k | k in index.items ensures !AliasMatch(index.items[k], q) {
      var t :| 0 <= t < |index.keys| && index.keys[t] == k;
    }
    return None;
  }

  /** Steps 1 to 3 of `main` on the built index, for the cleaned query. */
  method LookupOnIndex(index: Dict<string, Entry>, q: string, fuzzy: bool, limit: int,
                       closeMatches: (string, seq<string>, int) -> seq<string>) returns (r: Result<Answer>)
    requires index.Valid() && PicksCandidates(closeMatches)
    ensures r == LookupIn(index, q, fuzzy, limit, closeMatches)
  {
    if q in index.items && NonEmpty(index.items[q]) {
      return Ok(Show(index.items[q]));
    }
    if !fuzzy {
      var found := FindByAlias(index, q);
      ghost var owner := FirstAliasOwner(index, index.keys, q);
      if found.Some? {
        ghost var j :| FirstAliasAt(index, index.keys, q, j) && found.value == index.items[index.keys[j]];
        ghost var j' :| FirstAliasAt(index, index.keys, q, j') && index.keys[j'] == owner.value;
        assert j == j';
        return Ok(Show(found.value));
      }
      return Ok(NotFound(q));
    }
    var results := FuzzySearch(index, q, limit, closeMatches);
    match results
    case Ok(acs) => r := Ok(Similar(acs));
    case Err(e) => r := Err(e);
  }

  /** `main` from the parsed document on: load, index, clean the query, look up. */
  method Lookup(doc: Document, raw: string, fuzzy: bool, limit: int,
                closeMatches: (string, seq<string>, int) -> seq<string>) returns (r: Result<Answer>)
    requires WellFormed(doc) && PicksCandidates(closeMatches)
    ensures LoadCatalog(doc).Err? ==> r == Err(LoadCatalog(doc).error)
    ensures LoadCatalog(doc).Ok? ==>
      r == LookupIn(AcronymIndex(LoadCatalog(doc).value), ExactQuery(raw), fuzzy, limit, closeMatches)
  {
    var query := ExactQuery(raw);
    var loaded := NormaliseRoot(doc);
    if !loaded.MapRoot? {
      return Err(AttributeError("values"));
    }
    var acronymIndex := BuildAcronymIndex(loaded.categories);
    r := LookupOnIndex(acronymIndex, query, fuzzy, limit, closeMatches);
  }
}
