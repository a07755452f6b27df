# acroman: index, search and edit layer, modelled in Dafny

This project models the acronym catalog of the `acroman` command-line tool.
The catalog maps a category name to a list of entry records. The model covers:

- **`libidx.py`**
  - `build_acronym_index`: acronym → entry, last write wins.
  - `build_category_index`.
  - `search_acronyms`: a case-insensitive substring filter, without duplicates, sorted by acronym.
- **`crud.py`**
  - `add_entry`, `update_entry` and `delete_entry`. Each changes the catalog in place.
- **`acro.py`**
  - The `fmt` fallback of `display_entry`.
  - The root rewrite of `load_yaml`.
  - `fuzzy_search`: the search pool built from several entry fields, an opaque close-match oracle, and the loop that keeps distinct owners up to `limit`.
  - The exact → alias → fuzzy lookup decision of `main`.

Files:

| file | module | contents |
|---|---|---|
| `base.dfy` | `Base` | `Option`, the `Error` kinds the source raises (`KeyError`, `ValueError`, `AttributeError`), `Result` |
| `seqs.dfy` | `Seqs` | distinctness, order-keeping de-duplication, `Take`, `Without`, multiset helpers |
| `text.dfy` | `Text` | ASCII case mapping, substring test, `strip`, `split()`, lexicographic order |
| `dicts.dfy` | `Dicts` | Python's insertion-ordered `dict` as a value (`keys` order plus `items` map), assignment and deletion, and facts about a run of assignments |
| `entries.dfy` | `Entries` | the entry record, field access and truthiness, the catalog, and its flattening in category order |
| `libidx.dfy` | `Libidx` | `libidx.py` |
| `crud.dfy` | `Crud` | `crud.py`: the catalog as a class whose methods change it in place |
| `acro.dfy` | `Acro` | `acro.py` |

Each loop of the source is a method with loop invariants. The one exception is the `for field in (...)` loop over three fixed fields at acro.py:94: `Acro.AssignEntry` unrolls it into three `AssignWords` calls, one per field, in the source's order. Most methods are proved equal to a specification function. `BuildCategoryIndex`, `SearchAcronyms` and `FindByAlias` are instead specified by the properties of their result. Lemmas then prove what the source promises about the specification functions.

Python dicts and lists are values here. An `Entry` is a datatype whose fields are each `Option`; `None` means the key is absent.

The close-match oracle `difflib.get_close_matches` is a function parameter. The only property the model relies on (`PicksCandidates`) is that every term it returns is one of the candidates it was given.

### Where the code and its own comments disagree (the model follows the code)

- **Exact lookup.**
  - The comment at acro.py:150 calls step 1 an "Exact acronym match (case-insensitive)".
  - `main` upper-cases the query and looks it up verbatim (acro.py:142, 152). A key that contains a lower-case letter is therefore never found by step 1 (`Acro.LowerCaseKeyNeverExact`).
  - A key with no lower-case letter and no surrounding whitespace is found from every string that upper-cases to it (`Acro.ExactQueryFixes`).
  - Aliases are tried only in a separate scan, and only without `-f` (acro.py:160-166).
- **Partial search.**
  - The docstring at libidx.py:75 promises a partial search "on acronyms and aliases".
  - `search_acronyms` tests only the index keys (libidx.py:87-88), and `build_acronym_index` stores the acronym unchanged and never adds aliases as keys (libidx.py:52-54). So an alias is never searched (`Libidx.AcronymIndexKeys`, `Libidx.SearchAcronyms`).
- **Root normalisation.**
  - The heading at acro.py:45 says `load_yaml` "guarantees dict at root".
  - It only wraps a list root as `{"default": list}` (acro.py:51-52). A scalar or empty document stays as it is, and `main` then fails with `AttributeError` at `data.values()` (`Acro.LoadCatalog`).
- **Errors.** The code raises in four places, and the model returns each as an `Err` value:
  - `KeyError` from `entry["acronym"]` in `update_entry` and `delete_entry`, when an entry lacks an acronym (crud.py:21, 33);
  - `KeyError` from the sort key `e["acronym"]` in `search_acronyms`, when a hit lacks an acronym (libidx.py:92);
  - `AttributeError` from `data.values()`, when the document root is not a mapping (libidx.py:50);
  - `ValueError` from `get_close_matches`, when `limit <= 0` makes `n = 2 * limit` non-positive (acro.py:102).
- **Pool collisions.**
  - The search pool is one dict for all entries, so a later entry overwrites the earlier owner of a shared term (`Acro.SearchPoolLastOwner`).
  - This includes a term equal to another entry's acronym. So the pool does not always map an acronym to itself (`Acro.PoolCollision`).

## Model

| member | source | states |
|---|---|---|
| `Acro.Fmt` | acro.py:29-30 | the shown value is truthy; it is the stored value, or the text "None"; a truthy stored value is always the one shown |
| `Acro.NormaliseRoot` | acro.py:51-54 | a list root becomes a mapping with the single key "default" whose entries are the list, in order; every other root is returned unchanged; the result is never a list |
| `Acro.LoadCatalog` | acro.py:47-54 | the catalog `main` hands to the index builder: the wrapped list, the mapping itself, or `AttributeError("values")` for a scalar or empty document |
| `Acro.SearchPool` | acro.py:78-101 | the finished `search_pool`: a dict whose candidate list is the terms in order of first assignment over the index |
| `Acro.TextWords` | acro.py:94-98 | the words taken from a text field are whitespace-free, non-empty tokens; a missing or empty field gives none |
| `Acro.EntryTerms` | acro.py:80-98 | the terms of an entry start with its own acronym |
| `Acro.PoolPairsOwners` | acro.py:80-98 | every assignment made while building the pool names a visited acronym and one of that entry's own terms |
| `Acro.PoolPairsTerms` | acro.py:80-98 | a term is assigned while building the pool iff it is a term of some visited entry |
| `Acro.SearchPoolFacts` | acro.py:78-101 | the pool's terms are exactly the terms of the indexed entries; every index key is a term; each term maps to the last acronym, in index order, whose entry has it; candidates are in order of first assignment |
| `Acro.SearchPoolTerms` | acro.py:80-98 | a term is in the pool iff some indexed entry has it among its terms; every index key is in the pool |
| `Acro.SearchPoolOwner` | acro.py:80-98 | a pooled term maps to the last acronym, in index order, whose entry has that term |
| `Acro.SearchPoolLastOwner` | acro.py:80-98 | if `index.keys[j]` is the last key whose entry has the term `t`, the pool maps `t` to `index.keys[j]`, whatever earlier entries assigned |
| `Acro.PoolCollision` | acro.py:80-98 | on an index where "NIDS" comes after "IDS" and has the alias "ids", the pool maps the term "IDS" to "NIDS": a later entry overwrites even another entry's own acronym |
| `Acro.AssignAll` | acro.py:85-90 | the loop that assigns each term to the acronym in turn produces the same dict as that sequence of assignments |
| `Acro.AssignWords` | acro.py:94-98 | a truthy text field assigns the words of its upper-cased text, in order; a missing or empty one assigns nothing |
| `Acro.AssignEntry` | acro.py:81-98 | one iteration of the pool-building loop assigns exactly the terms of that entry, in order, to its acronym |
| `Acro.BuildSearchPool` | acro.py:78-98 | the pool-building loops produce `SearchPool(index)` |
| `Acro.PickedTerms` | acro.py:101-102 | every term the oracle returns, when asked with `2 * limit`, is a pooled term |
| `Acro.FuzzyResult` | acro.py:64-113 | the result is an error (a `ValueError`) iff `limit <= 0` |
| `Acro.FirstOwners` | acro.py:104-113 | the kept owners number at most `limit`, are distinct, and each owns a matched term; when fewer than `limit` are kept, every owner of a matched term is kept |
| `Acro.FuzzyResultMeaning` | acro.py:64-113 | a fuzzy result holds at most `limit` distinct acronyms; each is a key of the index and owns a matched term; when fewer than `limit` come back, none was dropped; no matched term gives no result |
| `Acro.OwnersIndexed` | acro.py:104-107 | every owner of a matched term is a key of the index, so `acronym_index[ac]` in `main` cannot fail |
| `Acro.CollectOwners` | acro.py:104-113 | the loop returns the first `limit` distinct owners of the matched terms, in order of first match |
| `Acro.FuzzySearch` | acro.py:64-113 | `fuzzy_search` returns `FuzzyResult`, including the `ValueError` for `limit <= 0` |
| `Acro.ExactQuery` | acro.py:142 | the cleaned query has no lower-case letter and no whitespace at either end |
| `Acro.AliasMatch` | acro.py:162-164 | an entry matches the query by alias iff the query is among its upper-cased aliases; a missing alias list matches nothing |
| `Acro.FirstAliasOwner` | acro.py:160-166 | `None` iff no entry has an alias equal to the query once upper-cased; otherwise the first such key in index order |
| `Acro.LookupExact` | acro.py:152-155 | a key equal to the cleaned query, holding an entry with an acronym, is shown, with or without `-f` |
| `Acro.LookupAlias` | acro.py:160-173 | without `-f` and no exact hit, the answer shows the first entry, in index order, with a matching alias; it is "not found" for the query iff no entry has one |
| `Acro.LookupFuzzy` | acro.py:178-191 | with `-f` and no exact hit, the answer is an error iff `limit <= 0`; otherwise at most `limit` acronyms, all keys of the index |
| `Acro.LowerCaseKeyNeverExact` | acro.py:142-153 | no raw query ever equals, after cleaning, a key that contains a lower-case letter |
| `Acro.ExactQueryFixes` | acro.py:142-153 | a key with no lower-case letter and no whitespace at either end is reached from every query that upper-cases to it, among them the key itself and its lower-case form |
| `Acro.StripFixed` | acro.py:142 | stripping a string that has no whitespace at either end leaves it unchanged |
| `Acro.FindByAlias` | acro.py:160-166 | the alias scan finds nothing iff no entry has a matching alias; otherwise it returns the entry of the first such key in index order |
| `Acro.LookupIn` | acro.py:152-191 | the lookup fails iff there is no exact hit, `-f` is given and `limit <= 0`, and then with `ValueError`; a shown entry is an entry of the index; "not found" comes only without `-f` and names the cleaned query; a list of similar acronyms comes only with `-f` |
| `Acro.LookupOnIndex` | acro.py:152-191 | the three lookup steps on a built index give the answer `LookupIn` defines |
| `Acro.Lookup` | acro.py:142-191 | from the parsed document: an error when the root is not a mapping; otherwise the lookup of the cleaned query on the acronym index of the loaded catalog |
| `Libidx.IndexOf` | libidx.py:50-54 | every key is non-empty and is the acronym of the entry it maps to (that this entry is the last visited one is `IndexOfFacts`) |
| `Libidx.AcronymIndex` | libidx.py:47-56 | every key of `build_acronym_index(data)` is non-empty and is the acronym of the entry it maps to (that this entry is in the catalog is `AcronymIndexSound`) |
| `Libidx.IndexOfFacts` | libidx.py:50-54 | a key is present iff some visited entry has it as a non-empty acronym; its value is the last such entry |
| `Libidx.AcronymIndexKeys` | libidx.py:52-54 | the index keys are exactly the non-empty acronyms of the catalog, unmodified (aliases are not keys) |
| `Libidx.AcronymIndexSound` | libidx.py:50-54 | each key maps to an entry whose acronym is that key, and that entry is in some category list |
| `Libidx.AcronymIndexLastWins` | libidx.py:50-54 | among entries sharing an acronym, the last one in category order then list order is indexed |
| `Libidx.BuildAcronymIndex` | libidx.py:47-56 | the nested loops produce `AcronymIndex(data)` and never fail on entries without an acronym |
| `Libidx.BuildCategoryIndex` | libidx.py:58-71 | the copy has the same keys in the same order, each with the same list |
| `Libidx.KeyHit` | libidx.py:84-88 | the empty query hits every key, and a query equal to the key up to case hits it |
| `Libidx.InsertByAcronym` | libidx.py:92 | inserting into a list sorted by acronym keeps it sorted and adds exactly that entry |
| `Libidx.SortByAcronym` | libidx.py:92 | the sort result is ordered by acronym and is a permutation of its input |
| `Libidx.SearchAcronyms` | libidx.py:73-93 | the result is a `KeyError` iff some hit lacks an acronym; otherwise it holds exactly the entries of the keys that contain the query (ignoring case), each once, sorted by acronym |
| `Text.Split` | acro.py:97 | `split()` yields non-empty tokens without whitespace |
| `Text.SplitWeave` | acro.py:97 | a string is its `split()` tokens interleaved with its gaps, one gap more than tokens |
| `Text.GapsShape` | acro.py:97 | the gaps are whitespace, the inner ones non-empty: the tokens are exactly the maximal non-whitespace runs |
| `Text.SplitJoinSpaced` | acro.py:97 | splitting tokens joined by single spaces gives the tokens back |
| `Text.Strip` | acro.py:142 | the result has no whitespace at either end, and only whitespace was removed around it |
| `Text.Upper` | acro.py:142 | upper-casing keeps the length and whitespace, turns each lower-case letter into its upper-case partner, and changes nothing else |
| `Text.Lower` | libidx.py:84-88 | lower-casing keeps the length, turns each upper-case letter into its lower-case partner, and changes nothing else |
| `Text.LexLeTotal` | libidx.py:92 | any two acronyms are ordered one way or the other |
| `Text.LexLeTrans` | libidx.py:92 | the order on acronyms is transitive |
| `Dicts.PutAllLastWins` | acro.py:80-98 | after a run of assignments, a key holds the value of the last assignment to it |
| `Dicts.PutAllKeys` | acro.py:80-98 | after a run of assignments, a key is present iff it was before or was assigned |
| `Dicts.PutAllOrder` | acro.py:101 | a dict built by assignments from empty lists its keys in order of first assignment |
| `Entries.FlattenMember` | libidx.py:50-51 | the nested iteration visits an entry iff some category list holds it |
| `Entries.FlattenPutExisting` | crud.py:11 | replacing a list swaps its entries and keeps every other entry |
| `Entries.FlattenPutNew` | crud.py:9-11 | a new category's list is visited last |
| `Entries.FlattenRemove` | crud.py:36-37 | deleting a category drops exactly its entries |
| `Crud.CategoryOf` | crud.py:8 | the entry's category, or "Misc" when it has none |
| `Crud.MatchesMeaning` | crud.py:21 | the matching test `Crud.Matches` holds iff the entry's acronym or one of its aliases equals the key, ignoring case |
| `Crud.StopIn` | crud.py:20-21 | the inner loop over one list stops at the first entry that lacks an acronym or matches, and otherwise passes every entry |
| `Crud.Outcome` | crud.py:21-24 | the result is `True` for a hit, `False` after a full pass, and `KeyError("acronym")` for an entry without an acronym |
| `Crud.Merge` | crud.py:22 | each field the update names takes the new value, a null value included (which then reads as absent); every other field keeps its value |
| `Crud.ScanBucket` | crud.py:20-21 | the scan of one list stops at the first entry that matches or has no acronym, or passes the whole list |
| `Crud.ScanKeysFacts` | crud.py:19-21 | the scan runs through iff every entry has an acronym and none matches; otherwise it stops at the first such entry in category order then list order, and reports whether that entry has an acronym |
| `Crud.OutcomeWithAcronyms` | crud.py:19-24 | when every entry has an acronym, update and delete report `True` iff some entry matches the key by acronym or alias, ignoring case |
| `Crud.Added` | crud.py:8-11 | the category's list (default "Misc") ends with the entry and grows by one; a missing category is created last; other lists are unchanged |
| `Crud.AddedContents` | crud.py:8-11 | adding puts exactly one more entry into the catalog |
| `Crud.Updated` | crud.py:19-24 | on a hit only the first matching entry changes, into its merge with the updates; otherwise the catalog is unchanged |
| `Crud.UpdatedContents` | crud.py:21-23 | a successful update swaps exactly one entry for its merged version |
| `Crud.Deleted` | crud.py:31-39 | on a hit the matching entry leaves its list and the others keep their order; the category disappears iff its list became empty; other categories are untouched; otherwise the catalog is unchanged |
| `Crud.DeletedContents` | crud.py:32-38 | a successful delete takes exactly one entry out of the catalog |
| `Crud.Catalog.AddEntry` | crud.py:3-12 | the new catalog is `Added(old, entry)` |
| `Crud.Catalog.UpdateEntry` | crud.py:14-24 | the new catalog is `Updated(old, key, updates)`; the result is `True` on a hit, `False` past the end, `KeyError("acronym")` at an entry without an acronym |
| `Crud.Catalog.DeleteEntry` | crud.py:26-39 | the new catalog is `Deleted(old, key)`; the result as for `UpdateEntry` |

## Left out

- `tui.py` (the curses browser) is not part of this model. It is screen drawing and a key-dispatch loop.
- `crud.save_data` and the file reading and YAML parsing of `load_yaml` are left out. They are file I/O. The model starts from the parsed document's root.
- The printing and colours of `display_entry`, the messages of `main` and `argparse` are left out. The command line's query, `-f` flag and `--limit` are parameters of `Acro.Lookup`.
- The similarity metric of `get_close_matches` (a floating-point ratio with cutoff 0.55) is an opaque oracle. The model relies only on its returning candidates; its ranking and count are not modelled. `FuzzyResult`'s `ValueError` is the one `get_close_matches` raises for `n <= 0`.
- `lower()`, `upper()`, `strip()` and `split()` are ASCII only. Python's Unicode case mapping and whitespace classes are not modelled.
- Input shapes other than a list of entries per category, and a string or list of strings per field, are not modelled. On them the source fails or misreads:
  - a category with no items (`Misc:` and nothing under it) holds `None`, and iterating it at libidx.py:51 raises `TypeError`;
  - a category holding one entry mapping instead of a list is iterated key by key, and `.get` on a key string raises `AttributeError` at libidx.py:52;
  - a scalar `aliases` value such as `aliases: ID-Sys` is iterated character by character at acro.py:85, acro.py:164 and crud.py:21.
- Crud.CategoryOf: an entry whose `category` is present but null is filed under "Misc". The source's `entry.get("category", "Misc")` (crud.py:8) returns `None` and files it under the key `None`. The model's entry cannot tell a null field from an absent one.
- YAML null values are treated as absent keys. An entry whose `aliases` is null would make `crud.py`'s alias loop raise `TypeError`; the model treats it as an empty list. An entry whose `acronym` is null would raise `AttributeError` at `.lower()`; the model reports `KeyError`.
- Extra keys of an entry, and fields of `update_entry`'s `updates` outside the eight documented ones, are not modelled.
- `Acro.Fmt` returns the value shown. The string rendering of a list field (`['a', 'b']`) is not modelled.
- Entries are values, so object identity and aliasing are not modelled. This covers an index value being the same dict object as a catalog entry, and `build_category_index` sharing the lists of `data`.
- Libidx.SortByAcronym: states sortedness and permutation only. The stability of Python's sort (equal acronyms keep their order) is not stated.
- `build_category_index` is modelled by itself. Its call in `main` is left out of `Acro.Lookup` because the result is never used and it raises the same `AttributeError` as the acronym index, which is built first.
- The commented-out earlier versions of `build_acronym_index` and `fuzzy_search` are not modelled.
