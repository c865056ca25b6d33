# Local catalog list: merge and ordering

This project models `GetLocalCatalogs`, the interactor that builds the list of catalogs
(manga sources) the app shows. It takes the latest internal (bundled) catalogs and the
latest installed catalogs and appends the installed ones to the internal ones. It then
orders the result under one of two policies:

- **Name**: a stable sort by display name.
- **Favorites**: a stable sort with a two-key comparator. The first key is the catalog's
  favorite rank, which is its source id's position in the user's favorite ids. A source
  that is not a favorite gets the sentinel `Int.MAX_VALUE`. The second key is the name.

Files:

- `catalogs.dfy` (module `Catalogs`): the `Catalog` value (source id and name), the
  `CatalogSort` policy and the `Int.MAX_VALUE` sentinel.
- `comparators.dfy` (module `Comparators`): `String.compareTo` and `Int.compareTo` as
  functions, `FavoritesComparator.compare`, and the two comparators the sorts use
  (`Ordering`: `ByName`, `ByFavorites(ranks)`). It proves that name order is
  lexicographic order and that each comparator is a total preorder.
- `stable_sort.dfy` (module `StableSort`): a stable sort under either comparator, with
  proofs that it returns an ordered permutation and keeps tied catalogs in input order.
  It also proves that these properties determine the result.
- `get_local_catalogs.dfy` (module `GetLocalCatalogs`): the merge, the rank map (a
  method with the counter loop of `associateWith { position++ }`), `interact`, and the
  properties of the two policies.

The reactive streams are not modelled. Each source's latest value is a plain sequence
parameter, and `Interact` returns the list that would be emitted for those values.

The model follows the code on these points:

- Favorite ids are an ordered collection iterated in order, not a set. A repeated id
  takes the position of its last occurrence, as `associateWith` does. The ordering
  lemmas that depend on positions require distinct ids.
- Name order is Kotlin's `String.compareTo`. It returns the difference of the first
  differing characters, or the difference of the lengths. It is not a locale-aware
  comparison.
- The merge does not require the two groups to have disjoint ids. The code does not
  check this, and no property here depends on it.

## Model

| member | source | states |
|---|---|---|
| `GetLocalCatalogs.Merge` | domain/src/main/kotlin/catalog/interactor/GetLocalCatalogs.kt:30-31 | the merged list has length \|internal\| + \|installed\|; its first part is exactly the internal list and the rest exactly the installed list; its multiset is the sum of the two |
| `GetLocalCatalogs.RankMapOf` | domain/src/main/kotlin/catalog/interactor/GetLocalCatalogs.kt:38-41 | the rank map's keys are exactly the favorite ids, and every rank is a position in the ids, in [0, \|ids\|) |
| `GetLocalCatalogs.BuildRanks` | domain/src/main/kotlin/catalog/interactor/GetLocalCatalogs.kt:38-41 | the counter loop builds `RankMapOf(favoriteIds)`; its keys are exactly the favorite ids; every rank is a position in the ids; with distinct ids, the id at position i gets rank i |
| `GetLocalCatalogs.RankMapLastWins` | domain/src/main/kotlin/catalog/interactor/GetLocalCatalogs.kt:40 | an id's rank is the position of its last occurrence in the favorite ids |
| `GetLocalCatalogs.RankMapOfDistinct` | domain/src/main/kotlin/catalog/interactor/GetLocalCatalogs.kt:38-41 | with distinct favorite ids, the id at position i has rank i; no favorites gives the empty map |
| `GetLocalCatalogs.RankMapHoldsFavorites` | domain/src/main/kotlin/catalog/interactor/GetLocalCatalogs.kt:38-41 | an id is in the rank map exactly when it occurs in the favorite ids |
| `GetLocalCatalogs.Interact` | domain/src/main/kotlin/catalog/interactor/GetLocalCatalogs.kt:26-53 | the result is a permutation of internal + installed; under Name it is the name sort of the merged list; under Favorites it is the favorites sort with the rank map of the favorite ids |
| `GetLocalCatalogs.NamedAreTies` | domain/src/main/kotlin/catalog/interactor/GetLocalCatalogs.kt:35 | under `compareBy { it.name }`, the catalogs tied with a catalog are exactly those with its name, in the same order |
| `GetLocalCatalogs.NameSortCorrect` | domain/src/main/kotlin/catalog/interactor/GetLocalCatalogs.kt:35 | the Name sort is a permutation of the merged list; names are non-decreasing under `String.compareTo`; for every name, the catalogs with that name keep their merged (internal, then installed) order |
| `GetLocalCatalogs.NameSortIdempotent` | domain/src/main/kotlin/catalog/interactor/GetLocalCatalogs.kt:35 | a list already in name order is returned unchanged by the Name sort |
| `GetLocalCatalogs.FavoritesMonotone` | domain/src/main/kotlin/catalog/interactor/GetLocalCatalogs.kt:48-49 | along the Favorites sort, the rank (with the `Int.MAX_VALUE` sentinel) never decreases, and within one rank the name never decreases |
| `GetLocalCatalogs.FavoritesSortCorrect` | domain/src/main/kotlin/catalog/interactor/GetLocalCatalogs.kt:48-49 | for any rank map with ranks below the sentinel, the Favorites sort is a permutation; no favorited catalog follows an unfavorited one; favorited catalogs come in ascending rank; equal ranks are ordered by name; catalogs tied on rank and name keep their input order |
| `GetLocalCatalogs.FavoriteIdsFirst` | domain/src/main/kotlin/catalog/interactor/GetLocalCatalogs.kt:37-49 | with no more favorite ids than `Int.MAX_VALUE`, a catalog whose id is a favorite never follows one whose id is not |
| `GetLocalCatalogs.FavoriteIdsInOrder` | domain/src/main/kotlin/catalog/interactor/GetLocalCatalogs.kt:37-49 | with distinct favorite ids, favorited catalogs appear in the order of the favorite ids |
| `GetLocalCatalogs.UnfavoritedByName` | domain/src/main/kotlin/catalog/interactor/GetLocalCatalogs.kt:37-49 | catalogs whose ids are not favorites are ordered among themselves by name |
| `GetLocalCatalogs.FavoritesFollowFavoriteIds` | domain/src/main/kotlin/catalog/interactor/GetLocalCatalogs.kt:37-49 | for the merged list, with distinct favorite ids, no more of them than `Int.MAX_VALUE`: favorited catalogs come first, in the order of the favorite ids, and the others follow ordered by name |
| `GetLocalCatalogs.ScenarioByName` | domain/src/main/kotlin/catalog/interactor/GetLocalCatalogs.kt:31-35 | internal Batoto (id 1) plus installed Aggregator (id 2) sorted by name gives Aggregator, Batoto |
| `GetLocalCatalogs.ScenarioOneFavorite` | domain/src/main/kotlin/catalog/interactor/GetLocalCatalogs.kt:38-49 | the same catalogs with favorites [1] give Batoto, Aggregator |
| `GetLocalCatalogs.ScenarioFavoritesReordered` | domain/src/main/kotlin/catalog/interactor/GetLocalCatalogs.kt:38-49 | the same catalogs with favorites [2, 1] give Aggregator, Batoto |
| `Comparators.CompareInts` | domain/src/main/kotlin/catalog/interactor/GetLocalCatalogs.kt:62 | `Int.compareTo` returns -1, 0 or 1: negative exactly when the first is smaller, zero exactly when they are equal |
| `Comparators.CompareNames` | domain/src/main/kotlin/catalog/interactor/GetLocalCatalogs.kt:35 | `String.compareTo` is zero exactly when the names are equal |
| `Comparators.RankOf` | domain/src/main/kotlin/catalog/interactor/GetLocalCatalogs.kt:60-61 | a favorited catalog's rank is its position from the rank map; any other catalog gets the sentinel `Int.MAX_VALUE` |
| `Comparators.FavoritesCompare` | domain/src/main/kotlin/catalog/interactor/GetLocalCatalogs.kt:59-63 | two favorited catalogs compare as their ranks; two unfavorited catalogs compare equal; an unfavorited catalog compares greater than a favorited one whose rank is below `Int.MAX_VALUE`, and the reverse |
| `Comparators.Compare` | domain/src/main/kotlin/catalog/interactor/GetLocalCatalogs.kt:35-49 | the name comparator is zero exactly on equal names; `FavoritesComparator.thenBy { it.name }` is negative when the first rank is lower, positive when it is higher, and the name comparison when the ranks are equal |
| `Comparators.CompareNamesIsLexicographic` | domain/src/main/kotlin/catalog/interactor/GetLocalCatalogs.kt:35 | `String.compareTo(a, b) <= 0` exactly when a is a prefix of b or is smaller at the first differing character |
| `Comparators.CompareNamesFlip` | domain/src/main/kotlin/catalog/interactor/GetLocalCatalogs.kt:35 | swapping the names negates the name comparison |
| `Comparators.CompareNamesTransitive` | domain/src/main/kotlin/catalog/interactor/GetLocalCatalogs.kt:35 | the name order is transitive |
| `Comparators.TieMeans` | domain/src/main/kotlin/catalog/interactor/GetLocalCatalogs.kt:49 | under Name two catalogs tie exactly when their names are equal; under Favorites, exactly when both their ranks (with the sentinel) and their names are equal |
| `Comparators.CompareFlip` | domain/src/main/kotlin/catalog/interactor/GetLocalCatalogs.kt:49 | both comparators are antisymmetric: swapping the arguments negates the result |
| `Comparators.CompareTotal` | domain/src/main/kotlin/catalog/interactor/GetLocalCatalogs.kt:49 | both comparators are total, and a tie is exactly "each may stand before the other" |
| `Comparators.LeTransitive` | domain/src/main/kotlin/catalog/interactor/GetLocalCatalogs.kt:49 | both comparators are transitive, including the rank-then-name comparator built by `thenBy` |
| `Comparators.TieTransitive` | domain/src/main/kotlin/catalog/interactor/GetLocalCatalogs.kt:49 | ties are transitive |
| `StableSort.SortedWith` | domain/src/main/kotlin/catalog/interactor/GetLocalCatalogs.kt:49 | the sort returns a permutation of its input |
| `StableSort.SortedWithInOrder` | domain/src/main/kotlin/catalog/interactor/GetLocalCatalogs.kt:35 | the sort's output is ordered by the comparator at every pair of positions |
| `StableSort.SortedWithStable` | domain/src/main/kotlin/catalog/interactor/GetLocalCatalogs.kt:49 | the sort is stable: for every catalog k, the catalogs tied with k appear in the output in the same order as in the input |
| `StableSort.SortedWithIdempotent` | domain/src/main/kotlin/catalog/interactor/GetLocalCatalogs.kt:35 | an input that is already ordered is returned unchanged |
| `StableSort.SortedWithUnique` | domain/src/main/kotlin/catalog/interactor/GetLocalCatalogs.kt:49 | any ordered permutation of the input that keeps every tie group in input order is the sort's output, so any stable sort gives the same list |

## Left out

- The reactive wiring (`Flowables.combineLatest`, `map`, `toFlowable`, lines 27-32 and 37-47) is not modelled. This covers re-emission on each upstream update, waiting for every source's first value, error propagation and cancellation. Each source's latest value is an input sequence.
- The catalog and library repositories (lines 28-29 and 37) are external I/O. Their results are the parameters `internal`, `installed` and `favoriteIds`.
- Dependency injection (line 20) and the "defer this call" TODO (line 25) have no behaviour to model.
- The default argument `sort: CatalogSort = CatalogSort.Name` (line 26) is not modelled. `Interact` always takes `sort` explicitly; a call without it is `Interact(Name, ...)`.
- `Catalog` and `CatalogLocal` are reduced to a source id and a name. Source ids are `Long` in the source and unbounded `int` here.
- Names are compared as sequences of Dafny characters, which are Unicode scalar values. Kotlin compares UTF-16 code units, so names with characters outside the Basic Multilingual Plane may order differently.
- The library's stable sort (TimSort behind `sortedBy` and `sortedWith`) is replaced by a stable insertion sort. `SortedWithUnique` shows the two give the same list.
- BuildRanks: does not model 32-bit wrap-around of the `position` counter, because it takes more than `Int.MAX_VALUE` favorite ids to reach it.
- FavoriteIdsFirst: requires at most `Int.MAX_VALUE` favorite ids. With more, a rank would reach the sentinel and tie with unfavorited catalogs.
- FavoriteIdsInOrder: requires distinct favorite ids, since a repeated id takes the position of its last occurrence.
- FavoritesFollowFavoriteIds: requires both of the above: distinct favorite ids, at most `Int.MAX_VALUE` of them.
