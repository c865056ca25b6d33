/**
 The values the catalog list is built from: a catalog as the sorts see it and
 the two sort policies a caller can ask for.
 */
module Catalogs {

  /** Kotlin's `Int.MAX_VALUE`: the rank a catalog gets when its source is not a favorite. */
  const IntMax: int := 0x7FFF_FFFF

  /**
   A catalog, internal or installed, reduced to what the ordering reads:
   the id of its source and its display name.
   */
  datatype Catalog = Catalog(id: int, name: string)

  /** The policy the caller picks for ordering the merged list. */
  datatype CatalogSort = Name | Favorites
}
