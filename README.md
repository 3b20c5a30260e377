# In-store route planning, modelled in Dafny

This project models the route-planning core of a shopping assistant for a store. The assistant's tools do three things in sequence:

1. `guardar_lista_compras` turns a free-text request into a shopping list. It splits the text on commas and whitespace, lower-cases every word and drops 14 Portuguese function words (the stopwords). It then keeps only the tokens that appear as a substring of some lower-cased catalog product name. An empty or blank request is an error, and so is a request with no valid token.
2. `obter_localizacoes_lista` resolves the list against the catalog. Each item becomes one location record per catalog entry whose lower-cased name contains the lower-cased item, in catalog order. An item with no match becomes one error record carrying the item.
3. `gerar_rota_otimizada` drops the error records and orders the rest into a greedy nearest-neighbour walk. The walk starts at the first located record. It then repeatedly moves to the closest record whose product name has not been visited yet, and ties go to the earliest candidate. Having no located record at all is an error.

The catalog and the list are parameters of the model rather than files.

Modules, one per concern:

- `Text` (`text.dfy`) models Python's `isspace`, `lower`, `in` on strings and `replace(",", " ").split()`.
- `Seqs` (`seqs.dfy`) holds the order-preserving filter that models a list comprehension with a condition, and the concatenation of one block per element that models a loop which appends a group of values per item.
- `Catalog` (`catalog.dfy`) defines the catalog entry.
- `ShoppingList` (`shopping_list.dfy`) models the tokeniser, the validation loop and `guardar_lista_compras`.
- `Locations` (`locations.dfy`) models the resolution loop.
- `Route` (`route.dfy`) models the located-record filter, `min` with a distance key, and the route loop.
- `Pipeline` (`pipeline.dfy`) holds the lemmas that connect the three tools.

Each loop of the source is a method with loop invariants, proved equal to a specification function: `Validate`, `ResolveLocations` and `BuildRoute`. The source's properties are proved as lemmas about those functions.

## Behaviour worth knowing

- **Visits are tracked by product name, not by record.** Two located records with the same name become a single stop. The route is therefore a permutation of the located records exactly when their names are pairwise distinct (`Route.GreedyRoutePermutation`); otherwise the route is strictly shorter. Duplicate names arise in three ways: the list repeats an item; two items match the same catalog entry; or two catalog entries share a `nome_produto` (one product stocked in two places), so that one item matches both, and only one of them becomes a stop. Tracking visits by record instead would make the route a permutation of the located records in every case; the code tracks them by name, and the model follows the code.
- **How the route loop ends.** With duplicate names, the loop guard `len(visitados) < len(produtos)` stays true after every name has been visited. The loop then ends through the `break` on an empty candidate list. Either way it ends with every name visited (`Route.RouteFromCovers`).

## Model

| member | source | states |
|---|---|---|
| `Text.LowerChar` | multi_tool_agent/agent.py:24 | a lowered character is never upper case, is unchanged if it was not upper case, and is a separator exactly when the original was |
| `Text.Lower` | multi_tool_agent/agent.py:24 | `lower()` keeps the length, leaves no upper-case letter, and maps words to words |
| `Text.LowerOfLower` | multi_tool_agent/agent.py:24 | lowering a lower-case string changes nothing (so `lower()` is idempotent) |
| `Text.SubstringAt` | multi_tool_agent/agent.py:45 | the recursive substring test holds exactly when the item is the slice of the name at some offset |
| `Text.Words` | multi_tool_agent/agent.py:25 | every word produced by the split is non-empty and holds no whitespace and no comma |
| `Text.WordsAtSeparator` | multi_tool_agent/agent.py:25 | splitting `a + sep + b` gives the words of `a` followed by the words of `b`: left-to-right order is kept and no word spans a separator |
| `Text.WordsOfJoin` | multi_tool_agent/agent.py:25 | round trip: words joined by single spaces split back into the same words |
| `Text.WordsOfBlank` | multi_tool_agent/agent.py:15-19 | a blank string has no words |
| `ShoppingList.KeepTokens` | multi_tool_agent/agent.py:23-27 | when the inputs are words, every kept token is a non-empty, separator-free, lower-case non-stopword |
| `ShoppingList.Tokenise` | multi_tool_agent/agent.py:22-27 | every token of a request is non-empty, holds no whitespace or comma, is lower case and is not one of the 14 stopwords |
| `ShoppingList.TokeniseAtSeparator` | multi_tool_agent/agent.py:23-27 | tokens keep their left-to-right input order: a request split at a separator tokenises to the left part's tokens followed by the right part's |
| `ShoppingList.TokeniseJoin` | multi_tool_agent/agent.py:23-27 | round trip: valid tokens joined by spaces tokenise back to exactly themselves |
| `ShoppingList.KeepTokensMembers` | multi_tool_agent/agent.py:23-27 | a string is a token exactly when it is the lower-case form of some word and is not a stopword |
| `ShoppingList.TokeniseBlank` | multi_tool_agent/agent.py:15-27 | an empty or whitespace-only request has no tokens |
| `ShoppingList.KnownInCatalog` | multi_tool_agent/agent.py:39-45 | a token counts as known against `nomes_produtos` exactly when some catalog entry's lower-cased product name contains it |
| `ShoppingList.Validate` | multi_tool_agent/agent.py:42-48 | the loop's valid and invalid lists are the order-preserving filters of the tokens by "some product name contains it" and by its negation |
| `ShoppingList.PartitionTotal` | multi_tool_agent/agent.py:42-48 | the partition is total and disjoint: the two lengths add up to the number of tokens, and the two multisets add up to the tokens' multiset |
| `ShoppingList.PartitionMembers` | multi_tool_agent/agent.py:44-48 | a token is valid iff some lower-cased product name contains it, and invalid iff none does |
| `ShoppingList.PartitionOrder` | multi_tool_agent/agent.py:42-48 | both lists keep relative order: partitioning `a + b` gives the lists of `a` followed by those of `b` |
| `ShoppingList.SaveList` | multi_tool_agent/agent.py:13-65 | the empty-request error happens iff the request is blank; the no-known-product error happens iff the request is not blank and no token is valid; otherwise the outcome holds the valid and invalid tokens, with at least one valid token |
| `Locations.ResolveLocations` | multi_tool_agent/agent.py:109-127 | the nested loop produces, item by item in list order, the records of the item's group |
| `Locations.MatchingMembers` | multi_tool_agent/agent.py:111 | an entry is among an item's matches iff it is in the catalog and its lower-cased name contains the lower-cased item |
| `Locations.GroupMembers` | multi_tool_agent/agent.py:112-127 | an item's records are one error record carrying the item when nothing matches, otherwise exactly one located record per matching entry |
| `Locations.ResolutionConcat` | multi_tool_agent/agent.py:109-127 | records appear grouped by item in list order: resolving `a + b` gives the records of `a` followed by those of `b` |
| `Locations.ResolutionSize` | multi_tool_agent/agent.py:109-127 | the number of records is the sum over the items of `max(1, #matches)`, so it is at least the number of items |
| `Locations.ResolutionMembers` | multi_tool_agent/agent.py:109-127 | a record is in the result iff it is a record of some item's group: every located record comes from a match, every error record from an unmatched item, and no match is lost |
| `Locations.ResolutionEmptyCatalog` | multi_tool_agent/agent.py:109-127 | against an empty catalog, every item yields exactly its own error record, in order |
| `Route.LocatedOnly` | multi_tool_agent/agent.py:153-159 | the filtered records come from the input; the filter is empty iff every record is an error record; when it is not empty, its first element is the first located record |
| `Route.LocatedOnlyMembers` | multi_tool_agent/agent.py:153-156 | a located record survives the filter iff it is among the records |
| `Route.LocatedOnlyOne` | multi_tool_agent/agent.py:153-156 | a single record survives the filter exactly when it is not an error record |
| `Route.LocatedOnlyConcat` | multi_tool_agent/agent.py:153-156 | the filter keeps the order and multiplicity of the records: filtering `a + b` gives the located records of `a` followed by those of `b`, so `produtos` (and with it every tie-break of the route) follows the order of `resultados` |
| `Route.NearestIndex` | multi_tool_agent/agent.py:176-182 | `min` with a distance key picks a candidate no farther than any other, and strictly closer than every candidate before it (first minimum wins) |
| `Route.UnvisitedMembers` | multi_tool_agent/agent.py:169-171 | a record is a candidate iff it is located and its name is not yet visited |
| `Route.BuildRoute` | multi_tool_agent/agent.py:153-185 | the loop computes the greedy route; the error happens iff every record is an error record; otherwise the route is non-empty and starts at the first located record |
| `Route.RouteFromStops` | multi_tool_agent/agent.py:168-185 | every later stop is a located record whose name was not visited before, and no name appears twice |
| `Route.RouteFromCovers` | multi_tool_agent/agent.py:168-173 | when the loop ends, through its guard or its `break`, every located name has been visited |
| `Route.NearestStep` | multi_tool_agent/agent.py:169-184 | one step picks an unvisited record no farther than every record whose name is unvisited, and strictly closer than every earlier candidate |
| `Route.RouteFromNearest` | multi_tool_agent/agent.py:168-185 | the steps of the loop form a walk in which every stop is a nearest step from the stop before it |
| `Route.GreedyRouteStops` | multi_tool_agent/agent.py:162-185 | the route starts at the first located record, holds only located records, names each product once and every located name; so it has one stop per distinct name (at most one per record), and the loop runs once per name after the first |
| `Route.GreedyRouteNearest` | multi_tool_agent/agent.py:169-185 | each stop after the first is the nearest record, from the stop before it, among those whose name is not yet on the route; among equally near candidates it is the earliest |
| `Route.GreedyRoutePermutation` | multi_tool_agent/agent.py:163-184 | the route is a permutation of the located records iff their names are pairwise distinct; otherwise it is strictly shorter |
| `Pipeline.SavedItemResolves` | multi_tool_agent/agent.py:39-48 | every token of a saved list has at least one matching catalog entry when the list is resolved, so its group has no error record |
| `Pipeline.SavedListAllLocated` | multi_tool_agent/agent.py:109-127 | a saved list resolves to located records only |
| `Pipeline.SavedListHasRoute` | multi_tool_agent/agent.py:146-185 | when some token was saved, building the route over the saved list succeeds, and every catalog entry matching a saved item has its product name on the route |

## Left out

- File input and output. The list and catalog files, their existence checks and the errors for a missing file are not modelled (agent.py:10-11, 30-37, 57-58, 97-107). The catalog and the list are parameters. `SaveList` returns the list it would write.
- `carregar_lista_compras`. It only reads the list file and reports an empty list.
- `gerar_mapa_html_rota`. It only opens a browser.
- The `Agent` construction and its instruction text. They configure a foreign library.
- The formatted reports (the markdown, emoji and counts in the messages). They are presentation; the model keeps the structured results.
- Floating point. Coordinates are integers, and distances are compared squared. Because the square root is monotone, this picks the same record as `math.dist` on exact values; rounding of `math.dist` is not modelled.
- `Text.LowerChar`: case folding is exact only on the Latin-1 range U+0000..U+00FF. Characters above it are left unchanged, although Python's `lower()` maps some of them, and multi-character lower-case forms are not modelled.
- The route stage's checks for `coordenada_x` and `coordenada_y` keys (agent.py:155). In the model every located record carries coordinates, so the check reduces to dropping error records.
- `Route.NearestIndex` returns the position of the chosen candidate, where Python's `min` returns the candidate itself.
