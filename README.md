# Bear Maps core: prefix trie, tile resolver and location index

This project models three pieces of the Bear Maps server in Dafny and proves what they promise.

- **Prefix trie** (`MyTrieSet`). It stores a set of strings in a trie whose nodes have 128 child slots, one per 7-bit character code. It supports `add`, `contains`, `clear` and `keysWithPrefix`.
  - The class `Trie.MyTrieSet` keeps the root node, the `size` counter and a ghost set `keys`, tied together by `Valid()`.
  - Nodes are values (`TrieNode.Node`). `add` rebuilds the path it changes instead of mutating nodes in place.
  - The pre-order walk over slots 0..127 returns exactly the stored keys that start with the prefix, each once, in increasing character-code order.
- **Tile resolver** (`RasterAPIHandler`). It picks a zoom depth from the query's longitude per pixel and clips the query box to the world extent. It then lists the covering tiles row by row.
  - Coordinates are exact reals.
  - The depth is the least depth whose tiles are fine enough, capped at 7.
  - The four edge indices bracket the query edges.
  - The snapped box contains the clipped query.
  - `processRequest` computes the indices, box and grid for every query, failed or not, as the code does; it never calls `queryFail`.
  - The grid names tile `(depth, UL_x + j, UL_y + i)` at `[i, j]`.
- **Location index** (`AugmentedStreetMapGraph`). The constructor feeds every non-empty cleaned node name to the trie and remembers the original name; the last node with a given cleaned name wins. It also registers the point of every node that has a neighbour.
  - `getLocationsByPrefix` maps the trie's answer back to original names.
  - `closest` returns the id of the node registered at the nearest point.

In these places the code does not do what a caller would expect, and the model follows the code:

- `keysWithPrefix` of a prefix with no node throws in the code (`findNode`), where an empty list would be expected. The model returns `None`, and proves that this happens exactly when no stored key starts with the prefix.
- `keysWithPrefix("")` throws in the code (`charAt(0)`), where every key would be expected. The model returns `None`.
- `getLocationsByPrefix` inherits both failures.
- A failed raster query (`ullon > lrlon`, or a box that misses the world) would be expected to get the `queryFail` record without a grid. The code only sets `query_success` to false and goes on computing indices, box and grid. An inverted longitude range can then even throw `NegativeArraySizeException` (`Raster.InvertedColumnsNegative`).
- The places where the code is evidently wrong are listed under "## Findings". `Raster.ProcessRequest` keeps the code's behaviour there too, and the corrected members are stated beside it.

The model departs from the code only where "## Left out" says so.

## Model

| member | source | states |
|---|---|---|
| TrieNode.Path | project2ab/MyTrieSet.java:11-37 | Following slots by character code from a well-formed node ends, if anywhere, at a well-formed node |
| TrieNode.PathLive | project2ab/MyTrieSet.java:77-106 | Every node reached by a non-empty path ends a key or has a child: `add` never leaves a dead branch |
| TrieNode.PathAscii | project2ab/MyTrieSet.java:11-25 | Every string spelt in the 128-slot tables has only character codes below 128 |
| TrieNode.PrefixPath | project2ab/MyTrieSet.java:138-147 | Every prefix of a stored key has a node at its end |
| TrieNode.PathAppend | project2ab/MyTrieSet.java:138-147 | Walking `a` then `b` is walking `a + b` |
| TrieNode.KeyBelow | project2ab/MyTrieSet.java:77-106 | A node that ends a key or has a child has some stored key at or below it |
| TrieNode.ContainsAt | project2ab/MyTrieSet.java:54-68 | `contains(key, n)` is true exactly when `key` spells a path from `n` to a node flagged as a key |
| TrieNode.FindNode | project2ab/MyTrieSet.java:138-147 | `findNode` yields the node at the end of the prefix. It fails (`None`) on an empty prefix, a code of 128 or more, or an empty slot on the way |
| TrieNode.Insert | project2ab/MyTrieSet.java:77-106 | The four branches of `add(key, n)` keep the node well formed, keep its own character and key flag, and fill the slot of `key[0]` |
| TrieNode.InsertKeys | project2ab/MyTrieSet.java:77-106 | After `add(key, n)` a string is stored below `n` exactly when it was before or it is `key`: no other membership changes |
| TrieNode.InsertLastChar | project2ab/MyTrieSet.java:77-106 | The one-character branches of `add(key, n)` add exactly `key` to what is stored below `n` |
| TrieNode.InsertInner | project2ab/MyTrieSet.java:77-106 | The recursive branches of `add(key, n)` add exactly `key` to what is stored below `n` |
| TrieNode.CollectMembers | project2ab/MyTrieSet.java:117-130 | The walk over slots `0..i-1` lists exactly the keys below those children, extended from `s` |
| TrieNode.SlotMembers | project2ab/MyTrieSet.java:119-128 | One slot's contribution lists the child's string if it is a key, then everything below the child |
| TrieNode.CollectSorted | project2ab/MyTrieSet.java:117-130 | The walk's output is strictly increasing in character-code order |
| TrieNode.SlotSorted | project2ab/MyTrieSet.java:119-128 | One slot's contribution is strictly increasing and starts with the child's string |
| TrieNode.KeysAtMembers | project2ab/MyTrieSet.java:108-130 | `collectKeys(s, n)` lists exactly the strings `s + k` with `k` stored below `n` |
| TrieNode.KeysAtSorted | project2ab/MyTrieSet.java:108-130 | `collectKeys(s, n)` is strictly increasing, so each key appears once |
| Trie.MyTrieSet.constructor | project2ab/MyTrieSet.java:39-42 | A new set is empty with `size` 0 and a root holding no character and no key |
| Trie.MyTrieSet.Clear | project2ab/MyTrieSet.java:44-47 | `clear` empties the set and sets `size` to 0 |
| Trie.MyTrieSet.Contains | project2ab/MyTrieSet.java:50-68 | `contains(key)` is exact membership in the set of added keys; a proper prefix of a key is reported only if it was added |
| Trie.MyTrieSet.Add | project2ab/MyTrieSet.java:70-75 | After `add(key)` the key set is the old one plus `key` and `contains(key)` holds. Adding a present key changes neither root nor `size`; otherwise `size` grows by one, so `size` always counts the keys |
| Trie.MyTrieSet.PrefixKeys | project2ab/MyTrieSet.java:133-147 | The answer of `keysWithPrefix`: failure exactly when the prefix is empty or no stored key starts with it. Otherwise exactly the stored keys starting with it, strictly increasing |
| Trie.MyTrieSet.NoPathNoKeys | project2ab/MyTrieSet.java:138-142 | When `findNode` finds no node, no stored key starts with the prefix |
| Trie.MyTrieSet.PathHasKeys | project2ab/MyTrieSet.java:138-147 | When `findNode` finds a node for a non-empty prefix, some stored key starts with the prefix |
| Trie.MyTrieSet.PrefixKeysExact | project2ab/MyTrieSet.java:108-136 | The keys collected below the prefix's node are exactly the stored keys starting with the prefix |
| Trie.MyTrieSet.KeysWithPrefix | project2ab/MyTrieSet.java:133-136 | `keysWithPrefix` returns what `PrefixKeys` describes |
| Trie.MyTrieSet.CollectKeys | project2ab/MyTrieSet.java:108-115 | `collectKeys` lists `s` when it is stored, then what `collectHelper` appends |
| Trie.MyTrieSet.CollectHelper | project2ab/MyTrieSet.java:117-130 | The loop over slots 0..127 appends to the list exactly the walk of every child in slot order |
| Trie.PrefixExample | project2ab/MyTrieSet.java:133-136 | With keys {same, am, ad, ap, a, awls, hallo}, the prefix "a" gives [a, ad, am, ap, awls] |
| RasterMath.FloorIndex | bearmap/server/handler/impl/RasterAPIHandler.java:163-198 | `floor(v / interval)` names the interval holding `v` |
| RasterMath.IndexRange | bearmap/server/handler/impl/RasterAPIHandler.java:166-198 | For an offset within the span, the floor index is between 0 and `2^d`, and below `2^d` strictly inside |
| RasterMath.WholeSpan | bearmap/server/handler/impl/RasterAPIHandler.java:96-98 | `2^d` intervals of `span / 2^d` make up the span exactly |
| Raster.CeilLog2 | bearmap/server/handler/impl/RasterAPIHandler.java:223-224 | `ceil(log2(mul))` for `mul` up to `2^7`: the least depth `r` with `mul <= 2^r` |
| Raster.DepthFor | bearmap/server/handler/impl/RasterAPIHandler.java:206-227 | Depth is 0 when desired exceeds largest and 7 when desired is below largest/2^7. It never exceeds 7, is fine enough below 7, and no shallower depth is fine enough |
| Raster.GetDepth | bearmap/server/handler/impl/RasterAPIHandler.java:205-228 | The depth is the least depth in 0..7 whose longitude per pixel is at most the query's, and 7 when none is |
| Raster.DepthMonotone | bearmap/server/handler/impl/RasterAPIHandler.java:205-228 | A smaller requested longitude per pixel never gives a smaller depth |
| Raster.LastEdges | bearmap/server/handler/impl/RasterAPIHandler.java:96-98 | The far edge of column and row `2^d` is the world's east and south edge |
| Raster.EdgeIndex | bearmap/server/handler/impl/RasterAPIHandler.java:166 | The floor index of a longitude brackets it, and lies in range when the longitude is inside the world |
| Raster.EdgeIndexDown | bearmap/server/handler/impl/RasterAPIHandler.java:177 | The same for a latitude measured down from the north edge |
| Raster.GetULX | bearmap/server/handler/impl/RasterAPIHandler.java:181-190 | 0 when the west edge is west of the world. Otherwise the column whose edges bracket the west edge: a tile when strictly inside the world, and `2^d` when on the world's east edge |
| Raster.GetULY | bearmap/server/handler/impl/RasterAPIHandler.java:192-201 | 0 when the north edge is north of the world. Otherwise the row whose edges bracket the north edge: a tile when strictly inside the world, and `2^d` when on the world's south edge |
| Raster.GetLRXAsWritten | bearmap/server/handler/impl/RasterAPIHandler.java:160-169 | As written: `2^d - 1` only when the east edge is strictly east of the world, else the bracketing column |
| Raster.LRXOnEastEdge | bearmap/server/handler/impl/RasterAPIHandler.java:162-166 | An east edge exactly on the world's east edge gets column `2^d`, one past the last tile |
| Raster.GetLRYAsWritten | bearmap/server/handler/impl/RasterAPIHandler.java:171-179 | As written: `2^d - 1` only when the south edge is strictly south of the world, else the bracketing row |
| Raster.LRYOnSouthEdge | bearmap/server/handler/impl/RasterAPIHandler.java:173-177 | A south edge exactly on the world's south edge gets row `2^d`, one past the last tile |
| Raster.GetLRX | bearmap/server/handler/impl/RasterAPIHandler.java:160-169 | Corrected: `2^d - 1` when the east edge is on or east of the world's. Otherwise the bracketing column; always a tile when not west of the world |
| Raster.GetLRY | bearmap/server/handler/impl/RasterAPIHandler.java:171-179 | Corrected: `2^d - 1` when the south edge is on or south of the world's. Otherwise the bracketing row; always a tile when not north of the world |
| Raster.OutOfBox | bearmap/server/handler/impl/RasterAPIHandler.java:139-158 | For a query with ordered corners, `outOfBox` is true exactly when the query box and the world do not intersect |
| Raster.WholeWorld | bearmap/server/handler/impl/RasterAPIHandler.java:119-122 | Columns and rows `0..2^d-1` reproduce the world extent exactly at every depth |
| Raster.ResolvedBoxCovers | bearmap/server/handler/impl/RasterAPIHandler.java:113-122 | For a successful query, the indices the code computes satisfy `UL_x <= LR_x + 1` and lie in `0..2^d`. Each is `2^d`, one past the last tile, exactly when its edge lies on the world's east or south edge. The snapped box contains the query box clipped to the world |
| Raster.SucceedingGridRows | bearmap/server/handler/impl/RasterAPIHandler.java:113-124 | For a successful query, the grid size is negative exactly when `UL_y > LR_y + 1`; the column count never is |
| Raster.WestEdgeOnEastEdge | bearmap/server/handler/impl/RasterAPIHandler.java:141-143 | A query whose west edge is exactly the world's east edge passes `outOfBox` and gets `UL_x = 2^d`: one column of missing tiles when its east edge is there too, otherwise no column |
| Raster.NorthEdgeOnSouthEdge | bearmap/server/handler/impl/RasterAPIHandler.java:145-147 | A query whose north edge is exactly the world's south edge passes `outOfBox` and gets `UL_y = 2^d`: one row of missing tiles when its south edge is there too, otherwise no row |
| Raster.MissesWorld | bearmap/server/handler/impl/RasterAPIHandler.java:139-158 | Corrected `outOfBox` with closed tests: true whenever `outOfBox` is, and differs from it only on queries touching the world along an edge |
| Raster.CorrectedTilesInRange | bearmap/server/handler/impl/RasterAPIHandler.java:113-116 | With the closed tests and the corrected clamps, every index is a tile, `UL_x <= LR_x`, and `UL_y <= LR_y` unless the latitudes are inverted |
| Raster.InvertedColumnsNegative | bearmap/server/handler/impl/RasterAPIHandler.java:103-124 | A query whose west edge is two or more columns east of its east edge, both inside the world, fails but gets a negative column count, so the grid allocation throws |
| Raster.ColumnsOrdered | bearmap/server/handler/impl/RasterAPIHandler.java:119-121 | Column edges increase from west to east |
| Raster.RowsOrdered | bearmap/server/handler/impl/RasterAPIHandler.java:120-122 | Row edges decrease from north to south |
| Raster.NegativeRowsNeedInvertedLatitude | bearmap/server/handler/impl/RasterAPIHandler.java:103-124 | With the indices the code computes, a successful query gets a negative row count only when its north edge is south of its south edge, which is never checked |
| Raster.BuildGrid | bearmap/server/handler/impl/RasterAPIHandler.java:124-132 | The grid has `LR_y-UL_y+1` rows and `LR_x-UL_x+1` columns, and `[i, j]` names tile `(depth, UL_x+j, UL_y+i)` |
| Raster.FillRow | bearmap/server/handler/impl/RasterAPIHandler.java:127-131 | The inner loop fills row `i` with the tiles of row `UL_y + i`, columns from `UL_x`, and leaves the other rows alone |
| Raster.ProcessRequest | bearmap/server/handler/impl/RasterAPIHandler.java:88-137 | For every query: a `NegativeArraySizeException` (`None`) exactly when the as-written indices give a negative row or column count. Otherwise `query_success` is exactly "`ullon <= lrlon` and the box meets the world". The result holds the chosen depth, the box snapped to the as-written indices, and a newly allocated grid naming tile `(depth, UL_x+j, UL_y+i)` at `[i, j]` |
| Decimal.NatToString | bearmap/server/handler/impl/RasterAPIHandler.java:130 | The decimal rendering of a natural number is a non-empty string of digits that spells the number, with no leading zero |
| Decimal.IntToString | bearmap/server/handler/impl/RasterAPIHandler.java:130 | The decimal rendering of an index is Java's standard form: a minus sign when it is negative, then non-empty digits that spell its absolute value with no leading zero |
| CleanStrings.CleanString | bearmap/AugmentedStreetMapGraph.java:103-105 | A cleaned string holds only 'a'..'z' and ' ' and is no longer than its input |
| CleanStrings.CleanOne | bearmap/AugmentedStreetMapGraph.java:103-105 | One character survives, lower-cased, exactly when it is an ASCII letter or a space; with `CleanAppend` this determines the cleaned string |
| CleanStrings.CleanKeptOnly | bearmap/AugmentedStreetMapGraph.java:103-105 | A string of ASCII letters and spaces keeps its length, and each character is lower-cased in place |
| CleanStrings.CleanIdempotent | bearmap/AugmentedStreetMapGraph.java:103-105 | Cleaning twice is cleaning once |
| CleanStrings.CleanAppend | bearmap/AugmentedStreetMapGraph.java:103-105 | Cleaning a concatenation is concatenating the cleaned parts |
| CleanStrings.CleanPrefix | bearmap/AugmentedStreetMapGraph.java:70-77 | A raw prefix of a name cleans to a prefix of the cleaned name |
| StreetIndex.NameMapKeys | bearmap/AugmentedStreetMapGraph.java:27-38 | `map_name` holds exactly the non-empty cleaned names of the nodes that have names |
| StreetIndex.NameMapLastWins | bearmap/AugmentedStreetMapGraph.java:34 | A cleaned name maps to the original name of the last node, in list order, that cleans to it |
| StreetIndex.NameMapCleans | bearmap/AugmentedStreetMapGraph.java:31-34 | Every original name in `map_name` cleans to its key |
| StreetIndex.PointMapEntries | bearmap/AugmentedStreetMapGraph.java:40-44 | A point is in `map` exactly when some node with a neighbour lies there, and exactly when it is in `points`. The node stored for it lies there and has a neighbour |
| StreetIndex.IndexStep | bearmap/AugmentedStreetMapGraph.java:27-45 | One more node extends `map_name`, `map` and `points` as the loop body does |
| StreetIndex.IndexFacts | bearmap/AugmentedStreetMapGraph.java:27-45 | After the whole node list, every entry of `map_name` cleans to its key, `map` and `points` hold the same points, and each point's node lies there with a neighbour |
| StreetIndex.Nearest | bearmap/AugmentedStreetMapGraph.java:56 | The nearest-point query returns a point of the set at least as close, by Euclidean distance over (lon, lat), as every other |
| StreetIndex.AugmentedStreetMapGraph.constructor | bearmap/AugmentedStreetMapGraph.java:21-49 | The loop leaves `map_name`, `map` and `points` as the specification functions of the node list describe. The trie then holds exactly the keys of `map_name`, every entry cleans to its key, and each registered point's node lies there with a neighbour |
| StreetIndex.AugmentedStreetMapGraph.IndexNodes | bearmap/AugmentedStreetMapGraph.java:24-45 | The loop over the node list leaves `map_name`, `map` and `points` as the specification functions describe, and the trie holds exactly the keys of `map_name` |
| StreetIndex.AugmentedStreetMapGraph.IndexName | bearmap/AugmentedStreetMapGraph.java:28-38 | A name that cleans to something non-empty is put in `map_name` and the trie under its cleaned form; otherwise nothing changes. The trie keeps holding exactly the keys of `map_name` |
| StreetIndex.AugmentedStreetMapGraph.Closest | bearmap/AugmentedStreetMapGraph.java:55-59 | Fails exactly when no point is registered. Otherwise the id of a registered node with a neighbour whose point is nearest to (lon, lat) |
| StreetIndex.AugmentedStreetMapGraph.GetLocationsByPrefix | bearmap/AugmentedStreetMapGraph.java:70-77 | Fails exactly when the cleaned prefix is empty or no cleaned name starts with it. Otherwise, for each cleaned name starting with it in increasing order, the original name stored for it; each cleans to something starting with the cleaned prefix |
| StreetIndex.AugmentedStreetMapGraph.OriginalNames | bearmap/AugmentedStreetMapGraph.java:73-75 | The loop maps each cleaned key, in order, to its original name, and each of those cleans to something starting with the cleaned prefix |

## Left out

- Floating point: `Math.log10`, `Math.floor`, `Math.pow` and double division are exact real arithmetic. The depth is `ceil(log2(largest / desired))` computed by search, not through logarithms. Rounding effects of IEEE doubles are not modelled.
- The `(int)` casts of `Math.floor` results do not saturate at the 32-bit limits. Java's `int` overflow of `size` is not modelled either: `size` is an unbounded integer.
- Trie.MyTrieSet.Add: `add` mutates node fields and slots in place. The model rebuilds the changed path as new node values, so node aliasing is not captured, and no node is shared between tries.
- Trie.MyTrieSet.Contains and Trie.MyTrieSet.Add: require a non-empty key whose character codes are below 128. The code throws on an empty key. On a key with a code of 128 or more, `contains` returns false when the walk falls off the trie before reaching that character, and throws when it reaches it; it never returns true. `add` throws inside its own `contains` call, before `size` is incremented and with nothing built, when that walk reaches the character along existing nodes. Otherwise it increments `size`, builds nodes up to that character, and then throws, leaving a partial branch whose nodes keep a null `value`. The location index only ever passes non-empty cleaned names, which meet the requirement.
- Trie.MyTrieSet.CollectHelper: the shared `ArrayList` that `collectHelper` appends to is threaded through as a sequence value.
- CleanStrings.CleanString: `toLowerCase` is modelled as ASCII lower-casing of the characters that survive the filter. This assumes the default locale is not Turkish or Azeri. Under those locales `I` becomes the dotless `ı` (code 305), and the later `add` of the cleaned name throws.
- `queryFail` (lines 244-254) is never called by `processRequest`. Its record is the constant `Raster.QueryFail`, and no model operation returns it.
- Raster.ProcessRequest: requires `w > 0`, since a viewport width in pixels is positive by the meaning of the request. The code divides by `w` without a check. A zero width gives an infinite or NaN longitude per pixel in doubles. A negative width runs normally: for a west-to-east box it gives a negative longitude per pixel, and so depth 7. The model does not cover either case.
- Raster.ProcessRequest: the result map becomes a record and `String[][]` becomes an `array2`. The `h` parameter is carried but, as in the code, not used.
- Image composition, Base64 encoding, HTTP parameter parsing, `validateRasteredImgParams`, the logging, and the route-polyline drawing are I/O and are not part of this model.
- The street graph and its node records (`StreetMapGraph`, `Node`) are inputs: a node list and an adjacency map.
- The k-d tree (`WeirdPointSet`) is not part of this model. Its `nearest` is the specification function `StreetIndex.Nearest`, an argmin of Euclidean distance over (lon, lat); how ties are broken is not modelled.
- Points compare by their coordinates, as `Point` is used as a hash-map key.
- StreetIndex.AugmentedStreetMapGraph.Closest: returns `None` on an empty point set, where the code fails inside the k-d tree or on a `null` lookup.
- `getLocations` is a stub that returns an empty list and is not modelled.

## Findings

`Raster.ProcessRequest` keeps the code's behaviour in each of these cases. The corrected members state the intended behaviour, and the intended property is proved about them.

| source | as written | input that shows it | evidently intended | confidence | as-written member | corrected member |
|---|---|---|---|---|---|---|
| bearmap/server/handler/impl/RasterAPIHandler.java:162 | `LR_x` is clamped to the last column only when `lrlon > ROOT_LRLON`; otherwise `floor((lrlon - ROOT_ULLON) / interval)` | `lrlon == ROOT_LRLON` gives `LR_x = 2^d`, one past the last tile, so the grid names a tile that does not exist | clamp when `lrlon >= ROOT_LRLON`, so `LR_x` is always in `[0, 2^d)` | not executed | Raster.GetLRXAsWritten, Raster.LRXOnEastEdge | Raster.GetLRX |
| bearmap/server/handler/impl/RasterAPIHandler.java:141 | `outOfBox` rejects a query only when `ullon > ROOT_LRLON` (and `ullat < ROOT_LRLAT` at line 145) | `ullon == ROOT_LRLON` passes, gets `UL_x = 2^d` and a grid with no column, or with a column of tiles `x = 2^d` that do not exist; `ullat == ROOT_LRLAT` does the same for rows | reject a query that only touches the world along an edge, so that every index is a tile. Clamping `UL_x` to `2^d - 1` would keep the indices in range too, but it would answer a query that shares no area with the world with a strip of edge tiles. Rejection treats such a query like any other query that misses the world | not executed | Raster.WestEdgeOnEastEdge, Raster.NorthEdgeOnSouthEdge | Raster.MissesWorld, Raster.CorrectedTilesInRange |
| bearmap/server/handler/impl/RasterAPIHandler.java:173 | `LR_y` is clamped to the last row only when `lrlat < ROOT_LRLAT` | `lrlat == ROOT_LRLAT` gives `LR_y = 2^d`, one past the last tile | clamp when `lrlat <= ROOT_LRLAT`, so `LR_y` is always in `[0, 2^d)` | not executed | Raster.GetLRYAsWritten, Raster.LRYOnSouthEdge | Raster.GetLRY |
