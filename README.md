# Code-Point Open postcode reconciliation, modelled in Dafny

`import_postcodes.py` compares the UK Code-Point Open postcode centroids with OpenStreetMap data. It writes OSM review files in three groups:

- every centroid;
- the centroids whose postcode is not yet in OSM;
- those of them that lie inside a building.

This project models the script's core and proves what it computes:

- `postcode.dfy` (module `Postcode`) models `fix_postcode`. This is the converter that normalises the postcode column. It is written as the regular-expression match the script runs, with the engine's backtracking order. Proved:
  - the result's shape;
  - that the backtracking order is "longest outward code first";
  - exactly when the converter fails;
  - idempotence.
- `handlers.dfy` (module `Handlers`) models `PostcodeHandler` and `BuildingHandler`. They are classes whose callbacks append to an `osmData` sequence. A ghost record of the visited objects ties `osmData` to a reference function. Lemmas state which objects produce a record.
- `reconcile.dfy` (module `Reconcile`) models `read_codepoint_open_file`. Loading goes through the converter. The spatial joins, filters, `drop_duplicates` and `isin` selections are functions over sequences of rows. Lemmas prove:
  - the three returned frames are exactly the selections described by the independent reference sets `CoveredPostcodes` and `AnchoredPostcodes`;
  - the frames form a chain of subsequences.
- `writer.dfy` (module `OsmWriter`) models `write_osm_file`. It is a method whose loop decrements the node id and appends each node's text. It is proved equal to a specification document. Lemmas cover the document's framing, where each node and tag appears, and that ids are distinct, down to their decimal text.
- `geo.dfy` holds points, rectangles and the strict `Within` test. `wrappers.dfy` holds `Option`.

Three behaviours of the code that are easy to misread:

- **Node callback.** `PostcodeHandler.node` (lines 28-32) has no `try` block. When a node's geometry cannot be built, the exception leaves the callback. Only `area` and `relation` swallow it. `Handlers.PostcodeHandler.Node` returns this as `raised`.
- **Spatial join.** The comments at lines 114 ("+/- 10m search area") and 119 ("within ~10m radius") describe a 10 m search box around each centroid. The code does not do that. The joins at lines 120 and 127 use the frame's active geometry, which is the centroid point built at line 110, and the 10 m `Area` envelopes computed at line 115 are never used. So a row matches when its point lies strictly inside an OSM envelope, not when its 10 m box does.
- **The `'null'` guard.** The guard at line 128 can never remove a row. Every loaded postcode has passed `fix_postcode`, and a normalised postcode is never `"null"` (`Reconcile.LoadedPostcodesAreNotNull`).

## Model

| member | source | states |
|---|---|---|
| `Postcode.FixPostcode` | import_postcodes.py:101-105 | a result is always a normalised postcode: an outward code (1-2 capital letters, 1-2 digits, an optional capital letter), exactly one space, an inward code (digit, two capital letters) |
| `Postcode.MatchSound` | import_postcodes.py:101 | whatever split the backtracking match returns is a real match of the pattern at position 0: outward code, whitespace only, inward code |
| `Postcode.MatchComplete` | import_postcodes.py:101 | whenever some split of the input matches, the backtracking match succeeds, with an outward code at least that long |
| `Postcode.FixPostcodeSucceedsIffMatch` | import_postcodes.py:101-105 | the converter succeeds if and only if some prefix of the input matches the pattern; otherwise `m` is `None` and `.group` fails |
| `Postcode.FixPostcodeLongestOutward` | import_postcodes.py:104-105 | on a match, the result is group 1, one space and group 2 of a real match, and no match has a longer outward code; text after the inward code is dropped |
| `Postcode.NormalisedIsFixed` | import_postcodes.py:101-105 | a postcode already in canonical form comes back unchanged |
| `Postcode.FixPostcodeIdempotent` | import_postcodes.py:101-105 | applying the converter to its own output returns the same output |
| `Postcode.NormalisedIsNotNull` | import_postcodes.py:128 | no normalised postcode is the string `"null"` |
| `Postcode.ExampleInsertsSpace` | import_postcodes.py:101-105 | `"AB101AB"` becomes `"AB10 1AB"` |
| `Postcode.ExampleNoLetters` | import_postcodes.py:101-105 | `"12345"` does not match, so the converter fails |
| `Postcode.ExampleBacktracks` | import_postcodes.py:101-105 | `"A11AB"` becomes `"A1 1AB"`: the engine gives back the second digit so that the inward code can match |
| `Postcode.MatchGivesBackDigit` | import_postcodes.py:101 | on `"A11AB"` both ways of taking two digits fail and the engine settles on one digit |
| `Postcode.ExampleTrailingText` | import_postcodes.py:101-105 | `"SW1A  1AAXYZ"` becomes `"SW1A 1AA"`: the run of spaces collapses to one and trailing text is dropped |
| `Handlers.PostcodeHandler.constructor` | import_postcodes.py:24-26 | a new handler has an empty `osmData` and has visited nothing |
| `Handlers.PostcodeHandler.Node` | import_postcodes.py:28-32 | a node tagged `addr:postcode` whose geometry builds appends one record with that tag value and the envelope; a tagged node whose geometry fails raises and appends nothing; an untagged node is ignored; `Valid()` is kept |
| `Handlers.PostcodeHandler.Area` | import_postcodes.py:34-43 | an area tagged `addr:postcode` appends one record when its geometry builds; a geometry failure is swallowed; nothing else changes |
| `Handlers.PostcodeHandler.Relation` | import_postcodes.py:45-54 | as `Area`, but the relation must also carry `type=multipolygon` |
| `Handlers.BuildingHandler.constructor` | import_postcodes.py:57-59 | a new handler has an empty `osmData` and has visited nothing |
| `Handlers.BuildingHandler.Area` | import_postcodes.py:61-70 | an area tagged `building` appends its envelope when the geometry builds; a geometry failure is swallowed |
| `Handlers.BuildingHandler.Relation` | import_postcodes.py:72-81 | as `Area`, but the relation must also carry `type=multipolygon` |
| `Handlers.PostcodeRecordsAppend` | import_postcodes.py:26-54 | records keep visit order: visiting `xs` then `ys` gives the records of `xs` followed by those of `ys` |
| `Handlers.BuildingRecordsAppend` | import_postcodes.py:59-81 | building envelopes keep visit order in the same way |
| `Handlers.PostcodeRecordsExactly` | import_postcodes.py:28-54 | at most one record per visited object; a record exists exactly when some visited object passes the tag test (relations also need `type=multipolygon`) and its geometry builds, and it carries that object's `addr:postcode` value and envelope |
| `Handlers.BuildingRecordsExactly` | import_postcodes.py:61-81 | at most one envelope per visited object; an envelope exists exactly when some visited area or multipolygon relation tagged `building` has a geometry that builds |
| `Handlers.NodesAddNoBuildings` | import_postcodes.py:56-81 | a building handler that has visited only nodes has collected nothing, because it has no node callback |
| `Reconcile.LoadRows` | import_postcodes.py:109-116 | loading succeeds exactly when the postcode converter accepts every postcode; there is one row per CSV row, in order, with the converted postcode and the reprojected point |
| `Reconcile.SJoin` | import_postcodes.py:120 | the inner `within` join yields exactly the pairs of a row and a right-hand record whose envelope strictly contains the row's point |
| `Reconcile.SamePostcode` | import_postcodes.py:121 | the kept pairs are exactly those whose two postcodes are equal, in their order |
| `Reconcile.DropDuplicates` | import_postcodes.py:122 | the same set of row postcodes, no postcode twice, pairs kept in their order |
| `Reconcile.Select` | import_postcodes.py:123 | `isin` and its negation: a row is kept exactly when its postcode's membership matches, in order |
| `Reconcile.SelectCounts` | import_postcodes.py:123 | a kept row keeps every one of its duplicates (the same multiplicity as in the input); a dropped row keeps none |
| `Reconcile.SelectNone` | import_postcodes.py:130 | a selection that no row passes is empty |
| `Reconcile.NotNull` | import_postcodes.py:128 | the kept pairs are exactly those whose row postcode is not `"null"`, in their order |
| `Reconcile.Reconcile` | import_postcodes.py:118-131 | the first output frame is the input unchanged; the other two are subsequences of it |
| `Reconcile.ReadCodepointOpenFile` | import_postcodes.py:108-131 | the file yields frames exactly when every postcode converts; then `centroids` has one row per CSV row and every postcode is normalised |
| `Reconcile.InOsmKeys` | import_postcodes.py:120-122 | the postcodes left in `pcs_in_osm` after the join, the equality filter and the de-duplication are exactly the covered postcodes |
| `Reconcile.NearBuildingsKeys` | import_postcodes.py:127-129 | the postcodes left in `pcs_near_buildings` after the join, the `'null'` filter and the de-duplication are exactly the anchored postcodes |
| `Reconcile.ReconcileComputes` | import_postcodes.py:118-131 | `centroids_not_in_osm` selects the rows whose postcode is not covered in OSM; `centroids_near_buildings` selects, from all centroids and equally from `centroids_not_in_osm`, the rows whose postcode is anchored to a building by a not-in-OSM row |
| `Reconcile.SelectCompose` | import_postcodes.py:130 | selecting by a key set disjoint from the dropped keys gives the same rows from the reduced frame as from the full frame |
| `Reconcile.SelectAll` | import_postcodes.py:123 | a selection that every row passes returns the frame unchanged |
| `Reconcile.SubsetChain` | import_postcodes.py:123-130 | `centroids_near_buildings` is a subsequence of `centroids_not_in_osm`, which is a subsequence of `centroids` |
| `Reconcile.NotInOsmExactly` | import_postcodes.py:120-123 | a centroid row leaves `centroids_not_in_osm` exactly when some row with its postcode lies strictly inside an OSM envelope tagged with that postcode; rows sharing a postcode are kept or removed together, with their multiplicities |
| `Reconcile.NearBuildingsExactly` | import_postcodes.py:127-130 | a centroid row is in `centroids_near_buildings` exactly when its postcode is not `"null"` and some not-in-OSM row with that postcode lies strictly inside a building envelope |
| `Reconcile.EmptyOsmData` | import_postcodes.py:118-131 | with no OSM postcodes, `centroids_not_in_osm` is all of `centroids`; with no buildings, `centroids_near_buildings` is empty |
| `Reconcile.TaggedRowIsCovered` | import_postcodes.py:120-123 | a row inside an envelope tagged with its own postcode is in neither of the last two frames |
| `Reconcile.UntaggedRowInBuildingIsAnchored` | import_postcodes.py:127-130 | a row whose postcode is in no matching OSM envelope, and which lies inside a building, is in both of the last two frames |
| `Reconcile.UnplacedRowIsLeftForReview` | import_postcodes.py:118-131 | a row whose postcode is neither in OSM nor near a building stays in `centroids_not_in_osm` and is not in `centroids_near_buildings` |
| `Reconcile.LoadedPostcodesAreNotNull` | import_postcodes.py:128 | no loaded row has the postcode `"null"`, so the guard never removes a loaded row |
| `Reconcile.ExampleLoad` | import_postcodes.py:109 | the CSV row `AB101AB` loads as one row with postcode `"AB10 1AB"` and its reprojected point |
| `Reconcile.ExampleAnchoredToBuilding` | import_postcodes.py:108-131 | with no OSM postcodes and one building around the point, that row appears once in each of the three frames |
| `OsmWriter.NatToString` | import_postcodes.py:139 | the decimal text of a natural number is non-empty and made of digits |
| `OsmWriter.IntToString` | import_postcodes.py:139 | the text of an integer is digits with a leading minus sign exactly when it is negative |
| `OsmWriter.ParseNatToString` | import_postcodes.py:139 | reading the decimal text of a number gives the number back |
| `OsmWriter.IntToStringInjective` | import_postcodes.py:139 | different ids are written as different texts |
| `OsmWriter.WriteOsmFile` | import_postcodes.py:133-143 | the loop with the decrementing counter writes exactly the header, then one node text per row in row order with id -k for the k-th row, then the closing tag |
| `OsmWriter.Nodes` | import_postcodes.py:137-140 | one node per row |
| `OsmWriter.NodeIds` | import_postcodes.py:136-140 | the k-th row, counting from 1, gets id -k, so ids are negative, strictly decreasing and distinct; each node carries its row's postcode |
| `OsmWriter.DocumentFraming` | import_postcodes.py:134-143 | the document starts with the XML header and ends with `</osm>` |
| `OsmWriter.ConcatAppend` | import_postcodes.py:137-142 | writing two runs of nodes writes their texts one after the other |
| `OsmWriter.NodeInDocument` | import_postcodes.py:137-142 | every row's node text appears in the output, after the texts of the rows before it and before those of the rows after it |
| `OsmWriter.RowTagsWritten` | import_postcodes.py:140-141 | the nodes' text holds, for every row, the `addr:postcode` tag with that row's postcode, directly followed by the `removemelater=yes` tag; the lemma returns the text before and after them |
| `OsmWriter.NodeTextDeterminesId` | import_postcodes.py:139 | the id can be read back from a node's text: equal node texts have equal ids |
| `OsmWriter.WrittenNodesDistinct` | import_postcodes.py:136-139 | the texts of two different nodes in one file always differ |

## Left out

- **osmium reading.** Reading the `.osm.pbf` files with osmium, `apply_file`, the WKB factory and the node location lookups (lines 13, 30, 37, 88, 96) are foreign I/O. Building a geometry is the parameter `build`, which returns an envelope or `None` for failure.
- **Envelope numerics.** Shapely's `buffer(distance, resolution=3).envelope` and the `distance` constant (lines 21, 31, 115) are floating-point polygon approximation. Envelopes are given rectangles, and coordinates are `real`.
- **Handler frames.** The GeoDataFrames built from `osm_data` (lines 89, 97) are not part of this model. The model passes the handlers' `osmData` sequences to the reconciliation directly.
- **Reprojection.** `to_crs` (lines 113, 116, 137) is the opaque map `toLonLat` in loading and `place` in the writer.
- **CSV parsing.** pandas CSV parsing is left out beyond the converter. Eastings and Northings arrive as numbers, and the positional-quality column is ignored.
- **Float formatting.** Latitude and longitude arrive as opaque text, produced by `place`.
- **File handling.** The file handle is left out. The written document is the method's result.
- **XML escaping.** Postcodes are written without escaping. Normalised postcodes contain no XML metacharacters.
- **Driver code.** `process_postcode_area`, `process_all_files`, directory scanning, `gc.collect` and the commented-out `multiprocessing` pool (lines 145-166) are glue and concurrency.
- **Character classes.** `\d` is taken as ASCII `0`-`9`, not Python's Unicode digits. `\s` is the set of code points that Python's `str.isspace` accepts. `[A-Z]` is ASCII capitals.
- `Handlers.PostcodeHandler.Node`: the exception that leaves the node callback is a returned flag. The model does not show that it aborts `apply_file` and the rest of the read.
- `Reconcile.SJoin`: the contract states which pairs the join yields, not their order. Only the set of their row postcodes is used afterwards.
- `Reconcile.DropDuplicates`: the contract does not say which pair of a postcode is kept (the model keeps the first, as pandas does by default). Only the set of their row postcodes is used afterwards.
