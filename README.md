# icebox_html tile page: the data behind one tile's documentation

This project models `print_tile` from `icebox/icebox_html.py` (Project IceStorm). That function writes the HTML page documenting one tile (tx, ty) of a Lattice iCE40 FPGA. The model covers what the page computes, not the markup it prints:

- **Configuration bitmap.** Every bit of the tile's bit matrix starts as `?`. Each applicable database record then overwrites the cells its bit ids name. A bit id is read after removing every `!` and must match `B<digits>[<digits>]` (modules `BitId` and `Bitmap`).
- **`net2cat`.** The category table of net names, where the last matching prefix rule wins (`NetCat`, over the ordered tables of `Rules`).
- **Net families.** Local net names of the shape `<prefix>_<digits><rest>` are collected under `prefix*rest`, and the family listing is formed from them (`Families`).
- **Segment grouping.** The tiles visible in the 5x5 window, and the segment groups of the focal tile keyed by their sorted local names (`Segments`).
- **Routing configuration.**
  - Routing and buffer records go into buckets keyed by kind, destination and sorted stripped bits, and the buckets are filed by the destination's category; the other records are filed by their fields (`Routing`).
  - The connectivity matrix of each category has one marker per (source, destination) pair (`Links`).
- **Connectivity-matrix header.** The common destination-name prefix, backed off to an underscore (`DstPrefix`).
- **Configuration stamps.** One 0/1 row per record of a bucket, with the rows emitted in sorted order (`Stamps`).

Supporting modules:

- `Wrappers`: Option and Result.
- `Text`: digits, `int()`, `"%d"`, `str.replace`, `join` and `split`.
- `Ordering`: Python's `str` order and a sort proved sorted and a permutation.
- `TileDb`: database records, segments, categories, and the `Failure` reasons a page aborts.

Each abort in the computations modelled becomes an `Err` of `Failure`:

- a failed `assert`;
- an unknown function kind;
- a regex match of `None` being dereferenced;
- an index out of range.

Two further aborts happen in printing code that is not modelled; "## Left out" lists them. In the source, the first abort ends the page. The `…ErrPrefix` lemmas show that the model likewise keeps the first error.

Bit ids: `int()` accepts leading zeros, so `B03[4]` and `B3[4]` name one cell. The model follows the code (`BitId.LeadingZeroSameCell`).

The loops of the source are methods. Each method is proved equal to a specification function written as a fold from the end, and the source's promises are proved about those functions.

The chip database is a parameter:

| Source call | Model parameter |
|---|---|
| `ic.tile_db` | a sequence of records |
| `ic.tile_has_entry` | a predicate `applies` |
| `ic.tile(tx, ty)` | its row widths |
| `ic.tile_pos` | a predicate `tileExists` |
| `ic.group_segments` | a sequence of groups of segments, in the order the page visits them |

Some operations are taken as function parameters and proved for every such parameter:

- the family filing (`Filing`) in `Segments`;
- the keys and categoriser (`Keying`) in `Routing`;
- the bit locator (`Locator`) in `Bitmap`.

The page itself instantiates them with `FamilyOf`, `TileKeying` and `Address`.

## Model

| member | source | states |
|---|---|---|
| Text.ParseNatToString | icebox/icebox_html.py:257-258 | `int()` of the decimal text `"%d" % n` gives back n |
| Text.NatToStringParse | icebox/icebox_html.py:330 | a canonical digit string (no leading zero) is reproduced by `"%d" % int(s)` |
| Text.StripBang | icebox/icebox_html.py:255 | `bit.replace("!", "")` leaves no `!`, never lengthens the id, and keeps every other character as often as the id has it |
| Text.StripBangAppend | icebox/icebox_html.py:255 | the replace works character by character: on a concatenation it gives the concatenation of the parts' results |
| Text.StripBangTwice | icebox/icebox_html.py:255 | removing `!` a second time changes nothing |
| Text.StripBangNoop | icebox/icebox_html.py:255 | an id without `!` is unchanged by the replace |
| Text.SplitJoin | icebox/icebox_html.py:433 | splitting a comma-join of comma-free pieces at `,` returns exactly the pieces |
| Text.ReplaceStarNoStar | icebox/icebox_html.py:386 | `str.replace("*", t)` leaves a string without `*` unchanged |
| Ordering.Sort | icebox/icebox_html.py:541 | `sorted()` of strings: the result is in ascending `str` order and is a permutation of the input |
| Ordering.SortedUnique | icebox/icebox_html.py:541 | two sorted permutations of the same strings are equal, so the sorted output is determined by the multiset |
| Ordering.SortPermutationInvariant | icebox/icebox_html.py:336 | sorting two permutations of one list gives the same list |
| Ordering.LexLeTotal | icebox/icebox_html.py:541 | Python's string order is total |
| Ordering.LexLeAntisym | icebox/icebox_html.py:541 | Python's string order is antisymmetric |
| Ordering.LexLeTrans | icebox/icebox_html.py:541 | Python's string order is transitive |
| Ordering.SortedInts | icebox/icebox_html.py:388 | `sorted(indices)` of a set of ints: strictly ascending, with exactly the set's elements |
| Rules.FirstMatch | icebox/icebox_html.py:267-292 | an `if/elif` chain: no value exactly when no rule matches, otherwise the value of the first matching rule |
| Rules.LastMatch | icebox/icebox_html.py:342-371 | a chain of independent `if`s: the default when nothing matches, otherwise the value of the last matching rule |
| BitId.ParseBitIdSpec | icebox/icebox_html.py:256-258 | `re.match(r"B(\d+)\[(\d+)\]$")` succeeds exactly on `B`, digits, `[`, digits, `]` (optionally followed by one final newline), and yields the two decimal values |
| BitId.ParseComposed | icebox/icebox_html.py:256-258 | `B<d1>[<d2>]` for digit strings d1, d2 parses to (int(d1), int(d2)) |
| BitId.ParseBitIdString | icebox/icebox_html.py:256-258 | the canonical id of (row, col) parses back to (row, col) |
| BitId.NegatedAddressesSameCell | icebox/icebox_html.py:255-258 | `!B<r>[<c>]` and `B<r>[<c>]` address the same cell (r, c) |
| BitId.LeadingZeroSameCell | icebox/icebox_html.py:256-258 | `B0<r>[<c>]` addresses the same cell as `B<r>[<c>]`, so ids are not unique per cell |
| BitId.TrailingText | icebox/icebox_html.py:256 | after a well-formed id, only a single trailing newline is tolerated by `$`; any other extra character fails the match |
| BitId.NoBangInBitId | icebox/icebox_html.py:255 | a canonical id contains no `!` for the replace to remove |
| TileDb.Applicable | icebox/icebox_html.py:252-254 | the records kept by `tile_has_entry`, in database order: a record is kept exactly when it is in the database and applies |
| TileDb.ApplicableCount | icebox/icebox_html.py:252-254 | a kept record is kept as often as the database holds it, and a dropped one not at all |
| Bitmap.InitialGrid | icebox/icebox_html.py:245-250 | the grid has the tile's shape and every cell is the grey `?` cell, not routing |
| Bitmap.NewGrid | icebox/icebox_html.py:245-250 | the nested loops build that initial grid |
| Bitmap.Painted | icebox/icebox_html.py:259-292 | a cell is repainted exactly when the kind is known; the colour and label are those of the kind; `is_routing` becomes true for routing/buffer kinds and is never cleared |
| Bitmap.PaintedTwice | icebox/icebox_html.py:259-292 | repainting a cell with the same kind changes nothing |
| Bitmap.PaintBitOk | icebox/icebox_html.py:255-292 | one bit succeeds exactly when its id parses inside the tile's shape and the kind is known; the grid keeps its shape |
| Bitmap.PaintBitCell | icebox/icebox_html.py:259-292 | only the addressed cell changes, and it becomes the painted cell |
| Bitmap.PaintBitsOk | icebox/icebox_html.py:255-292 | a record's bits succeed exactly when every bit fits and the kind is known |
| Bitmap.PaintBitsCell | icebox/icebox_html.py:255-292 | after a record, a cell is repainted exactly when one of the record's bits addresses it |
| Bitmap.LastTouch | icebox/icebox_html.py:252-292 | the index of the last record touching a cell: that record touches it and no later one does |
| Bitmap.TouchedSnoc | icebox/icebox_html.py:252-292 | appending a record moves the last writer of a cell to it exactly when it touches the cell; the routing flag accumulates |
| Bitmap.PaintEntriesOk | icebox/icebox_html.py:252-292 | painting all records succeeds exactly when every record's bits fit and its kind is known |
| Bitmap.PaintEntriesCell | icebox/icebox_html.py:252-292 | last writer wins: a cell is `?` if untouched, else it has the colour and label of the last record touching it, and `is_routing` iff some routing/buffer record touched it |
| Bitmap.BitmapOkIff | icebox/icebox_html.py:245-292 | the page's bitmap exists exactly when every applicable record's ids parse inside the shape and its kind is known |
| Bitmap.CellIsLastWriter | icebox/icebox_html.py:245-292 | the last-writer statement for the page's own address parser |
| Bitmap.PaintBitsErrPrefix | icebox/icebox_html.py:256-292 | the first failing bit of a record is the error of the whole record |
| Bitmap.PaintEntriesErrPrefix | icebox/icebox_html.py:252-292 | the first failing record is the error of the whole loop |
| Bitmap.PaintRecord | icebox/icebox_html.py:255-292 | the loop over one record's bits computes PaintBits |
| Bitmap.BuildBitmap | icebox/icebox_html.py:245-293 | the grid set-up and the loop over the applicable records compute the bitmap of the applicable records |
| NetCat.Net2Cat | icebox/icebox_html.py:342-371 | `(99, "Unsorted")` when no prefix matches, otherwise the category of the last matching rule |
| NetCat.LutRule | icebox/icebox_html.py:352-359 | rules 8..15 are `lutff_<d>` giving `(30, "Logic Unit <d>")` for d = 0..7 |
| NetCat.LaterRulesMiss | icebox/icebox_html.py:360-370 | no rule after the `lutff_` ones matches a name starting `lu` |
| NetCat.LogicUnit | icebox/icebox_html.py:351-359 | `lutff_<d>…` with d in 0..7 is `(30, "Logic Unit <d>")` |
| NetCat.LogicBlock | icebox/icebox_html.py:351 | `lutff_` not followed by 0..7 is `(25, "Logic Block")` |
| Families.MatchFamilySpec | icebox/icebox_html.py:328 | `re.match(r"(.*?_)(\d+)(.*)")` succeeds exactly when, before any newline, some `_` is followed by a digit; the prefix ends at the first such `_`, the digit run is maximal, the rest runs to the line end and the three pieces rebuild the name |
| Families.MatchFamilyFound | icebox/icebox_html.py:328 | when the leftmost `_`+digit split exists, the match is taken at exactly that split |
| Families.MatchFamilyNotFound | icebox/icebox_html.py:328 | when there is no split before a newline, every `_`+digit split lies after one |
| Families.AddFamily | icebox/icebox_html.py:329-332 | `setdefault(...).add(...)` adds the name's family key to the keys and nothing else |
| Families.IndicesOnlyGrow | icebox/icebox_html.py:329-332 | filing a name never removes a key or an index, and adds the name's index under its key |
| Families.AddFamiliesSpec | icebox/icebox_html.py:325-332 | after filing names, the keys are the old keys plus the names' keys, and an index is under a key exactly when it was, or some name files to that (key, index) |
| Families.TileNetsSpec | icebox/icebox_html.py:325-332 | the same for the page's own filing: `prefix*rest` with `int(digits)`, or the name with -1 |
| Families.NonNegative | icebox/icebox_html.py:382 | definition of `indices`, the family's indices that are >= 0; properties in Families.ListingDropsNothing |
| Families.ListingDropsNothing | icebox/icebox_html.py:325-388 | every index filed under a family is -1, printed as the bare key, or one of the `indices`, so the listing loses no filed name |
| Families.DecimalList | icebox/icebox_html.py:388 | `"%d" % i` of each index, in order |
| Families.FamilyLinesCount | icebox/icebox_html.py:382-388 | a family lists one bare-key line if -1 is present, plus one line if any index >= 0 exists; the bare key comes first |
| Families.ReplaceStarOnce | icebox/icebox_html.py:386 | replacing the single `*` of `prefix*rest` gives `prefix t rest` |
| Families.FamilyRoundTrip | icebox/icebox_html.py:328-332 | a matching name with a canonical index, listed alone, prints as the name itself |
| Families.SeveralIndices | icebox/icebox_html.py:387-388 | with several indices (and no -1) the family prints as `prefix{i,j,...}rest`, ascending |
| Families.InCategory | icebox/icebox_html.py:375-376 | the names filed under category c are exactly the names whose category is c |
| Families.GroupByCategoryKeys | icebox/icebox_html.py:373-376 | the categories of `nets_in_cats` are exactly the categories of the names |
| Families.GroupByCategorySpec | icebox/icebox_html.py:373-376 | a category is present exactly when some name has it, and lists those names in order |
| Families.NetsInCatsSpec | icebox/icebox_html.py:373-376 | the same with `net2cat` as the categoriser |
| Families.CategoriseNets | icebox/icebox_html.py:373-376 | the `setdefault(...).append` loop computes that grouping |
| Segments.VisibleTiles | icebox/icebox_html.py:212-234 | the visible tiles are exactly the existing tiles in the 5x5 window around (tx, ty), the focal tile included |
| Segments.NamesAtSpec | icebox/icebox_html.py:333-334 | a group's names at position p are exactly the names of its segments at p |
| Segments.NeighbourMapSpec | icebox/icebox_html.py:324-334 | `neighbour_segs` has exactly the visible positions where the group has segments, each with its names there |
| Segments.GroupKeyOrderFree | icebox/icebox_html.py:336 | the group key `", ".join(sorted(...))` does not depend on the order of the local names |
| Segments.IndexUniqueOk | icebox/icebox_html.py:335-338 | indexing succeeds exactly when no key repeats |
| Segments.IndexUniqueKeys | icebox/icebox_html.py:335-338 | on success the keys are exactly the given keys, each mapped to its value |
| Segments.IndexUniqueErrPrefix | icebox/icebox_html.py:337 | the first repeated key is the error of the whole loop |
| Segments.GroupItems | icebox/icebox_html.py:322-338 | definition: for each group, its key if it has a segment in the focal tile, and its neighbour map; properties in Segments.GroupsIndexedSpec |
| Segments.GroupsIndexedSpec | icebox/icebox_html.py:318-338 | `groups_indexed` exists exactly when the kept groups' keys are unique, and maps each kept key to that group's neighbour map |
| Segments.AddFamiliesAppend | icebox/icebox_html.py:325-332 | filing two runs of names is filing their concatenation |
| Segments.SplitGroup | icebox/icebox_html.py:323-334 | the loop over one group yields its local names, its neighbour map and the families with the local names added |
| Segments.IndexSegments | icebox/icebox_html.py:318-338 | the loop over all groups yields `groups_indexed` and `this_tile_nets` as specified, or the duplicate-key failure |
| Routing.StrippedBits | icebox/icebox_html.py:433 | each stripped id has no `!` and addresses the same cell as the id as written |
| Routing.KeyBits | icebox/icebox_html.py:521 | splitting a bucket key at `,` and dropping the head gives the record's sorted stripped bits |
| Routing.KeyNoBits | icebox/icebox_html.py:521 | a record without bits leaves a single empty column |
| Routing.KeyIgnoresOrderAndSense | icebox/icebox_html.py:433 | records whose bits agree up to order and negation share a bucket key |
| Routing.ConfigTablesOk | icebox/icebox_html.py:429-438 | filing fails exactly when some routing or buffer record lacks entry[3] |
| Routing.AddConfigKeeps | icebox/icebox_html.py:432-438 | filing a record keeps every earlier record filed and files the new one |
| Routing.AddConfigBuckets | icebox/icebox_html.py:432-435 | buckets hold only records seen so far, each a routing/buffer record under its own key |
| Routing.ConfigTablesFiled | icebox/icebox_html.py:429-438 | every routing/buffer record is in the bucket of its key and that key under its destination's category; every bit of every other record is in the set of its key; and the tables are exact, as Routing.ConfigTablesExact states |
| Routing.ConfigTablesExact | icebox/icebox_html.py:429-438 | conversely: a bucket lists exactly its key's records, in database order with repeats; a category holds exactly the keys of its records; a non-routing key holds exactly its records' bits; nothing else is filed |
| Routing.CategoryKeysSpec | icebox/icebox_html.py:433-435 | a key is one of a category's keys exactly when some routing or buffer record with a destination of that category has it |
| Routing.TileKeyFixesCategory | icebox/icebox_html.py:433-435 | with the page's keys, records sharing a bucket key share their destination, and so its category, when no destination name contains a comma |
| Routing.ConfigTablesListed | icebox/icebox_html.py:440-446 | every key under a category has a bucket, and every bucketed record has source and destination, so `config_groups[cfggrp]`, `entry[2]` and `entry[3]` never fail |
| Routing.ConfigTablesErrPrefix | icebox/icebox_html.py:429-438 | the first record without destination is the error of the whole loop |
| Routing.FileRecord | icebox/icebox_html.py:432-438 | the body of the loop files one record |
| Routing.BuildConfigTables | icebox/icebox_html.py:425-438 | the loop over the applicable records builds `config_groups`, `grpgrp` and `other_config_groups` |
| Links.EndsSpec | icebox/icebox_html.py:473-481 | `src_nets`, `dst_nets` and the pairs are exactly the records' sources, destinations and (source, destination) pairs |
| Links.LinksOk | icebox/icebox_html.py:482-487 | the matrix is built exactly when no two records share a (source, destination) pair |
| Links.LinksDescribes | icebox/icebox_html.py:473-487 | then every pair has exactly its record's marker, `B` for buffer and `R` otherwise, and nothing else is in the matrix |
| Links.LinksOrderFree | icebox/icebox_html.py:477-487 | the matrix does not depend on the order in which records are visited |
| Links.SameEnds | icebox/icebox_html.py:473-481 | a sub-multiset of records has a subset of the pairs, sources and destinations |
| Links.LinksErrPrefix | icebox/icebox_html.py:483-486 | the first duplicate pair is the error of the whole loop |
| Links.CategoryEntries | icebox/icebox_html.py:477-479 | the records visited for a category are exactly those in the buckets of its keys |
| Links.EntriesCount | icebox/icebox_html.py:477-479 | walking distinct keys over exact buckets meets each routing record whose key is listed as often as the database holds it, and no other record |
| Links.KeyListed | icebox/icebox_html.py:433-435 | a routing record's key is one of category c's keys exactly when its destination has category c |
| Links.CategoryRecords | icebox/icebox_html.py:477-479 | taken over `grpgrp[cat]`, each key once, the records visited for a category are its routing and buffer records, each as often as in the database |
| Links.DistinctPerm | icebox/icebox_html.py:482-486 | whether two records share a (source, destination) pair does not depend on their order |
| Links.DescribesPerm | icebox/icebox_html.py:473-487 | a matrix describing some records describes any reordering of them |
| Links.CategoryMatrix | icebox/icebox_html.py:473-487 | the matrix of a category is built exactly when no two of its routing records share a (source, destination) pair; it then holds exactly their pairs, each with its record's marker, and exactly their sources and destinations |
| Links.AddGroup | icebox/icebox_html.py:478-487 | the inner loop adds a bucket's records to the matrix |
| Links.BuildLinks | icebox/icebox_html.py:473-487 | the loop over a category's buckets builds the matrix of the category's records |
| DstPrefix.Tails | icebox/icebox_html.py:496-497 | each name loses its first character, and putting that character back gives the name |
| DstPrefix.PrependTails | icebox/icebox_html.py:496-500 | putting a character in front of each name and dropping it again gives the names back: the two loops undo each other |
| DstPrefix.Prepend | icebox/icebox_html.py:499-500 | definition: each name with the character put back in front; properties in DstPrefix.PrependTails and DstPrefix.BackSplit |
| DstPrefix.StripLoopSplit | icebox/icebox_html.py:494-497 | stripping only extends the prefix, and prefix + shortened name is always the original |
| DstPrefix.StripLoopErr | icebox/icebox_html.py:494-497 | stripping fails exactly when some name is a prefix of all names and would run empty |
| DstPrefix.StripLoopMaximal | icebox/icebox_html.py:494-497 | the stripped prefix is at least as long as any common prefix |
| DstPrefix.BackSplit | icebox/icebox_html.py:498-501 | backing off keeps prefix + name equal to the original and stops at empty or `_` |
| DstPrefix.BackMaximal | icebox/icebox_html.py:498-501 | backing off stops at the longest underscore-ended prefix |
| DstPrefix.DstPrefixSplit | icebox/icebox_html.py:491-501 | the prefix is empty or ends in `_`, and prefix + column name is each destination name |
| DstPrefix.DstPrefixSingle | icebox/icebox_html.py:493 | with at most one destination the prefix is empty and the names are unchanged |
| DstPrefix.DstPrefixErr | icebox/icebox_html.py:493-497 | the extraction fails exactly when there are several names and one of them is a prefix of all |
| DstPrefix.DstPrefixMaximal | icebox/icebox_html.py:491-501 | the prefix is the longest underscore-ended common prefix |
| DstPrefix.DstPrefixOrderFree | icebox/icebox_html.py:492 | the prefix does not depend on the `key_netname` order of the destinations |
| DstPrefix.FirstChars | icebox/icebox_html.py:494 | `set([n[0] for n in ...])` fails on an empty name, else is exactly the first characters |
| DstPrefix.OneHead | icebox/icebox_html.py:494 | that set has one element exactly when all names share the first character |
| DstPrefix.DropFirst | icebox/icebox_html.py:496-497 | the in-place loop drops each name's first character |
| DstPrefix.PutBack | icebox/icebox_html.py:499-500 | the in-place loop puts the character back on each name |
| DstPrefix.SplitDstPrefix | icebox/icebox_html.py:491-501 | the two while loops compute the prefix and the shortened names, or fail where `n[0]` would |
| Stamps.Cell | icebox/icebox_html.py:530-533 | every bit cell has the same width, so cells line up position by position |
| Stamps.Cells | icebox/icebox_html.py:529-533 | the bit cells of a row take 25 characters per bit |
| Stamps.StampCell | icebox/icebox_html.py:528-535 | the k-th bit cell of a row reads 1 exactly when the key's k-th bit occurs un-negated in the record's bits, and 0 otherwise (including as `!bit`) |
| Stamps.OwnRow | icebox/icebox_html.py:521-533 | each column of a record's own bucket is one of its bits with `!` removed, and shows 1 exactly when the record holds it un-negated |
| Stamps.CellsAgree | icebox/icebox_html.py:529-533 | records agreeing on every bit have the same bit cells |
| Stamps.CellOrder | icebox/icebox_html.py:531-533 | a 0 cell sorts strictly before a 1 cell |
| Stamps.StampOrder | icebox/icebox_html.py:541 | rows sort by their bit pattern: at the first differing bit, the record without it comes strictly first |
| Stamps.Rows | icebox/icebox_html.py:525-536 | definition of `group_lines`: one row per record, in bucket order; properties in Stamps.StampCell, Stamps.OwnRow and Stamps.StampLines |
| Stamps.StampLines | icebox/icebox_html.py:541 | the printed rows are sorted and are a permutation of the records' rows |
| Stamps.StampRow | icebox/icebox_html.py:528-535 | the loop over the bits builds a record's row |
| Stamps.StampTable | icebox/icebox_html.py:519-541 | the loop over a bucket's records and the final `sorted` produce the printed rows |
| BitId.ParseBitId | icebox/icebox_html.py:256-258 | definition of the `B(\d+)\[(\d+)\]$` match and its two `int()`s; properties in BitId.ParseBitIdSpec, BitId.ParseComposed and BitId.TrailingText |
| BitId.Address | icebox/icebox_html.py:255-258 | definition: remove `!`, then parse; properties in BitId.NegatedAddressesSameCell, BitId.LeadingZeroSameCell and Routing.StrippedBits |
| Bitmap.FunctionMark | icebox/icebox_html.py:259-292 | definition of the colour and label of each function kind; properties in Bitmap.Painted and Bitmap.PaintBitOk |
| Bitmap.PaintEntries | icebox/icebox_html.py:252-292 | definition of the painting loop as a fold; properties in Bitmap.PaintEntriesOk, Bitmap.PaintEntriesCell and Bitmap.BuildBitmap |
| Bitmap.BitmapOf | icebox/icebox_html.py:245-292 | definition of the page's bitmap; properties in Bitmap.BitmapOkIff and Bitmap.CellIsLastWriter |
| Families.MatchFamily | icebox/icebox_html.py:328 | definition of the `(.*?_)(\d+)(.*)` match; properties in Families.MatchFamilySpec, Families.MatchFamilyFound and Families.MatchFamilyNotFound |
| Families.FamilyOf | icebox/icebox_html.py:328-332 | definition of a name's family key and index; properties in Families.TileNetsSpec and Families.FamilyRoundTrip |
| Families.FamilyLines | icebox/icebox_html.py:382-388 | definition of a family's listing; properties in Families.FamilyLinesCount, Families.SeveralIndices, Families.FamilyRoundTrip and Families.ListingDropsNothing |
| Families.GroupByCategory | icebox/icebox_html.py:373-376 | definition of `nets_in_cats`; properties in Families.GroupByCategorySpec and Families.InCategory |
| Segments.NeighbourMap | icebox/icebox_html.py:324-334 | definition of `neighbour_segs`; properties in Segments.NeighbourMapSpec |
| Segments.GroupKey | icebox/icebox_html.py:336 | definition of the group key; properties in Segments.GroupKeyOrderFree |
| Segments.IndexUnique | icebox/icebox_html.py:335-338 | definition of the asserted insertion into `groups_indexed`; properties in Segments.IndexUniqueOk and Segments.IndexUniqueKeys |
| Segments.GroupsIndexed | icebox/icebox_html.py:318-338 | definition of `groups_indexed`; properties in Segments.GroupsIndexedSpec and Segments.IndexSegments |
| Routing.ConfigKey | icebox/icebox_html.py:433 | definition of `cfggrp`; properties in Routing.KeyBits, Routing.KeyNoBits, Routing.KeyIgnoresOrderAndSense and Routing.TileKeyFixesCategory |
| Routing.OtherKey | icebox/icebox_html.py:437 | definition of `"&nbsp;".join(entry[1:])`; properties in Routing.ConfigTablesFiled and Routing.ConfigTablesExact |
| Routing.AddConfig | icebox/icebox_html.py:432-438 | definition of the body of the filing loop; properties in Routing.AddConfigKeeps and Routing.AddConfigBuckets |
| Routing.ConfigTablesOf | icebox/icebox_html.py:429-438 | definition of the three tables; properties in Routing.ConfigTablesOk, Routing.ConfigTablesFiled and Routing.ConfigTablesExact |
| Links.AddLink | icebox/icebox_html.py:482-487 | definition of one record entered into the matrix; properties in Links.LinksOk |
| Links.LinksOf | icebox/icebox_html.py:473-487 | definition of the matrix of a sequence of records; properties in Links.LinksOk, Links.LinksDescribes and Links.CategoryMatrix |
| DstPrefix.StripLoop | icebox/icebox_html.py:494-497 | definition of the first while loop; properties in DstPrefix.StripLoopSplit, DstPrefix.StripLoopErr and DstPrefix.StripLoopMaximal |
| DstPrefix.Back | icebox/icebox_html.py:498-501 | definition of the second while loop; properties in DstPrefix.BackSplit and DstPrefix.BackMaximal |
| DstPrefix.DstPrefixOf | icebox/icebox_html.py:491-501 | definition of the header prefix and column names; properties in DstPrefix.DstPrefixSplit, DstPrefix.DstPrefixErr and DstPrefix.DstPrefixMaximal |
| Stamps.Row | icebox/icebox_html.py:525-533 | definition of one stamp row; properties in Stamps.StampCell, Stamps.OwnRow and Stamps.StampOrder |

## Left out

- Command-line parsing and usage (icebox/icebox_html.py:29-62): I/O plumbing.
- The per-chip `mktiles` tables (icebox/icebox_html.py:66-137): configuration data without behaviour.
- The expand/collapse helpers and their counter (icebox/icebox_html.py:139-150): presentation.
- `print_index`, and every `print` of HTML markup, colours and table layout in `print_tile`: presentation. This includes:
  - the neighbourhood table colours (219-233);
  - the bitmap tables;
  - the per-category connection lists built from `all_cats` (395-415);
  - the rendering of the connectivity matrix (502-516);
  - the anchor wrapped around each bitmap label (293).
  - The bitmap models a cell's colour as a shade and its label as one character.
- `bits_in_cat` (icebox/icebox_html.py:440-449): it only greys cells of a printed table. Its regex has no `$`, so a bucket key with no bits would dereference `None` there. `Routing.KeyNoBits` shows that such a key yields one empty column.
- The stamp table header (icebox/icebox_html.py:522-524, 534-540): presentation. This covers the column anchors and the `is_buffer` choice of header texts.
- The `replace` on the keys of `other_config_groups` (icebox/icebox_html.py:574): presentation. The model files these records under `"&nbsp;".join(entry[1:])` with the bits as written.
- Output file selection, `sys.stdout` redirection and the `os.system` call (icebox/icebox_html.py:579 onwards): I/O.
- The chip database (`ic.tile_db`, `ic.tile_has_entry`, `ic.tile`, `ic.tile_pos`, `ic.group_segments`, `ic.tile_type`): not modelled. The model takes its results as parameters instead (see above).
- The order of `sorted(grouped_segs)` and of `sorted(grpgrp[cat])`: the model takes these as given sequences. For a category, it requires only that the sequence lists each of the category's keys once (`Links.ListsOnce`). The results proved do not depend on the order except through the reported failure.
- An empty tile, one with no rows: `len(tile[0])` (icebox/icebox_html.py:242) and `bitmap_cells[0]` (icebox/icebox_html.py:452) raise IndexError. Both are in printing code. The model's bitmap is then the empty grid, and no failure is reported.
- A non-routing record without bits: `list(other_config_groups[cfggrp])[0]` (icebox/icebox_html.py:574) raises IndexError. The table it prints is not modelled. The model files the key with an empty set of bits, and no failure is reported.
- Links.CategoryMatrix: requires that records sharing a bucket key have destinations of one category (`Routing.KeyFixesCategory`). `Routing.TileKeyFixesCategory` proves this for the page's keys when no destination name contains a comma. With commas, dst `a,B1` with bits `B2` and dst `a` with bits `B1`, `B2` share the key `routing a,B1,B2`, so one bucket can hold records of two categories.
- `icebox.key_netname`: not visible to this model. The model takes the destination order as a given sequence. `DstPrefix.DstPrefixOrderFree` proves that the prefix does not depend on it.
- Regular expressions: reduced to the three fixed shapes the page uses.
- `\d`: the model accepts ASCII digits only, whereas Python also accepts other Unicode decimal digits, as does `int()`.
- DstPrefix.DstPrefixOrderFree: states only that the prefix is independent of the order. The shortened names follow the order they are given in.
- Links.LinksOrderFree: assumes both visiting orders succeed. Which duplicate pair is reported does depend on the order.
