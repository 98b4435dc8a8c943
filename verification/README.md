# Query pipeline and result collection: a verified model

The system lets a user ask many data sources with one SQL statement and shows the answers as a graph. This
project models three parts of it and proves what they promise.

**The query pipeline.** A statement is validated and its LIMIT clamped, OR and IN are split into separate
statements for sources that cannot take them, and the user's column names are replaced by the source's own.
Splitting and renaming overwrite a tree of heap nodes in place (`Nodes`, `Replace`, `Parse`). They are
specified by functions on trees (`Split`, `Renaming`), and `Sql.Holds` says which rows an expression selects.
Two plugins compile the WHERE expression further, to Elasticsearch bool queries (`Elastic`) and to MongoDB
filter documents (`Mongo`). Each stage is proved to keep the selected rows, and `Pipeline` composes the
stages from the user's statement down to what each of the two backends matches. `SplitLoss` and `Unhandled`
say exactly when splitting and unknown operators change what is found, and `NotBetween` the same for MongoDB's
negated ranges.

**Collecting results.** `Present` and `Relations` turn entries into graph relations behind a key index and a
linear scan; `Dedup` says what the collected list is for any list of entries; `Statistics` counts values and
reports the ten most frequent; `SearchLoop` is the plugin loop that stops at a limit. `Concurrent` runs the
same collector from several threads as a state machine over its lock steps, `Gather` the goroutines that
append to one shared response, and `CacheKey` and `CachedSearch` the cache in front of them.

**Smaller pieces.** `Uploads` is the swap-remove sweep over expired files, `Merge` the case-insensitive union
of attributes in the browser, `NodeSize` the recurrence for the size of a graph node.

## How to read it

- A row is a function from field names to optional values, so a source that stores field `c` under another
  name is the same row seen through the renaming (`Renaming.UserRow`).
- Conditions are two-valued. A missing field fails every positive test and passes `!=`, `NOT IN`, `NOT LIKE`
  and `NOT BETWEEN`, which is what `must_not`, `$ne`, `$nin` and `$not` do. LIKE and every operator outside
  the compilers' switches are uninterpreted relations between a field and a right side. Numbers compare as numbers (1 and 1.0 are the same), strings
  lexicographically, and values of different kinds are unordered.
- A fragment of query text is a list of clauses; joining two texts with a comma is concatenation, and the
  empty text is the empty list.
- Heap nodes carry a footprint `Repr` and the tree below them as a value, `View`. Methods are specified by
  what happens to the views. Printing a statement and parsing it again is a deep copy with the same view.
- State machines list their steps as predicates on two states; a run is a list of states joined by steps, and
  properties are proved for every state of every run.

## What turned out not to hold

Where the code does less than it seems to promise, the code is kept as it is and the exact condition is proved.

- Splitting: with a bare OR or IN the code has no place to put a single condition, so every returned statement
  is a copy of the whole one. The rows found are still right (`Pipeline.ParsePreserves`), provided anything was
  split off at all (`Split.BareUncoveredLost`). In parentheses or under AND, mixed and right-leaning lists lose
  rows: `(a = 1 OR b IN (2))` gets no query at all (`SplitLoss.InUnderOrLost`). If no alternative is redundant,
  the split finds the rows of the whole if and only if the expression is covered (`SplitLoss.WhereKeptExactly`);
  equalities and IN lists over different columns are never redundant (`SplitLoss.DifferentColumnsExactly`).
- Renaming keeps every meaning if and only if the word `exist` keeps its name and no other column takes it
  (`Renaming.KeepsMeaningExactly`): a column renamed to `exist` turns a comparison into a test for presence.
- MongoDB's NOT BETWEEN asks for both sides of the interval at once, so it matches nothing for a proper
  interval (`Mongo.NotBetweenMatchesNothing`). Whatever conditions stand beside it, an expression keeps its
  meaning if and only if it has no NOT BETWEEN (`NotBetween.MeaningKeptExactly`).
- Comparison operators outside the switch become empty text in the Elasticsearch plugin. Whatever comparisons
  stand beside them, the query means the expression with them crossed out if and only if no OR has an operand
  of unknown operators only that contains an AND (`Unhandled.CrossedOutExactly`). Such an operand makes the
  whole OR match every document: `a = 1 OR b REGEXP 'x' AND c REGEXP 'y'` filters nothing
  (`Unhandled.FilterLost`), and neither does a query of unknown operators alone. The meaning is kept if and
  only if no operator is unknown (`Unhandled.MeaningKeptExactly`).
- A LIMIT node without a rowcount would pass the clamp unbounded; that is the only way
  (`Pipeline.LimitsBounded`).
- `CopyPresentValues` stays where it is when a part of a dotted key names no map, so `n.m` may pick up an
  unrelated `m` (`Present.UnrelatedValueCopied`). It keeps its promise if and only if the key is there directly,
  its parts are nested maps, or the map its parts lead to has nothing under the last one
  (`Present.DescribedExactly`).
- Comparing two lists or two maps behind an interface panics. With all attributes present an entry panics, when
  it is met a second time, if and only if an identifier is a list or a map, or an attribute is a map or a list
  that holds lists or maps (`Dedup.RepeatedPanicsExactly`); all lists of entries from a pool are collected
  without a panic if and only if it has no such entry (`Dedup.AlwaysCollectedExactly`).
- When a one-value list meets a single stored value that prints alike, the attribute comparison answers at
  once and ignores the remaining attributes (`Dedup.IdenticalExactly`, `Dedup.DifferenceIgnored`).
- The scan compares the map that holds an edge's label and attributes instead of the attributes. An edge that is
  asked for attributes is therefore found if and only if "label" is all that is listed and the entry's value for
  it is the caption the edge shows (`Dedup.EdgeFoundExactly`); a repeated entry is skipped in that case only
  (`Dedup.RepeatedEdgeExactly`, `Dedup.LabelAttributeSkipped`) and emitted again in all others.
- The second critical section of `CreateRelations` lets two threads emit the same relation twice
  (`Concurrent.ThreadsDuplicate`): given a call that is skipped when it is repeated in sequence, every run of n
  threads ends as a sequential one would if and only if n is at most one (`Concurrent.AlwaysSequentialExactly`).
  The counter and the index are exact all the same. All callers in the repository call it from one goroutine,
  with an index, a counter and results of their own.
- Values that print alike share one place in the top ten, which is full if and only if the ten print
  differently (`Statistics.TopTenFull`).
- A value that is not truthy, the empty string, 0 or false, is dropped by a new key and kept by an existing one,
  so the order of merging can matter (`Merge.FalsyValueOrder`). For a key it does not if and only if the target
  has the key, or no source holds anything that starts its list, or every value that is not truthy comes, up to
  case, from a source that can start the list as well (`Merge.OrderIrrelevantExactly`).
- A null makes `merge` throw half-way, as a value for a key that has a list already and as an element of an
  array on either side. A sequence of merges goes through if and only if every value that comes for a key with a
  list is no null and is found, in the list the key started with, before the first null there, if there is one
  (`Merge.NeverThrowsExactly`, `Merge.StoredNullThrows`). Without nulls every order goes through
  (`Merge.NoNullsGoThrough`).
- The comment on the cache pattern speaks of the last digit of the minutes; the pattern leaves the minutes
  alone and blanks both digits of the seconds. The model follows the pattern.
- A cached answer carries neither error messages nor debug information: it is the live one if and only if that
  had none (`CachedSearch.HitFaithfulExactly`).

## Model

| member | source | states |
|---|---|---|
| Sql.ComparisonsMean | plugins/src/mongodb/select.go:60-82 | What "=", "!=", ">", "<", ">=" and "<=" ask of a field with and without a value; without one only "!=" holds |
| Sql.ListsMean | plugins/src/mongodb/select.go:84-113 | IN asks for one of the values, NOT IN for none |
| Sql.RangesMean | plugins/src/elasticsearch.v8/select.go:265-270 | BETWEEN includes both ends and NOT BETWEEN is its negation |
| Sql.ExistMeans | plugins/src/elasticsearch.v8/select.go:356-361 | A comparison with the column "exist" asks for the field's presence |
| Elastic.QueryPreserved | plugins/src/elasticsearch.v8/select.go:381-410 | The root of every supported expression compiles to exactly one clause, which matches exactly the rows the expression selects |
| Elastic.FragmentPreserved | plugins/src/elasticsearch.v8/select.go:126-194 | Under any parent a fragment, read with the parent's connective, selects the rows of its expression; it has several clauses only where the node, looked at through parentheses, has the parent's own connective |
| Elastic.ComparisonPreserved | plugins/src/elasticsearch.v8/select.go:40-116 | Every supported operator becomes one clause that matches the rows of the comparison, at the root and below it |
| Elastic.BetweenPreserved | plugins/src/elasticsearch.v8/select.go:203-277 | BETWEEN and NOT BETWEEN become one clause that matches exactly their rows |
| Elastic.RootIsBool | plugins/src/elasticsearch.v8/select.go:110-113 | Whatever is compiled, the root is one bool query |
| Elastic.Flattened | plugins/src/elasticsearch.v8/select.go:140-193 | Nested connectives of one kind become one list with a clause per operand, none of them a list of the same kind |
| Elastic.FragmentMeans | plugins/src/elasticsearch.v8/select.go:126-194 | With unknown operators among the leaves: a fragment is empty exactly where everything in it vanishes, and otherwise means what has not vanished, where an emptied list matches everything |
| Elastic.QueryMeans | plugins/src/elasticsearch.v8/select.go:381-410 | The root of such an expression is always one clause, for exactly the rows selected |
| Unhandled.VanishesUnderOr | plugins/src/elasticsearch.v8/select.go:180-193 | Under an OR an operand vanishes if and only if it consists of unknown operators and contains no AND |
| Unhandled.MatchesEverything | plugins/src/elasticsearch.v8/select.go:57-115 | A query of unknown operators only, however joined, matches every document |
| Unhandled.OrOfAndMatchesEverything | plugins/src/elasticsearch.v8/select.go:150-154 | Any filter in OR with an AND of two unknown operators matches every document |
| Unhandled.FilterLost | plugins/src/elasticsearch.v8/select.go:143-193 | a = 1 OR b REGEXP 'x' AND c REGEXP 'y' finds a row that satisfies none of the three |
| Unhandled.HarmlessPreserved | plugins/src/elasticsearch.v8/select.go:143-193 | A harmless expression finds exactly the rows of the expression with its unknown comparisons crossed out |
| Unhandled.CrossedOutExactly | plugins/src/elasticsearch.v8/select.go:143-193 | For every choice of the other comparisons and every row the query means the crossed-out expression, if and only if the expression is harmless |
| Unhandled.EmptyDocument | plugins/src/mongodb/select.go:58-129 | In MongoDB an unknown operator alone becomes the empty document, which matches everything |
| Unhandled.LeftOutOfDocument | plugins/src/mongodb/select.go:157-213 | Beside a condition it is left out, under AND and OR, on either side: the document means the condition |
| Unhandled.RedundancyHides | plugins/src/elasticsearch.v8/select.go:143-193 | In a single expression a repeated comparison can hide the harm, which is why the rule speaks of every choice of the comparisons |
| Unhandled.MeaningKeptExactly | plugins/src/elasticsearch.v8/select.go:57-115 | For every choice of the other comparisons and every row the query means the expression itself, if and only if no operator is unknown |
| Mongo.AppendEntries | plugins/src/mongodb/select.go:157-165 | Whatever order the map is iterated in, every entry arrives as a document of its own, and with at most one entry the result does not depend on the order |
| Mongo.HandleAnd | plugins/src/mongodb/select.go:140-172 | The handler with its loops and early error returns yields the outcome of the compiler as a function, whose meaning DocumentMeans gives |
| Mongo.HandleOr | plugins/src/mongodb/select.go:181-214 | The same for OR |
| Mongo.HandleSelectWhere | plugins/src/mongodb/select.go:394-423 | The dispatcher is deterministic although it iterates over maps: every run yields the outcome of the compiler as a function, errors included |
| Mongo.TwoDocuments | plugins/src/mongodb/select.go:157-171 | AND and OR become the list of both documents under "$and" and "$or", nested ones included |
| Mongo.DocumentMeans | plugins/src/mongodb/select.go:140-290 | Every expressible expression compiles to a document with a single key, matching exactly the rows of the expression in which NOT BETWEEN asks for both sides at once |
| Mongo.DocumentPreserved | plugins/src/mongodb/select.go:43-130 | Without NOT BETWEEN the document matches exactly the rows of the expression |
| Mongo.AsCompiledUnchanged | plugins/src/mongodb/select.go:282-287 | The compiled reading differs from the expression if and only if it contains a NOT BETWEEN |
| Mongo.NotBetweenMatchesNothing | plugins/src/mongodb/select.go:285-287 | NOT BETWEEN over an interval that is not reversed matches no row at all |
| Mongo.RangeFaithfulExactly | plugins/src/mongodb/select.go:223-290 | A range condition keeps its meaning on all rows that have the field if and only if it is not negated |
| NotBetween.ExposedDiffers | plugins/src/mongodb/select.go:282-287 | An expression with a NOT BETWEEN has a filling of its other places that the row without fields satisfies and its document does not match |
| NotBetween.MeaningKeptExactly | plugins/src/mongodb/select.go:394-423 | For every choice of the other conditions and every row the document means the expression, if and only if nothing is NOT BETWEEN |
| Nodes.Node.Copy | parse.go:246-254 | Printing and parsing a statement gives a tree of new nodes only, with the same contents |
| Replace.Cursor.Replace | replace.go:242-248 | A replacer assigns its own slot of the parent and nothing else |
| Replace.Cursor.PostFunc | replace.go:75-105 | A reached column is replaced in its parent's slot, a parenthesis has its contents renamed, a root column stays; nothing else changes |
| Replace.Cursor.Apply | replace.go:136-148 | The visit renames the tree under the node and restores the cursor's node, parent and replacer |
| Replace.Cursor.ApplyChild | replace.go:304-310 | Visiting one slot renames what hangs there and leaves the other slots and the node itself as they were |
| Replace.Cursor.ApplyChildren | replace.go:336-345 | A live node's children are each renamed once, in place, and the node keeps its own data |
| Replace.ReplaceSql | replace.go:46-70 | The walk over a heap tree ends with the renamed tree as its abstract view, at the same root node, adding only new nodes |
| Renaming.RenamedOnce | replace.go:72-118 | The columns reached afterwards are the old ones in the same order, each looked up once; values, shape and everything not reached are the same |
| Renaming.ReachedNames | replace.go:75-118 | Each reached column ends up under the name the map has for it, or under its own if the map has none or it is empty |
| Renaming.ReachesAllButBare | replace.go:136-1043 | The walk reaches every column of the tree, once and from left to right, except one that is a root or all of a parenthesis |
| Renaming.RoundTrip | replace.go:46-118 | Renaming back with a map that undoes the first one restores the whole tree |
| Renaming.SwapUndoesItself | replace.go:110-118 | Swapping two columns undoes itself, so no name is replaced twice |
| Renaming.StoredUnder | replace.go:110-118 | The user's field c is the stored field under the name the map has for c |
| Renaming.ExistKeptExactly | replace.go:110-118 | The word "exist" is kept if and only if the map's own entries neither rename it nor give its name to another column |
| Renaming.MeaningKept | replace.go:46-118 | The renamed expression selects a stored row exactly when the original selects that row under the user's names |
| Renaming.KeepsMeaningExactly | replace.go:46-118 | A renaming keeps the meaning of all expressions if and only if it leaves the word for existence alone |
| Split.ConditionsSound | parse.go:263-330 | Every condition taken from any tree implies the tree |
| Split.ConditionsComplete | parse.go:272-330 | The conditions of a clean OR chain, an equality or an IN list together say the same as the list |
| Split.NothingLostExactly | parse.go:270-299 | There are never more conditions than alternatives, and as many if and only if the list is clean |
| Split.ChainReversed | parse.go:272-298 | A chain of n equalities gives exactly these n, in reverse order |
| Split.ComparisonConditions | parse.go:303-323 | IN gives one equality per value, in order, and an equality gives itself |
| Split.PeriodQueries | parse.go:182-206 | Beside a period on "datetime" there is one query per condition, with the same period; beside any other range there is none |
| Split.ParenQueries | parse.go:211-244 | In parentheses each condition gets a query in parentheses of its own; an AND in parentheses gets none |
| Split.ChainWithPeriod | parse.go:195-244 | A chain of n equalities with a period gives n queries of one equality and the period, last first |
| Split.SplitSound | parse.go:169-258 | For any WHERE expression the split queries match no row the whole does not match |
| Split.SplitPreserved | parse.go:169-258 | On the documented shapes, and on every bare list of which anything is split off, they match exactly the rows of the whole |
| Split.BareUncoveredLost | parse.go:221-257 | A bare list is covered if and only if it gets any query at all; otherwise no row is found |
| Split.ShapeExactly | parse.go:182-236 | A WHERE expression has the documented shape if and only if there are as many queries as alternatives; the rows lost otherwise are the subject of SplitLoss.WhereKeptExactly |
| SplitLoss.ListKeptExactly | parse.go:263-330 | The conditions of a list without redundant alternatives select the rows of the list if and only if it is clean |
| SplitLoss.WhereKeptExactly | parse.go:169-258 | For any root: if no alternative is redundant beside the rest, the split queries find exactly the rows of the whole if and only if the expression is covered |
| SplitLoss.DifferentColumnsExactly | parse.go:169-258 | The same for equalities and IN lists over different columns, possibly limited to a period that is not reversed |
| SplitLoss.InUnderOrLost | parse.go:272-299 | (a = 1 OR b IN (2)) gets no query although a row satisfies it |
| Parse.SplitIn | parse.go:306-314 | One new equality per value, in order, appended to an unchanged list |
| Parse.SplitComparison | parse.go:303-323 | IN and "=" append new nodes only; other operators append nothing |
| Parse.SplitOr | parse.go:272-299 | A clean OR appends its right side and what its left side gives; other shapes leave the list as it is |
| Parse.SplitOrIn | parse.go:263-330 | The appended nodes are separate trees whose views are the conditions of the expression |
| Parse.Lefts | parse.go:182-236 | The collected conditions are those of the splittable part and are made of the old condition's nodes or new ones |
| Parse.PutCondition | parse.go:240-244 | Assigning a condition under AND or into parentheses changes the statement there and nowhere else |
| Parse.SplitOne | parse.go:239-254 | One turn of the loop yields a separate statement with that condition and leaves the original ready for the next |
| Parse.SplitLoop | parse.go:238-257 | Overwriting the statement in every turn never damages conditions still to be used: one statement per condition, in order |
| Parse.SplitQuery | parse.go:169-258 | The returned statements are new, share no nodes, and differ from the original in their WHERE expressions only, which are those of the split |
| Parse.IncludeFields | parse.go:41-57 | The selected fields are replaced by the source's list if it has one |
| Parse.CheckWhere | parse.go:64-76 | Statements without WHERE, or whose WHERE is not a list of filters, are refused with the right message |
| Parse.ClampNode | parse.go:79-109 | A LIMIT node ends up with an integer offset and a rowcount within the maximum, or the matching error is returned |
| Parse.SetLimit | parse.go:78-116 | The same for a statement with or without a LIMIT; nothing else in it changes |
| Parse.Validate | parse.go:41-126 | Validation succeeds with the clamped statement or fails with the first error in the code's order |
| Parse.RenameAll | parse.go:148-150 | Every query is renamed once and independently: the queries share no nodes before and after |
| Parse.ParseSql | parse.go:24-157 | The returned statements, as trees, are exactly those of the composed functions, or the same error |
| Pipeline.LimitsBounded | parse.go:78-116 | Every returned query has an integer offset, and a rowcount between 0 and the maximum if and only if the statement had no LIMIT node without a rowcount |
| Pipeline.LimitExactly | parse.go:78-116 | The offset is the user's, or 0; the rowcount is the smaller of the user's and the maximum, or the maximum if there is no LIMIT |
| Pipeline.AcceptedExactly | parse.go:59-126 | A statement is accepted if and only if its WHERE has one of the four roots, its LIMIT is of integers with no negative rowcount, and it has one table and no DISTINCT |
| Pipeline.FirstFault | parse.go:59-126 | Of the faults of a statement the first in the code's order is reported |
| Pipeline.RestExactly | parse.go:41-57 | Tables stay, and the fields are the source's list if it has one |
| Pipeline.OneQuery | parse.go:140-150 | A source that takes SQL gets one query, with the whole condition renamed |
| Parse.LiteralRead | parse.go:81-98 | Integer literals of 64 bits are read as what they are |
| Parse.TextRead | parse.go:81-98 | A number written with its sign or without is read back as that number |
| Parse.OthersNotRead | parse.go:84-99 | Other literals, columns, texts with another character and larger numbers are not read as numbers |
| Pipeline.ParseSound | parse.go:133-156 | For any statement no returned query finds a row the user did not ask for |
| Pipeline.ParsePreserves | parse.go:133-156 | On the shapes the splitter covers, and on every shape for sources that take SQL, the queries together find exactly the stored rows the user's expression selects under the user's names |
| Pipeline.ElasticEndToEnd | plugins/src/elasticsearch.v8/select.go:381-410 | From the statement through clamp, split and renaming to the compiled queries: together they match exactly the rows the user asked for |
| Pipeline.MongoEndToEnd | plugins/src/mongodb/select.go:394-423 | The same down to MongoDB, if no column is renamed to $and or $or: the documents match exactly the rows asked for, NOT BETWEEN read as asking for both sides |
| Pipeline.AcceptsExactly | plugins/src/elasticsearch.v8/select.go:310-410 | Which expressions both compilers accept, written out by constructors |
| Pipeline.SameRefusals | plugins/src/mongodb/select.go:394-423 | The two compilers refuse the same expressions |
| Pipeline.BackendsAgree | plugins/src/mongodb/select.go:394-423 | Without NOT BETWEEN the Elasticsearch query and the MongoDB document match the same rows |
| Present.Attributes.CopyNested | pdk/common.go:39-63 | Following the dots ends, and assigns under the key it started from, rebuilt from prefix and rest |
| Present.Attributes.CopyPresentValues | pdk/common.go:33-65 | The loop over the keys ends with the target extended by what each key resolves to |
| Present.CopiedExactly | pdk/common.go:33-65 | A listed key that resolves gets its value; no other key appears or changes |
| Present.CopiedDirectly | pdk/common.go:33-37 | A listed key that the source has with a value arrives with that value, and a key that is not listed stays as it is |
| Present.PrefixKept | pdk/common.go:44-52 | Moving the first part of a key into the prefix never changes the key as a whole |
| Present.PartsJoined | pdk/common.go:45-52 | Cutting a key at its dots loses nothing and leaves no dot in a part |
| Present.WalkLandsThere | pdk/common.go:43-62 | The walk looks the last part up in the map that the parts before it lead to, stepping over those that name no map |
| Present.DescribedExactly | pdk/common.go:26-32 | The description's promise is kept if and only if the key is there directly, its parts are maps all the way down, or the map they lead to has no value under the last part |
| Present.UnrelatedValueCopied | pdk/common.go:47-59 | Without a map "n" the key "n.m" copies a top-level "m" |
| Relations.BuildVertex | pdk/common.go:231-256 | A node gets the type of the first matching expression, or its own, and the listed attributes |
| Relations.FirstMatchExactly | pdk/common.go:241-251 | The type chosen is that of the first expression in the list that matches, and none is chosen only if none matches |
| Relations.BuildGraph | pdk/common.go:231-313 | The emitted relation has both nodes, and an edge whose label is taken from TO, FROM or the definition, in this order |
| Relations.VertexExactly | pdk/common.go:231-283 | A node shows the identifier, the type of the first matching expression or its own, and what the listed attributes stand for |
| Relations.LabelExactly | pdk/common.go:294-300 | The edge's label is the first caption that is not blank: that of TO, of FROM, of the definition |
| Relations.GraphExactly | pdk/common.go:285-313 | A result has its source and both nodes, and an edge if and only if one with a caption or attributes is defined |
| Relations.SliceContains | pdk/common.go:184-192 | The loop finds the value if and only if it is in the list, as long as no two lists or maps meet |
| Relations.AllContained | pdk/common.go:103-107 | The loop succeeds if and only if every value is in the other list; it compares nothing after the first that is not |
| Relations.CompareAttributes | pdk/common.go:71-124 | The loop over the keys with its early answers decides the comparison, and panics at most where the model says so |
| Relations.CompareResult | pdk/common.go:139-148 | The conditions are evaluated one after the other and decide whether a result is the same |
| Relations.ScanResults | pdk/common.go:134-153 | The scan finds a result if and only if one is the same, and needs no more than that the comparisons it makes do not panic |
| Relations.FlatScannable | pdk/common.go:71-153 | An entry without list or map identifiers, map attributes and nested lists is looked up without a panic, whatever was collected before |
| Relations.EmittedFirstExactly | pdk/common.go:200-201 | An entry is emitted at first if and only if it has both identifiers, neither null nor the empty string |
| Relations.NewlyWrittenEmitted | pdk/common.go:207-216 | An entry is emitted whenever no result was written with the same names and printed identifiers |
| Relations.Collector.CreateRelation | pdk/common.go:199-322 | One relation is emitted unless its key is indexed and the scan finds it; counter, index and results stay in step |
| Relations.Collector.CreateRelations | pdk/common.go:197-325 | For an entry and all relations: the counter is the number of results and the index holds exactly their keys |
| Dedup.IdenticalExactly | pdk/common.go:71-124 | The comparison succeeds if and only if all attributes agree, or agree up to a one-value list that prints like the stored value |
| Dedup.PlainIdentical | pdk/common.go:116-119 | For attributes that are no lists or maps it succeeds if and only if all are stored and equal |
| Dedup.DifferenceIgnored | pdk/common.go:109-112 | Two entries that differ in a later attribute can be taken for identical |
| Dedup.SkipSound | pdk/common.go:134-153 | An entry is skipped only if a result has the same two identifiers and the same listed attributes, whichever keys collide as text |
| Dedup.EdgeAttributesNeverFound | pdk/common.go:141-147 | An entry is never skipped for a relation that lists an edge attribute other than the two keys of the edge map |
| Dedup.EdgeFoundExactly | pdk/common.go:141-147 | An edge with listed attributes is taken for identical if and only if all listed are "label" and the entry's value for it is the edge's caption |
| Dedup.RepeatedEdgeExactly | pdk/common.go:207-212 | A complete entry that lists edge attributes is skipped when it is repeated if and only if all it lists is "label" and that is the caption shown |
| Dedup.LabelAttributeSkipped | pdk/common.go:145-145 | A relation with an edge attribute for which a repeated entry is skipped |
| Dedup.RepeatedPanicsExactly | pdk/common.go:71-153 | An entry with all attributes present panics when it is met a second time if and only if it is not flat |
| Dedup.AlwaysCollectedExactly | pdk/common.go:197-325 | With one relation and all attributes present, every list of entries from a pool is collected without a panic if and only if all entries with identifiers are flat |
| Dedup.FlatRunsThrough | pdk/common.go:197-325 | Collecting flat entries never panics |
| Dedup.EveryEntryRepresented | pdk/common.go:197-325 | At the end every entry is represented for every relation of which it has both identifiers, neither null nor empty, with all that its listed keys stand for, dotted ones included |
| Dedup.EmitsIffNew | pdk/common.go:207-212 | With one relation and complete entries, an entry is emitted if and only if its image is not among the results |
| Dedup.FirstOccurrencesDistinct | pdk/common.go:126-133 | A list of first occurrences has no duplicates and misses no element |
| Dedup.ResultsAreFirstOccurrences | pdk/common.go:197-325 | With one relation and complete entries the results are the first occurrences of the entries' images, so none appears twice, and nothing panics |
| Statistics.Stats.Update | pdk/stats.go:36-52 | A present value's count goes up by one in its own field; missing and empty values change nothing |
| Statistics.ToJson | pdk/stats.go:61-99 | Exactly the fields that counted something are reported, each cut to its top ten |
| Statistics.TopTen | pdk/stats.go:79-94 | The loop with its break keeps the first ten values of the iteration and no more |
| Statistics.CountsExact | pdk/stats.go:36-52 | After any entries each value's count is the number of its occurrences, and the counts add up to the number of present values |
| Statistics.CountedExactly | pdk/stats.go:36-52 | A value is counted as often as the field has it, unless it is null or prints as nothing |
| Statistics.TenKept | pdk/stats.go:81-92 | The first ten values of the iteration are kept, or all of fewer |
| Statistics.TopTenFull | pdk/stats.go:79-94 | The report holds min(10, number of values) entries if and only if the kept values print differently |
| Statistics.PrintedCounts | pdk/stats.go:84-84 | Each kept value that prints differently from the others is reported with its own count |
| Statistics.NothingLargerDropped | pdk/stats.go:81-92 | No value left out was counted more often than one that was kept |
| SearchLoop.UpdateAll | plugins/src/rest/rest.go:133-136 | Every listed field is counted once per entry |
| SearchLoop.Search | plugins/src/rest/rest.go:121-146 | The results are those of the processed entries and at most limit - 1 plus the number of relations; statistics are returned exactly when an entry was left over, the limit then being reached, and they count the processed entries |
| Concurrent.RunKeeps | pdk/common.go:203-217 | In every reachable state the counter is the number of results plus that of threads between the sections, the index holds exactly the keys of results and relations on their way, and the lock is held by the one thread inside |
| Concurrent.ExactAtRest | pdk/common.go:317-322 | When all threads are idle counter, index and results agree |
| Concurrent.MutualExclusion | pdk/common.go:203-217 | No two threads are ever in the critical sections together |
| Concurrent.SingleThreadSequential | pdk/common.go:197-325 | With one thread every run computes what the sequential collector does |
| Concurrent.SingleThreadDistinct | pdk/common.go:197-325 | With one thread, one relation and complete entries, the results of any run are at every rest the first occurrences of what it was called with, so nothing comes twice |
| Concurrent.AnyCallEnters | pdk/common.go:199-203 | A thread at rest can take the free lock with any entry that has both identifiers |
| Concurrent.ThreadsDuplicate | pdk/common.go:217-322 | For any number of threads from two on there is a run that emits the same relation twice |
| Concurrent.RepeatedCallSkipped | pdk/common.go:207-212 | A call with complete attributes is skipped when it is repeated in sequence |
| Concurrent.AlwaysSequentialExactly | pdk/common.go:197-325 | Given such a call, every run of n threads that comes to rest leaves what sequential calls would have left, if and only if n is at most one |
| Gather.RunKeeps | api.go:181-191 | In every interleaving the response is whole blocks followed by a prefix of the block being appended |
| Gather.AllCollected | api.go:268-272 | After the wait the relations are the blocks of exactly the successful searches that are to be appended, each once, in some order |
| Gather.NothingLost | api.go:222-256 | As a multiset the response does not depend on the interleaving: every relation arrives as often as it was found |
| Gather.ResponseExactly | api.go:171-191 | After the wait the response holds, as a multiset, the blocks of all searches below their limit and, if they are to be shown, of those that hit it, and nothing of failed ones |
| Gather.ErrorsReported | api.go:170-179 | An error is reported if and only if a search failed, and is one of theirs; statistics if and only if some successful search returned some |
| Gather.FirstErrorStays | api.go:171-175 | The first error of a run stays, later ones do not replace it |
| Gather.LastReportShown | api.go:177-179 | Statistics are replaced by those of the search that reports last |
| Gather.FinalErrorShown | api.go:268-272 | After the wait an error is shown if and only if a search failed or something was refused before, and a failed search is shown first |
| Gather.StepsEnd | api.go:269-269 | Every step is progress, so every schedule ends |
| Gather.NoDeadlock | api.go:181-191 | Until all searches are finished some step is possible |
| CacheKey.OnlyPlace | database.go:24-24 | A query has at most one place where the period pattern can match |
| CacheKey.KeyIdempotent | database.go:477-479 | The key of a key is the key |
| CacheKey.KeysSharedExactly | database.go:509-509 | Two queries that match share a key if and only if they differ in the seconds of the period only |
| CacheKey.KeyWritten | database.go:24-24 | Any query written with a period and perhaps a LIMIT is cached under the same text with dots for both seconds |
| CachedSearch.Cache.QuerySources | api.go:125-142 | A hit returns what is stored under the key and searches nothing; a miss stores the live answer without its error |
| CachedSearch.Cache.Serve | api.go:115-142 | Over any run from any store, each query gets what was stored before under its key, or else the live answer of the first query that shares its key |
| CachedSearch.HitFaithfulExactly | api.go:131-140 | A cached answer is the live one if and only if that reported no error and no debug information |
| CachedSearch.FirstOrEarlier | api.go:299-302 | A query is searched for if and only if no earlier one shares its key, and queries with one key share their first |
| Uploads.Account.Sweep | upload.go:607-653 | The loop with its step back ends; the list and the removed names together are the old list; only expired names are removed, all of them if every update succeeds, and it stops right after the first failed update |
| Uploads.ExactlyUnexpired | upload.go:609-620 | After a complete sweep each unexpired or unreadable name is there as often as before and no expired one is left |
| Uploads.ExactlyOld | upload.go:611-617 | The same on the clock: removed is what reads as a date of more than the expiration ago |
| Uploads.SwapRemoved | upload.go:631-632 | Overwriting with the last name and cutting removes exactly one occurrence of the name |
| Merge.Find | assets/js/search.js:539-543 | The search through a list throws if and only if it meets a null before the value, and else tells whether the value is there in any case |
| Merge.Target.Push | assets/js/search.js:535-545 | The values not yet there in any case are appended, in order, up to the first that cannot be added, where it throws |
| Merge.Target.Merge | assets/js/search.js:530-556 | The loop over the properties, in any order, merges every one of them; it throws if and only if some value of an existing key cannot be added, leaving what was merged by then |
| Merge.AddedIsFirsts | assets/js/search.js:538-541 | What is added to a list are the texts that appear first, up to case, in their order |
| Merge.ArrayMerged | assets/js/search.js:535-550 | An array starts a new key's list as it is; to an existing list its new texts are added in order, and all its texts are there up to case |
| Merge.ValueMerged | assets/js/search.js:542-552 | A truthy value starts a new key's list and another does not; an existing list gets it unless it is there up to case |
| Merge.NothingMerged | assets/js/search.js:530-547 | A null starts no list and throws for an existing key; other keys stay |
| Merge.ThrowsExactly | assets/js/search.js:534-545 | A merge throws if and only if it meets a null for an existing key: as the value, in the array, or in the list before the value |
| Merge.ContributesExactly | assets/js/search.js:535-545 | What a source contributes to a key are the folded texts of its value or array |
| Merge.MergeProperties | assets/js/search.js:514-557 | Old values stay as a prefix, each source value is there up to case, and no value is added that is there already |
| Merge.MergeTwice | assets/js/search.js:538-553 | Merging the same source again changes nothing, and throws if and only if the first merge has stored a null |
| Merge.MergedAllFolded | assets/js/search.js:530-556 | After any sources a key's values, up to case, are exactly the target's and those of the sources that find or start the key's list |
| Merge.BaseKept | assets/js/search.js:534-553 | Whatever is merged, a key's list is the one it started with and texts appended to it |
| Merge.NeverThrowsExactly | assets/js/search.js:534-553 | A sequence of merges goes through if and only if no value comes, for a key that has a list by then, that is null or not found before the first null of the list the key started with |
| Merge.NoNullsGoThrough | assets/js/search.js:534-553 | Without nulls every sequence goes through, in any order |
| Merge.StoredNullThrows | assets/js/search.js:539-550 | A null in the array that starts a list makes the next new value throw |
| Merge.OrderIrrelevant | assets/js/search.js:530-556 | Where the order is free, any two orders of the sources give the same keys and values, up to case |
| Merge.OrderMatters | assets/js/search.js:547-553 | Where it is not, one order keeps some value that is not truthy and another loses it |
| Merge.OrderIrrelevantExactly | assets/js/search.js:530-556 | All orders of the sources give a key the same values, up to case, if and only if the order is free for it |
| Merge.FalsyValueOrder | assets/js/search.js:543-553 | The empty string, 0 or false before an array is lost, and after it is kept |
| NodeSize.Calculate | assets/js/graph.js:855-870 | The loop with its break computes the size and mass given by the recurrence |
| NodeSize.RecalculateSizes | assets/js/graph.js:851-876 | Every node gets size and mass from its own number of edges |
| NodeSize.EdgeByEdge | assets/js/graph.js:855-870 | Each edge adds 30 divided by the size, up to 100; the mass is 1 without edges, a fifteenth of the size, and 15 once the size is cut |
| NodeSize.SizeInRange | assets/js/graph.js:861-870 | The size lies between the start size and the maximum |
| NodeSize.MoreEdgesNotSmaller | assets/js/graph.js:861-870 | A node with more edges is never smaller |
| NodeSize.SquareBound | assets/js/graph.js:862-862 | While uncapped the square of the size grows by at least 60 per edge |
| NodeSize.CapReached | assets/js/graph.js:865-869 | From floor((10000 - start^2) / 60) + 1 edges on the size is the maximum |

## Left out

- The SQL parser and printer: trees are taken as given; column qualifiers, backticks, the text of LIKE patterns, JSON quoting and the building of IN lists from printed tuples are not modelled.
- Removing the datetime filter with a regular expression before parsing (parse.go:26-29), and statements other than SELECT (parse.go:59-62).
- The walker's cases for Exprs, OnDup, MatchExpr, FuncExpr, GroupBy, Having, OrderBy and table expressions; such nodes are opaque here. Renaming inside aliased, arithmetic and tuple expressions is commented out in the code.
- Parse.ParseSql: requires, of statements that pass validation, what the splitter's unchecked type assertions require, a range on the right of AND and a tuple under IN; the panics themselves are not modelled.
- Pipeline.SameRefusals: an operand of IN or LIKE that is no text counts as a refusal, where the code panics; MongoDB's additional refusal of IN lists that are no JSON is not modelled.
- Mongo.DocumentMeans: columns named $and or $or are excluded, as their documents would be read as connectives.
- Integer literals beyond 64 bits in the compilers, and rounding of floating-point literals.
- Relations.Collector.CreateRelations: required not to panic; what happens to the lock and the program after a panic is left out. The text of values (%v) and the regular expressions of node types are parameters; entries are decoded JSON.
- Dedup.EveryEntryRepresented: speaks of the attributes of both nodes, not of the edge's, which the scan does not look at.
- SearchLoop.Search: fetching and decoding entries is left out, as are entries whose comparison panics; the statistics clause speaks of lists of distinct fields, and fields hold scalar values.
- Statistics.ToJson: the sorted map's iteration is a parameter required to be descending; the source name in the report is left out.
- Gather.RunKeeps: debug information, which is written under the same lock.
- CachedSearch.Cache.Serve: processors, the expiry of entries, failures of the store, and two requests for one key at the same time.
- Uploads.Account.Sweep: one account at a time; failures to remove the file are ignored as in the code, and the second sweep over the file system is left out.
- Merge.OrderIrrelevantExactly: speaks of what the sources amount to; an order in which a null throws stops half-way.
- Merge.Target.Merge: nested attribute objects, and the sharing of arrays between source and target after the first merge.
- NodeSize.SizeInRange: arithmetic is over the reals.
- The remaining plugins, sessions, accounts, TLS, logging, configuration and the rest of the user interface.
