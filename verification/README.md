# Raw2Query, modelled in Dafny

Raw2Query turns uploaded documents into reviewed, typed rows and answers questions over them
with generated SQL. This project models the parts of it that decide something, and proves what
those parts are for:

- **Scope rewriting** (`sql_ast`, `sql_semantics`, `sql_guard`, `sql_scoping`, `sql_reads`): a small SQL tree
  with joins, derived tables, CTEs and correlated subqueries, a denotational meaning for it in which
  operators, joins, set operations and aggregation are arbitrary functions, the two in-place passes
  of the guard, and the theorem that the rewritten statement means the original one over filtered views.
- **Schema lineage** (`lineage`, `field_specs`, `view`, `dedup`, `key_backfill`): column keys over
  every edit history, the projection of a versioned lineage, the reading of a stored row through it,
  the dedup matcher, and the migration that gave old lineages their keys.
- **Request pacer** (`pacer`): the sliding window with adaptive capacity, as a class and as every
  interleaving of its critical sections.
- **Confirm flow and record store** (`store`, `coerce`): confirms, deletes and their foreign keys,
  and the normalisation of values.
- **Job queue** (`queue`): workers, rate-limit requeues and user actions in any order.
- **Topics** (`topics`): document links, the copies of them on chunks, staged ids and upload hints.
- **Extraction and review** (`extraction`, `staging`, `review`, `labels`): merging chunked responses, the staged
  table, scores through edits, bulk confirm, and human labels for result columns.

Each module is written so that the code's own loops and assignments appear as methods and classes,
proved equal to functions, and the promises are then lemmas about those functions.

Where the code does less than its comments say, the model follows the code, and a lemma gives the
exact condition or a concrete input:

- A CTE anywhere in a statement suppresses injection for a view of the same name everywhere in it,
  because the CTE names form one flat set. `ReferenceIsScopedExactly` gives the condition for one
  reference, `SharedNameExample` a statement whose view stays unfiltered.
- The comment on `_plain_is_safe` says that dropping any of its three conditions breaks it. The second and
  third need to be there, but together they imply the first (`OwnedEverywhereIsOnlyName`). As a whole the
  test is exact: where it fails, some record would be read wrongly (`PlainWouldDoExactly`).
- Names are looked up stripped but stored as sent, so a padded name re-saved without its key gets a
  new key (`ResavingExact`, `PaddedNameSplits`).
- The migration can give one version the same key twice, in two ways: a field renamed away shares
  its key with a keyless field of its old name (`PartlyKeyedCanCollide`), and the key minted for a
  field can be the one a later field of the version brings along (`LaterKeyCanCollide`).
  `DistinctExactly` says, per version and before the fold reaches it, when neither can happen.
- `"-1,234"` is read as a decimal comma; signed grouped numbers coerce as printed exactly when they
  need no comma or have a fraction (`SignedGroupingExact`).
- `replace` onto another document leaves that document's earlier rows of the schema in place
  (`ReplaceIsExactIff`), and a schema cannot be deleted while a row of another schema carries one of its
  versions (`SchemaDeleteRefusedExactly`). Both happen in runs from the empty database
  (`InexactReplaceRun`, `RefusedDeleteRun`).
- Rejecting a job that a worker holds is overwritten by that worker (`RejectIsFinalExactly`), and a
  job whose worker died is never picked up again (`CrashSettles`, `SettledForGood`).
- A second confirm of a document that has chunks can leave the chunks behind its links
  (`ConfirmAgreesExactly`, `ReconfirmedBackfillDisagrees`, and from the seeded table
  `ReconfirmedRunDisagrees`).
- The dedup matcher takes a document's identity values under the columns' newest names, which are
  those of another field if the document was extracted under an older version that lacks the
  name or used it for something else (`OwnValueExactly`, `StaleDocumentComparesAnotherField`).
- The guard of `delete_topic` compares spelling exactly while names are otherwise compared without
  case; this is harmless in a seeded database and only there (`DeleteAbortsExactly`,
  `DeleteSucceedsExactly`).
- `flatten_extraction` promises lists of equal length; for an arbitrary extraction this needs no
  more score maps than rows (`FlattenedInStep`), which parsing and merging both give (`StagedTable`).

## Model

| member | source | states |
|---|---|---|
| SqlScoping.InjectionPreservesMeaning | app/query/sql_guard.py:149-194 | for every statement whose view references are not confused with a CTE out of scope, every database and every meaning of operators, joins and aggregation: the injected statement gives the original's result over views filtered by the predicate |
| SqlScoping.DisjointNamesPreserveMeaning | app/query/sql_guard.py:149-194 | the same for every unqualified statement whose CTE names are disjoint from the allowed views |
| SqlScoping.NormalizedMeaning | app/query/sql_guard.py:201-222 | end to end: whenever normalisation with a scope succeeds on a statement whose CTE names are disjoint from the views, running what is parsed out of the returned text gives what the unqualified statement gives on filtered views |
| SqlScoping.NormalizedScopes | app/query/sql_guard.py:115-146 | the same for the topic and the document scope on any views that have the base columns; which rows these keep is stated by TopicScopeKeeps and DocumentScopeKeeps |
| SqlReads.TopicScopeKeeps | app/query/sql_guard.py:115-133 | filtering any table that has the base columns by the topic scope leaves, in order, exactly the rows whose `topic_ids` cell shares an id with the list |
| SqlReads.TopicScopeRows | app/query/sql_guard.py:115-133 | row by row: a row tagged with certain topics stays if and only if one of them is in the list, and an untagged row never does |
| SqlReads.DocumentScopeKeeps | app/query/sql_guard.py:136-146 | filtering by the document scope leaves, in order, exactly the rows whose `document_id` cell is in the list |
| SqlReads.DocumentScopeRows | app/query/sql_guard.py:136-146 | row by row: a row stays if and only if its document is in the list |
| SqlReads.PassingExactly | app/query/sql_guard.py:115-146 | what stays of a table is each passing row as often as it was there, and no other |
| SqlReads.TopicQueryMeaning | app/query/sql_guard.py:201-222 | end to end: the text returned for a topic scope gives what the unqualified statement gives on a database whose views hold only the rows with one of the topics |
| SqlReads.DocumentQueryMeaning | app/query/sql_guard.py:201-222 | the same for the document scope and the rows of those documents |
| SqlScoping.InjectingBoth | app/query/sql_guard.py:149-194 | injecting one predicate and then another gives the results of injecting their conjunction |
| SqlScoping.InjectingAgain | app/query/sql_guard.py:149-194 | injecting a predicate a second time changes no result |
| SqlScoping.ReferenceIsScopedExactly | app/query/sql_guard.py:83-85 | one view reference reads filtered rows for every database and predicate if and only if its name is not that of a CTE declared in the statement but out of scope there |
| SqlScoping.SharedNameExample | app/query/sql_guard.py:83-85 | a statement with a CTE of the view's name inside a subquery: nothing is injected and the result differs from the scoped one |
| SqlScoping.ScopesAreLocal | app/query/sql_guard.py:115-146 | both scope predicates read only columns that every generated view has, unqualified, so the wrapper's scan binds them and no outer query can |
| SqlScoping.WrapperMeaning | app/query/sql_guard.py:163-192 | the derived table put in place of a reference has the rows and headings of the filtered view under the reference's own alias |
| SqlScoping.FilterTwice | app/query/sql_guard.py:149-194 | filtering a table by one predicate and then another is filtering it by both |
| SqlGuard.NormalizeExact | app/query/sql_guard.py:201-222 | normalisation succeeds exactly on one write-free SELECT that names only allowed views or CTEs; its output parses to a tree with the same properties and no qualifiers, so the final re-check never refuses it |
| SqlGuard.NormalizeSql | app/query/sql_guard.py:201-222 | the method over the mutable statement computes the function those properties are about, error kinds included |
| SqlReads.NormalizeAcceptsExactly | app/query/sql_guard.py:50-69 | which statements are let through, by a structural reading of the tree: one statement, a SELECT without INTO, no write anywhere inside it, and every relation an allowed view or one of its CTEs |
| SqlReads.ReadsOnlyKnown | app/query/sql_guard.py:88-112 | the result of an accepted statement depends on no stored relation but the allowed views and those that bear a CTE's name |
| SqlReads.NormalizedReadsOnlyKnown | app/query/sql_guard.py:201-222 | the same for whatever normalisation returns |
| SqlGuard.StripQualifiers | app/query/sql_guard.py:88-112 | the loop over table nodes fails exactly when a relation is unknown, and otherwise leaves the tree with every named reference unqualified and nothing else changed |
| SqlGuard.InjectScope | app/query/sql_guard.py:149-194 | the loop over table nodes replaces each eligible node by a filtered derived table and returns how many there were |
| SqlGuard.StripKeeps | app/query/sql_guard.py:88-112 | stripping keeps the CTE names and acceptability and leaves no qualifier |
| SqlReads.RepairMeaning | app/query/sql_guard.py:88-112 | stripping changes no result when every relation is stored under its last name part: columns, aliases and CTE references mean what they meant |
| SqlReads.RepairNothing | app/query/sql_guard.py:88-112 | a statement without qualifiers comes back as it was |
| SqlGuard.InjectKeeps | app/query/sql_guard.py:149-194 | injecting keeps the CTE names, acceptability and the absence of qualifiers |
| SqlGuard.GainsOne | app/query/sql_guard.py:163-192 | each eligible reference gains exactly one enclosing predicate layer and no other node of the tree gains any |
| Lineage.LineageNameMap | app/schema_fields.py:95-113 | the nested loop yields, for each name, the key of its newest keyed declaration, and the set of all keys ever used |
| Lineage.MintColumnKey | app/schema_fields.py:82-88 | a minted key is one nobody has taken |
| Lineage.ClaimSuppliedKeys | app/schema_fields.py:141-169 | pass 1 accepts exactly the valid requests, claims exactly the keys they supply, and otherwise reports the first fault of the first faulty field |
| Lineage.AssignColumnKeys | app/schema_fields.py:116-181 | saves succeed exactly on valid requests; each field keeps everything but its key, which is the supplied one, else the remembered one if unused, else one the lineage never used |
| Lineage.OutcomeKeys | app/schema_fields.py:116-181 | one save has pairwise distinct keys, and a key of the lineage returns only by being echoed or remembered for that name |
| Lineage.KeysFollowRequest | app/schema_fields.py:171-180 | one save field by field: a key supplied to an existing lineage is kept whatever the name; a field without one gets back the key its name last had unless another field of the request has it; any other key is new to the lineage |
| Lineage.HistoryKeysDistinct | app/schema_fields.py:116-181 | every version of every lineage that saves can build has pairwise distinct keys and names |
| Lineage.KeysAreNeverReissued | app/schema_fields.py:82-88 | across any history, a key shared with any earlier version, dropped fields included, was echoed or remembered, never minted |
| Lineage.CurrentNames | app/schema_fields.py:95-113 | the name map of the whole lineage answers for the current version's own names |
| Lineage.ResavingExact | app/schema_fields.py:116-181 | re-saving the current version with any subset of keys left out is accepted, and gives back the same fields if and only if each name sent without its key leads, once stripped, to that key |
| Lineage.ResavingTrimmed | app/schema_fields.py:116-181 | with trimmed names re-saving always gives back exactly the same fields |
| Lineage.PaddedNameSplits | app/schema_fields.py:147-180 | the failing family is real: a padded name sent back without its key gets another key |
| FieldSpecs.IndexLineage | app/schema_fields.py:217-243 | the indexing loop fails exactly on a field without a valid key and otherwise builds the dictionaries of the lineage, the newest field of each key among them |
| FieldSpecs.IndexedExact | app/schema_fields.py:217-243 | those dictionaries, updated field by field, are the declarative indexes: order of first appearance, versions per name, owners per name, declaring versions |
| FieldSpecs.NewestIsDeclared | app/schema_fields.py:239-240 | exactly the ordered keys have a newest field, and it bears one of the key's own names |
| FieldSpecs.NewestIsLastUse | app/schema_fields.py:239-240 | the newest field of a key is the last field of the lineage, by version and then by place, that bears it |
| FieldSpecs.OrderIsFirstUse | app/schema_fields.py:236-238 | columns come in the order in which the lineage first uses their keys, so a new version moves none |
| FieldSpecs.SortBranches | app/schema_fields.py:245-254 | the branches are one per name, newest use first, each with its versions in lineage order |
| FieldSpecs.ComputeFieldSpecs | app/schema_fields.py:207-267 | one spec per key in order of first appearance, with the name, type and scope of its newest field, those branches and the safety flag |
| FieldSpecs.SpecIsNewest | app/schema_fields.py:255-265 | a spec's name, type and scope are those of the last field that bears its key |
| FieldSpecs.InLineageOrderSorted | app/schema_fields.py:248-249 | a branch lists its versions in lineage order |
| View.BranchesNewestFirst | app/schema_fields.py:247-254 | in a well-formed lineage an earlier branch's name is used by some version after the last one that uses a later branch's |
| View.FirstBranchIsCurrent | app/schema_fields.py:247-254 | the first branch is the column's current name |
| View.BuiltIsWellFormed | app/schema_fields.py:116-181 | every lineage that saves can build satisfies what the projection relies on |
| View.NameAtExact | app/schema_fields.py:301-306 | the name a spec gives for a version is exactly the name under which that version declares the column |
| View.PlainExact | app/schema_fields.py:270-298 | the plain flag is set if and only if the version-scoped CASE selects one and the same name in every version |
| View.PlainWouldDoExactly | app/schema_fields.py:270-298 | the plain flag is set if and only if a bare read gives what the CASE gives on every record of the lineage |
| View.OwnedEverywhereIsOnlyName | app/schema_fields.py:270-298 | a name owned by this key alone and declared by every version is the key's only name, so the first of the three conditions is implied by the other two |
| View.NameReuseNeedsTheCase | app/schema_fields.py:270-298 | in any two-version lineage where a new field reuses the older one's name only the ownership condition fails, and a bare read of either column is wrong for some record |
| View.UndeclaredNameNeedsTheCase | app/schema_fields.py:270-298 | in any two-version lineage where a new field has a new name only the every-version condition fails, and a bare read of its column is wrong for some record |
| View.KeyReadExact | app/pipeline/views.py:98-135 | plain or CASE, a view column reads a row under the name the row's own version gives it |
| View.PlainAgreesWithCase | app/pipeline/views.py:119-127 | where the plain read is generated it equals the CASE on every row of the lineage |
| View.RoundTrip | app/pipeline/views.py:98-135 | a record stored under a version shows each declared field its own value and NULL in every other column |
| View.NoSharedKey | app/pipeline/views.py:98-135 | no two columns read the same JSON key of one row |
| View.EveryFieldHasAColumn | app/schema_fields.py:207-267 | every field of every version has a column |
| Dedup.IdentityValues | app/pipeline/extract.py:341-370 | for each requested name the first non-null value over the staged objects, and no entry where there is none |
| Dedup.FirstValueExactly | app/pipeline/extract.py:341-370 | the value under a name is that of the first object that has a non-null one, and there is none exactly when every object lacks it or holds null |
| Dedup.MatcherAgreesWithView | app/pipeline/extract.py:401-419 | a record passes a column's filter if and only if the view shows the value there |
| Dedup.FindDedupMatch | app/pipeline/extract.py:373-422 | the first record passing every identity filter, or none exactly when an identity value is missing or no record passes |
| Dedup.MatchMeansSameIdentity | app/pipeline/extract.py:373-422 | a match is a record whose view row shows, in every identity column, the value staged under the column's newest name, across renames and reuse of names |
| Dedup.OwnValueExactly | app/pipeline/extract.py:391-406 | the value staged under the newest name is that of the document's own column, for all staged objects, if and only if the version they were extracted under gives the column that name |
| Dedup.MatchMeansSameRow | app/pipeline/extract.py:373-422 | where that holds for every identity column, a match is a record whose view row agrees with the document's own view row on all of them |
| Dedup.StaleDocumentComparesAnotherField | app/pipeline/extract.py:391-406 | a document extracted under an older version is compared on another field's value after the name was reused |
| KeyBackfill.FillFields | migrations/versions/0005_field_column_keys.py:106-115 | the inner loop keeps existing keys, reuses the carried key of a name, mints otherwise, and reports a change exactly when a key was missing |
| KeyBackfill.ConvertIdentity | migrations/versions/0005_field_column_keys.py:117-139 | identity entries become the keys of this version's fields of those names, in order, unknown names dropped, keys left alone |
| KeyBackfill.ConvertedInPieces | migrations/versions/0005_field_column_keys.py:117-139 | entries are converted one by one, in order |
| KeyBackfill.ConvertedEntry | migrations/versions/0005_field_column_keys.py:117-139 | a key stays, a name becomes the key of the version's last field of that name, a name without a field is dropped |
| KeyBackfill.PlanLineage | migrations/versions/0005_field_column_keys.py:83-144 | the plan updates exactly the versions that lack a key or name identity fields by name, and written back gives the planned lineage |
| KeyBackfill.PlannedIsClean | migrations/versions/0005_field_column_keys.py:83-144 | a written plan leaves every field keyed and every identity entry a key |
| KeyBackfill.PlanTwice | migrations/versions/0005_field_column_keys.py:83-144 | planning again after writing back yields no updates |
| KeyBackfill.PlanKeepsFields | migrations/versions/0005_field_column_keys.py:106-115 | field order, names, types, scopes and existing keys survive |
| KeyBackfill.KeylessLineage | migrations/versions/0005_field_column_keys.py:83-144 | on a keyless lineage two fields of any two versions share a key if and only if they share a name |
| KeyBackfill.IdentityFollowsNames | migrations/versions/0005_field_column_keys.py:117-139 | each identity name becomes the key of its field, in the same place |
| KeyBackfill.DistinctExactly | migrations/versions/0005_field_column_keys.py:106-115 | however keys are minted, a version's keys come out distinct if and only if its fixed keys differ, no keyless field repeats an earlier name, and no field brings a key new to the lineage after one to be minted |
| KeyBackfill.PlannedVersionDistinct | migrations/versions/0005_field_column_keys.py:83-144 | in a planned lineage every version that meets this has distinct keys |
| KeyBackfill.LaterKeyCanCollide | migrations/versions/0005_field_column_keys.py:106-115 | a version whose first field can be minted the key that its second field brings |
| KeyBackfill.PartlyKeyedCanCollide | migrations/versions/0005_field_column_keys.py:83-144 | a partly keyed lineage on which one version ends with a key twice |
| Pacer.Cut | app/pipeline/ratelimit.py:140-143 | pruning drops exactly the stamps that are 60 or more seconds old |
| Pacer.StepsAreSound | app/pipeline/ratelimit.py:140-211 | rounds and reports keep the window within its capacity with no stamp in the future, and a refused round waits more than 1 and at most 61 seconds |
| Pacer.RequestRateLimiter.Prune | app/pipeline/ratelimit.py:140-143 | the loop leaves the pruned window |
| Pacer.RequestRateLimiter.TryAcquire | app/pipeline/ratelimit.py:155-165 | one locked round grants exactly when the pruned window has room, and otherwise says how long to wait |
| Pacer.RequestRateLimiter.NoteRateLimited | app/pipeline/ratelimit.py:190-211 | a report adopts a quota other than 0, raised to at least 1, with the capacity it allows, and fills the window with stamps of now |
| Pacer.RequestRateLimiter.Acquire | app/pipeline/ratelimit.py:150-188 | whatever other threads do, the call ends: a slot means that the last round granted it just now, giving up means that the last refused round's wait would pass the 150 seconds; before that fewer than 150 refused rounds, each followed by at least its wait of more than 1 and at most 61 seconds, so the 90-second clamp never binds |
| Pacer.UncontendedSleepsOnce | app/pipeline/ratelimit.py:150-188 | for every such call whose window nobody else changes between its rounds: at most one sleep, and then a slot |
| Pacer.RunKeepsInv | app/pipeline/ratelimit.py:140-211 | over every interleaving the window holds either the stamps of the last report alone or exactly the latest grants |
| Pacer.WindowSafety | app/pipeline/ratelimit.py:140-211 | at every round of every interleaving: the grants of the last 60 seconds are at most the capacity in force, no stamp is in the future, and any report lies at least 60 seconds back |
| Pacer.CapacityFollowsQuota | app/pipeline/ratelimit.py:129-211 | over every run the limit is the last non-zero quota reported, raised to at least 1, or else the configured one; the capacity is the floor of limit times margin, or 1 where that is less |
| Pacer.GrantsWithinQuota | app/pipeline/ratelimit.py:129-211 | at every grant of every run the grants of the last 60 seconds are at most what the last reported quota allows, and for a margin between 0 and 1 never more than that quota |
| Coerce.CoerceIdempotent | app/pipeline/coerce.py:87-96 | coercing a coerced value changes nothing, for every value, type and rounding |
| Coerce.CoerceExtractedIdempotent | app/pipeline/coerce.py:99-104 | so coercion at confirm leaves alone what extraction coerced |
| Coerce.UnsignedGrouping | app/pipeline/coerce.py:31-64 | every natural number's comma-grouped printing, with or without a fraction, coerces to its plain printing |
| Coerce.IntegerExactly | app/pipeline/coerce.py:59-64 | an integer field takes a grouped number exactly when its fraction is zero, as the plain whole number, and otherwise keeps the text |
| Coerce.DecimalCommaExactly | app/pipeline/coerce.py:39-44 | a lone comma is read as a decimal comma if and only if it does not stand for grouping, with one to three digits before it and exactly three behind |
| Coerce.NoiseIsIgnored | app/pipeline/coerce.py:22-36 | a currency in front and a unit behind do not change the number that is read |
| Coerce.SignedGroupingExact | app/pipeline/coerce.py:31-51 | a negative grouped number does so if and only if it is below 1000 or has a fraction |
| Coerce.SignedWholeMisread | app/pipeline/coerce.py:31-51 | a negative whole number of 1000 or more in grouped printing never coerces to its plain printing |
| Coerce.AccountingNegative | app/pipeline/coerce.py:31-51 | a parenthesised grouped number is its negative, up to the 28 digits of the decimal context |
| Coerce.BooleanExactly | app/pipeline/coerce.py:27-75 | a boolean field takes exactly the listed words, whatever their case and surrounding blanks, and keeps any other text |
| Coerce.OthersPassThrough | app/pipeline/coerce.py:87-104 | nulls and fields of other types stay as they are, blanks in a typed field become null, and a value that cannot be read stays |
| Common.StripIsTheMiddle | app/pipeline/coerce.py:32 | stripping takes white space from both ends and nothing else |
| Store.Materialize | app/pipeline/confirm.py:67-90 | at least one row, one per staged object |
| Store.MaterializeTwice | app/pipeline/confirm.py:67-90 | materialising already materialised rows changes nothing |
| Store.EditedCellsAreCoerced | app/pipeline/confirm.py:67-90 | a grouped number edited into a numeric field is stored plain, a field the version does not declare keeps its value, and no cell is added or lost |
| Store.EveryRunIsSound | app/pipeline/confirm.py:243-383 | over every run of confirms and deletes every reference is live and every duplicate pointer leads to a row of an earlier transaction |
| Store.LinksAreAcyclic | app/pipeline/confirm.py:316-383 | following duplicate pointers never returns to a row |
| Store.SchemaDeleteRefusedExactly | app/routers/schemas.py:316-397 | a schema delete fails exactly for an unknown schema or while a row of another schema carries one of its versions |
| Store.SchemaDeletesSucceed | app/routers/schemas.py:316-397 | over every run whose confirms stage matching schemas and versions, deleting an existing schema succeeds |
| Store.SchemaDeleteLeaves | app/routers/schemas.py:316-397 | a successful schema delete removes exactly the schema's own rows, versions and entry; another row loses its pointer exactly when that led into them; a document bound to the schema or one of its versions is unbound there, every other is unchanged |
| Store.RecordDeleteLeaves | app/routers/schemas.py:401-429 | deleting a record removes that row and nothing else; another row loses its pointer exactly when that led to it |
| Store.DocumentDeleteLeaves | app/routers/documents.py:243-330 | a document delete is refused exactly for an unknown document or while a row of another document points at one of its rows; else its rows go, and nothing else |
| Store.ConfirmRefusedExactly | app/pipeline/confirm.py:93-182 | the exact condition of each refusal of a confirm |
| Store.ConfirmBinds | app/pipeline/confirm.py:291-383 | a confirm binds its document, and no other, to the schema and version, backfills and replaces included; rows stored anew carry that version |
| Store.BackfillIsExact | app/pipeline/confirm.py:291-313 | after a backfill the document's rows of the schema are exactly the coerced staged objects, numbered from 0, at least one; elsewhere only pointers are cleared |
| Store.PlainConfirmEffect | app/pipeline/confirm.py:267-350 | a confirm without a match, or keeping both, only adds rows linked to the match; skip adds none |
| Store.ReplaceEffect | app/pipeline/confirm.py:352-383 | a replace keeps the matched id as row 0, adds the other rows, strips the matched document of the schema unless it is the document itself, and elsewhere only clears pointers |
| Store.ReplaceIsExactIff | app/pipeline/confirm.py:352-383 | the document's rows are then exactly the new ones if and only if it is the matched document or had none before |
| Store.InexactReplaceRun | app/pipeline/confirm.py:352-383 | a run from the empty database after which a replace leaves an earlier row of the target document |
| Store.RefusedDeleteRun | app/routers/schemas.py:316-397 | a run from the empty database, with a replace across schemas, after which deleting an existing schema is refused |
| Store.RecordStore.DeleteRecords | app/pipeline/confirm.py:243-264 | pointers into the doomed rows are cleared, then exactly those rows go |
| Store.RecordStore.InsertRecords | app/pipeline/confirm.py:267-288 | one new row per object, numbered from the start index, all with the given link |
| Store.RecordStore.ApplyBackfill | app/pipeline/confirm.py:291-313 | old rows of the document and schema out, new ones in |
| Store.RecordStore.ApplyReplace | app/pipeline/confirm.py:352-383 | the matched row is rewritten in place, its siblings go, the rest is inserted |
| Store.RecordStore.ConfirmJob | app/pipeline/confirm.py:93-182 | one confirm with all its branches and errors; a failed one changes nothing; soundness is kept |
| Store.RecordStore.DeleteRecord | app/routers/schemas.py:401-429 | deletes one row of the given schema after clearing pointers to it, or finds nothing |
| Store.RecordStore.DeleteSchema | app/routers/schemas.py:316-397 | the three loops compute the delete that SchemaDeleteLeaves describes: rows, versions and the schema go and documents are detached, or nothing changes |
| JobQueue.JobTable.ClaimJob | app/worker.py:49-75 | the claim takes an oldest pending job whose waiting time is over and that nobody else has locked, or none exactly when there is none |
| JobQueue.JobTable.FinishJob | app/worker.py:78-115 | the three ends of a run, including a job deleted meanwhile; RunsLeadOn says what each end makes possible |
| JobQueue.JobTable.HandleRateLimited | app/worker.py:118-161 | requeue with a 30-second delay, or fail on the third consecutive attempt |
| JobQueue.JobTable.ReextractJob | app/routers/jobs.py:179-223 | only from review; back to pending as a re-extract with a clean slate |
| JobQueue.JobTable.RejectJob | app/routers/jobs.py:227-231 | from any status |
| JobQueue.JobTable.RetryJob | app/routers/jobs.py:235-252 | only from failed; back to pending with attempts and delay cleared |
| JobQueue.JobTable.ConfirmJob | app/pipeline/confirm.py:93-95 | only from review; ends as confirmed |
| JobQueue.StepKeepsInv | app/worker.py:42-161 | every step of a worker or user keeps the queue's invariant: one holder per job, none of them pending, and the limits on claims and confirms |
| JobQueue.QueueSafety | app/worker.py:42-161 | over every interleaving a job has at most one holder and is not pending while held, is confirmed at most once, and is claimed at most 3 times per fresh start |
| JobQueue.RequeuedJobsWait | app/worker.py:44-61 | a job requeued after a rate limit is claimed no sooner than 30 seconds later unless a user restarts it |
| JobQueue.RunsLeadOn | app/worker.py:78-161 | in every reachable state: a run that gets through leaves its job to confirm, reextract or reject only; one that breaks, or is rate limited for the third time in a row, to a retry only; an earlier rate limit makes it claimable exactly from 30 seconds on; kind and age stay, and a job deleted meanwhile does not come back |
| JobQueue.AttemptsAreStrikes | app/worker.py:89-137 | over every run the counter of a job is the number of its rate-limited runs since the last one that got through and the last fresh start |
| JobQueue.FreshStarts | app/routers/jobs.py:179-252 | a reextract and a retry make the job claimable at once with no rate limits counted; only a reextract changes its kind |
| JobQueue.StepTouchesOneJob | app/worker.py:42-161 | a step touches at most the row of the job it is about and no job's age; a row goes exactly by its delete and comes only by an upload, fresh; a reject and a confirm take effect; waiting changes only the time |
| JobQueue.ClaimsAreInOrder | app/worker.py:49-75 | no claim passes over an older waiting job that is free and whose waiting time is over |
| JobQueue.ConfirmedRun | app/pipeline/confirm.py:93-95 | a run from the empty table that ends with one confirm |
| JobQueue.GivenUpRun | app/worker.py:139-146 | a run from the empty table that ends with a job given up after three rate limits |
| JobQueue.SettledForGood | app/worker.py:49-115 | a job that is gone, or that no worker holds while extracting, confirmed or rejected, is never claimed or confirmed again in any run |
| JobQueue.CrashSettles | app/worker.py:164-190 | a job whose worker dies is settled: nothing takes it up again |
| JobQueue.RejectIsFinalExactly | app/routers/jobs.py:227-231 | a reject stays in force in every run if and only if no worker holds the job |
| JobQueue.WorkerStepsUseWork | app/worker.py:78-161 | every claim, end of run and crash lowers a measure that waiting leaves alone |
| JobQueue.QueueDrains | app/worker.py:78-161 | while users are idle the workers take at most that many more steps, however they interleave and however runs end |
| JobQueue.PendingJobsAreClaimed | app/worker.py:49-75 | as long as a job is pending an idle worker can claim one, at the latest when its waiting time is over |
| Topics.ResolvedExact | app/pipeline/confirm.py:202-225 | a confirm files under exactly the staged topics that still exist and the topics its new names mention, and under the fallback exactly when there are neither; names stay unique |
| Topics.ConfirmSound | app/pipeline/confirm.py:181-225 | a confirm makes no dangling link and leaves the document a topic, whatever ids were staged |
| Topics.ConfirmFiles | app/pipeline/confirm.py:181-225 | a confirm links its document, and no other, to exactly the topics asked for on top of those it had, adds exactly n chunks that carry them, spells new topics as typed without surrounding blanks, and leaves every old chunk, draft, hint and topic alone |
| Topics.ConfirmAgreesExactly | app/pipeline/confirm.py:181-197 | the chunks still carry exactly their documents' topics if and only if old chunks gain no topic and new chunks miss none |
| Topics.FirstConfirmAgrees | app/pipeline/confirm.py:181-197 | a document's first confirm always meets that condition |
| Topics.ReconfirmedBackfillDisagrees | app/routers/jobs.py:214-216 | a backfill that is re-extracted and confirmed links the fallback and leaves the old chunks without it |
| Topics.ReconfirmedRunDisagrees | app/pipeline/confirm.py:184-197 | from the seeded table: filed under one new topic with some chunks and confirmed again with nothing staged, a document's chunks no longer carry its topics |
| Topics.DeleteAbortsExactly | app/routers/topics.py:109-157 | a delete runs into its own links if and only if the topic is the fallback in another spelling and some document has no other topic |
| Topics.DeleteSucceedsExactly | app/routers/topics.py:109-157 | in a seeded database a delete succeeds exactly on an existing topic other than the fallback |
| Topics.LinksAfterDelete | app/routers/topics.py:119-140 | a document loses the topic, and gets the fallback exactly when that was its last |
| Topics.DeleteClears | app/routers/topics.py:119-157 | afterwards no link, upload hint or open draft names the topic, and documents and chunks survive |
| Topics.DeleteLeavesDrafts | app/routers/topics.py:61-86 | in every open draft and every upload hint the ids left are those other than the topic, in the same order and as often as before; settled drafts are unchanged, and no draft or hint comes or goes |
| Topics.CountsAreWhatChanged | app/routers/topics.py:159-164 | the four counts are those of the documents whose topics changed, of those that had no other topic, of their chunks, and of the drafts that changed |
| Topics.DocumentDeleteLeaves | app/routers/documents.py:243-330 | deleting a document takes its links and chunks and nothing else |
| Topics.DeleteResyncs | app/pipeline/topics_util.py:33-66 | chunks of documents that had the topic agree with the links afterwards whatever was in them; others are untouched |
| Topics.EveryRunIsSound | app/routers/topics.py:90-157 | over every run no link dangles and every filed document has a topic |
| Topics.EveryRunAgrees | app/pipeline/confirm.py:181-225 | over every run whose confirms are first ones or meet the condition, every chunk carries exactly its document's topics |
| Topics.StepAgreesExactly | app/routers/topics.py:90-157 | one step keeps the agreement if and only if it is not a confirm that breaks the condition |
| Topics.TopicStore.GetOrCreateTopic | app/pipeline/topics_util.py:18-26 | the topic of that name without regard to case, or a new one under the stripped name |
| Topics.CaseIsIgnored | app/pipeline/topics_util.py:18-26 | a trimmed name leads to the topic of another, without making a second one, if and only if they differ at most in capitals |
| Topics.TopicStore.ResolveConfirmedTopicIds | app/pipeline/confirm.py:202-225 | the loop computes the resolved set and the table with the new topics |
| Topics.TopicStore.FileDocument | app/pipeline/confirm.py:181-197 | missing links and new chunks are added, nothing else |
| Topics.TopicStore.ResyncChunkTopicIds | app/pipeline/topics_util.py:33-66 | afterwards every chunk of these documents carries exactly its document's links, whatever it carried before; no other chunk changes; the result counts the chunks rewritten |
| Topics.TopicStore.ClearTopicFromStagedJobs | app/routers/topics.py:61-86 | the loop over drafts takes the id, and only the id, out of every open one (DeleteLeavesDrafts), and counts the drafts that had it |
| Topics.TopicStore.DeleteTopic | app/routers/topics.py:90-164 | the whole delete with its three refusals and four counts; a refused one changes nothing |
| Extraction.ParseExtraction | app/pipeline/extract.py:205-224 | one response parsed and coerced by scope, rows in step with their scores |
| Extraction.ResponseIsRead | app/pipeline/extract.py:205-224 | a response to a schema without row fields is the pair at its top, any other the document's pair and one row per row listed; every value is coerced to the type the last field of its name in that scope declares, and scores stay as they came |
| Extraction.MergeChunks | app/pipeline/extract.py:268-291 | the loop over chunks computes the declarative merge |
| Extraction.MergedDocument | app/pipeline/extract.py:272-281 | a document value is the last non-null one reported, with the score its history gives |
| Extraction.ConfidenceIsPessimistic | app/pipeline/extract.py:274-281 | that score is the lowest reported since two successive reports last agreed, so never above the winning chunk's own |
| Extraction.MergedRows | app/pipeline/extract.py:282-290 | the rows are all chunks' rows in order without the blank ones, in step with their scores |
| Extraction.KeptExactly | app/pipeline/extract.py:282-290 | of a chunk's rows exactly those are kept in which some value is not null |
| Extraction.NoBlankRows | app/pipeline/extract.py:282-290 | every row of a merged table has a value that is not null |
| Extraction.MergedInPieces | app/pipeline/extract.py:266-291 | reading the chunks in two batches and appending gives the same rows |
| Extraction.ExtractedInPieces | app/pipeline/extract.py:264-291 | for a long document nothing a chunk says is lost: rows and scores of any two batches of chunks are appended in order, and of a document value the later batch decides |
| Extraction.ExtractedFromOne | app/pipeline/extract.py:264-291 | one chunk gives what the same response gives in one piece, without nulls and blank rows; a value without a score scores 0 |
| Extraction.FlattenedInStep | app/pipeline/extract.py:294-338 | table and scores are equally long exactly when no score map lacks a row |
| Extraction.StagedTable | app/pipeline/extract.py:227-338 | for every response: equally long lists, empty only without fields, one object per row or one in all, row values winning over document values |
| Extraction.StagedScores | app/pipeline/extract.py:325-338 | the scores lie beside the values in the same way, row scores winning over document scores |
| Staging.UneditedDraftIsStoredAsShown | app/pipeline/confirm.py:67-90 | for every response that keeps to the requested shape, coercing again at confirm against all fields changes nothing that was coerced by scope at extraction: an unedited draft is stored as shown, with at least one row |
| Review.SurvivingConfidence | app/routers/jobs.py:74-105 | the loop keeps a score exactly where index and key still hold the same value |
| Review.ScoresSurviveExactly | app/routers/jobs.py:114-130 | after any number of saves a cell has a score if and only if it had one and every saved table held the scored value there, and the score is the original one |
| Review.LastSaveStands | app/routers/jobs.py:114-130 | the table is the one saved last, with one score map per row |
| Review.ResendKeepsScores | app/routers/jobs.py:74-105 | saving an unchanged table changes nothing |
| Review.EditsKeepClean | app/pipeline/confirm.py:34-64 | edits never make a clean draft unclean |
| Review.CleanAfterEditsExactly | app/pipeline/confirm.py:34-64 | a draft is clean after edits if and only if every low score's cell was changed, moved or removed in some save |
| Labels.FreeSuffix | app/query/nl_to_sql.py:116-120 | the inner loop ends with the smallest free number |
| Labels.ColumnLabels | app/query/nl_to_sql.py:103-123 | the labelling is the one obtained column by column: the name, or its first free numbered variant |
| Labels.SecondIsNumberedTwo | app/query/nl_to_sql.py:111-122 | of two columns with one name the second is numbered 2 |
| Labels.LabelsDetermined | app/query/nl_to_sql.py:103-123 | there is only one such labelling |
| Labels.LabelsAreDistinct | app/query/nl_to_sql.py:103-123 | every column has a label, nothing else has, and distinct columns never share one |
| Labels.UnusedNamesAreKept | app/query/nl_to_sql.py:111-122 | names that collide with nothing stay as they are |
| Labels.RowsKeepCellsExactly | app/query/nl_to_sql.py:126-137 | a relabelled row keeps all its cells if and only if no unlabelled column is named like another column's label |
| Labels.LabelledRowsKeepCells | app/query/nl_to_sql.py:126-137 | a fully labelled row keeps every cell under its label |

## Left out

- StripQualifiers and InjectScope: a tree is a value and its table nodes an array that is filled back, so node identity and the order in which nested nodes are mutated are not captured.
- InjectScope: a table node holds its qualifiers, name and alias; anything else a parsed table can carry, such as column-alias lists, joins hung on it by parentheses, sampling, pivots or version clauses, is dropped by the replacement in the code and is not in the tree here.
- InjectionPreservesMeaning: recursive CTEs, LATERAL and subqueries inside HAVING or ORDER BY are outside the tree; grouping, HAVING, ordering and limits are one arbitrary function of the selected rows.
- NormalizeExact: parsing and printing are assumed inverse; quoted mixed-case identifiers are not distinguished from folded ones.
- ReferenceIsScopedExactly: it speaks of one reference; for a whole statement the condition on every reference is sufficient, and an example shows it cannot be dropped.
- AssignColumnKeys: a key is a number and a malformed key a separate value; the pattern of a key and the reserved column names are not modelled.
- IndexLineage: a field's description is not among its data; it travels with the newest field like the type.
- ComputeFieldSpecs: for the same reason a spec has no description.
- RoundTrip: the cast that follows the JSON read is left out, since it applies to the value after it has been read; JSON values are read as text or null.
- Acquire: threads appear as arbitrary progress while the caller waits, so fairness between threads is not stated.
- CapacityFor: the margin is a real number, not a float.
- NoteRateLimited: reading the quota out of the provider's error (`quota_from_error`) is a parameter.
- CoerceIdempotent: how unary minus rounds beyond 28 digits is an arbitrary function onto decimals; the 4300-digit limit on integers and exponents in the input are not modelled.
- ConfirmJob: promoting an inferred shape to a new schema during a confirm, the view regeneration and the batch hints are left out; the schema and version to use are inputs, and a confirm without a schema, which touches no record, is not a step.
- DeleteSchema: clearing the schema out of staged jobs and batches and dropping the view are left out.
- EveryRunIsSound: deleting a document that another document's row points at is treated as refused.
- ClaimJob: a clock shared by workers and database is assumed; rows locked by other transactions are an arbitrary set.
- FinishJob: what a pipeline run computes is an input; only how it ends matters here.
- QueueSafety: every handler is one atomic step, so lost updates between concurrent requests are not modelled.
- GetOrCreateTopic: names are compared after lower-casing ASCII letters only.
- ParseExtraction: the model's response is an input; missing and null parts of it read as empty.
- UneditedDraftIsStoredAsShown: it assumes what the response schema demands, that the document part holds document fields and each row row fields; a field reported in the wrong part is coerced only at confirm.
- MergedDocument: values compare structurally, so Python's `1 == True` is not reproduced.
- SurvivingConfidence: values compare structurally here too, and scores are real numbers; non-numeric scores are left out.
- Prompts, embeddings, partitioning, HTTP, server-sent events, file storage, retrieval ranking and the frontend: foreign calls or plumbing.
- `spec_fingerprint` and `reconcile_schema_views`: they only decide when a view is rebuilt.
- `create_schema_version`, `_is_breaking` and `_enqueue_backfill`: their effect on the store is a version added and backfill confirms, which the runs of the store already contain.
