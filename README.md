# WP 1.0 bot core, modelled in Dafny

This project models three pieces of the WP 1.0 bot, which tracks how
WikiProjects assess Wikipedia articles.

**Assessment sync ("lucky").** A project sorts its articles' talk pages into
class categories, such as `A-Class_Test_articles` under
`Test_articles_by_quality`. The sync works through these steps:

- It walks those categories and classifies each one into a rating, a
  ranking and a replacement class. Per-project overrides (`extra`) can
  change the result.
- It records a category row per classified category.
- It builds the `rating_to_category` dictionary, which maps each class to
  its category title.
- It reconciles the stored rating rows with the talk pages it finds:
  - a new or changed class is upserted with the category timestamp;
  - an article no longer found has that class cleared;
  - an article no longer found is also looked up, to detect a move.
- It cleans up the project's rows: an empty class becomes `NotA-Class`,
  and a row holding no real class is deleted.
- It stores the project's metadata and its article counts.

**Selection timestamps.** A stored selection keeps its update time as the
14 bytes `YYYYMMDDHHMMSS`. There is a parser for it and a setter that
writes a given time or "now" into it.

**Simple selections (web).** Two pure functions, without HTTP:

- The validator behind `POST /v1/selection/simple` splits the posted text
  into lines, turns spaces into underscores and rejects names that hold
  characters a page title cannot contain. It reports 401 and 400 as
  result tags.
- The listing behind `GET /v1/selection/simple/lists` gives the user's
  builders, each with the views of its selections: the file extension
  and the download address.

The modules:

| file | module | what it holds |
|---|---|---|
| wrappers.dfy | `Wrappers` | `Option` |
| classifier.dfy | `Classifier` | assessment kinds, rank tables, overrides, category-title classification |
| wiki.dfy | `Wiki` | the wiki's category links; the members of the project's root categories |
| rating_map.dfy | `RatingMaps` | the insertion-ordered `rating_to_category` dictionary |
| category_walk.dfy | `CategoryWalk` | the category rows and the dictionary a walk produces |
| reconcile.dfy | `Reconcile` | rating rows, observations of talk pages, the reconciliation and the move log |
| cleanup.dfy | `Cleanup` | the clean-up of a project's rating rows |
| project_stats.dfy | `ProjectStats` | the project's row, quality and importance counts |
| project.dfy | `Project` | the imperative store (`Wp10Db`) and project record (`ProjectRecord`) that the operations update |
| timestamps.dfy | `Timestamps` | the 14-byte timestamp codec |
| selection_model.dfy | `SelectionModel` | the `Selection` record and its timestamp accessors |
| simple_selection.dfy | `SimpleSelection` | the simple-selection validator and the builder listing |

The sync operations are methods of `Project.Wp10Db`. Its tables are fields
that the methods update in place: the category table, the rating table and
the move log. Each method is proved against a function of the old state
(`WriteCategories`, `Reconciled`, `Cleaned`), and the lemmas state what
those functions guarantee.

The things the sync gets from outside are all parameters:

- the contents of the wiki (a sequence of category links);
- the configured rank tables (`Config`);
- the page-lookup service (a function from namespace and title to the
  page's current name).

The selection setter that writes "now" takes the current time as a
parameter.

## Model

| member | source | states |
|---|---|---|
| Classifier.Classify | lucky/lucky/logic/project_test.py:54-104 | an override for the exact title wins with its own rating, ranking and replacement; otherwise the result is `<token>-Class` with its configured ranking and itself as the replacement, and only when that class is configured for the kind |
| Classifier.ClassifyConfigured | lucky/lucky/logic/project_test.py:54-82 | `A-Class Test articles` (quality) and `Mid-importance Test articles` (importance) classify to `A-Class` and `Mid-Class` with the configured ranking and themselves as replacement; in general, a word token followed by `-Class` (or `-importance` for importance) classifies to `<token>-Class` |
| Classifier.ClassifyUnconfigured | lucky/lucky/logic/project_test.py:117-127 | a title of the right shape whose class is not configured, such as `Foo-Class Test articles`, is skipped |
| Classifier.ClassifyUnmatched | lucky/lucky/logic/project_test.py:106-115 | a title with no word token followed by a class marker is skipped |
| Classifier.ClassifyNoPatternExample | lucky/lucky/logic/project_test.py:106-115 | `123*go` classifies to nothing for either kind |
| Classifier.ClassTokenOf | lucky/lucky/logic/project_test.py:47-50 | the class token of `<token><marker><rest>` is exactly `<token>` |
| Classifier.WordPrefixOfToken | lucky/lucky/logic/project_test.py:47-50 | the word prefix of a token followed by a non-word character is the whole token |
| Wiki.RootCategoryTitles | lucky/lucky/logic/project_test.py:129-168 | the titles of the category pages filed under the kind's root categories, root by root, in link order within each root |
| Wiki.RootCategoryTitlesExactly | lucky/lucky/logic/project_test.py:187-260 | a title is walked iff a category-namespace page with that title sits under `<project>_articles_by_quality` (quality) or under `_by_importance` or `_by_priority` (importance) |
| Wiki.OtherRootsIgnored | lucky/lucky/logic/project_test.py:141-148 | category pages filed under another project's roots do not change the walk, wherever they sit among the project's links |
| Wiki.OtherRootsFirstIgnored | lucky/lucky/logic/project_test.py:182-185 | other projects' pages inserted before the project's own do not change the walk |
| Wiki.RootMembersExactly | lucky/lucky/logic/project_test.py:129-168 | the root members are exactly the category-namespace links whose parent is a root |
| RatingMaps.Get | lucky/lucky/logic/project_test.py:61 | a lookup finds a value iff the class is a key, and the entry it returns is in the dictionary |
| RatingMaps.Put | lucky/lucky/logic/project_test.py:61 | after an assignment the class maps to the new title, every other class keeps its value, and the key set gains only that class |
| RatingMaps.PutExisting | lucky/lucky/logic/project_test.py:61 | assigning an existing class keeps the dictionary's length and key order |
| RatingMaps.PutNew | lucky/lucky/logic/project_test.py:61 | assigning a new class appends it at the end |
| RatingMaps.PutDistinct | lucky/lucky/logic/project_test.py:61 | assignment keeps the keys distinct |
| CategoryWalk.WriteCategoriesExactly | lucky/lucky/logic/project_test.py:187-207 | after the walk, every walked category that classifies has a row under (project, kind, title) with its rating, ranking and replacement; all other rows are unchanged |
| CategoryWalk.ClassesOf | lucky/lucky/logic/project_test.py:209-215 | a class is collected exactly when some walked category title classifies to it |
| CategoryWalk.RatingToCategoryKeys | lucky/lucky/logic/project_test.py:209-215 | the dictionary's keys are the keys it started with plus the class of every walked category that classifies, and nothing else |
| CategoryWalk.RatingToCategoryValues | lucky/lucky/logic/project_test.py:209-215 | each class maps to a walked category title that classifies to that class |
| CategoryWalk.LastWriterWins | lucky/lucky/logic/project_test.py:209-215 | when several categories give one class, the last one walked is kept |
| CategoryWalk.NoOverridesReplaceThemselves | lucky/lucky/logic/project_test.py:187-207 | without overrides every written row has its replacement equal to its rating |
| Project.Wp10Db.UpdateCategory | lucky/lucky/logic/project_test.py:54-127 | a category that classifies gets its row upserted and the dictionary entry for its class pointing at it; one that does not leaves both untouched |
| Project.Wp10Db.UpdateProjectCategoriesByKind | lucky/lucky/logic/project_test.py:187-260 | the loop leaves the category table as the walk's fold and returns the walk's dictionary |
| Reconcile.ObservationsExactly | lucky/lucky/logic/project_test.py:380-486 | an observation is made exactly for each odd-namespace (talk) page under a class category in the dictionary; it is keyed by the project, the article namespace (talk namespace minus one) and the title, and it carries the class and the link's timestamp |
| Reconcile.ObservedKeysAreArticles | lucky/lucky/logic/project_test.py:262-274 | every observed key is under the project, has an even non-negative namespace, and comes from a talk-page link one namespace above with the same title and the link's timestamp; so class category pages (namespace 14) are never taken for articles |
| Reconcile.ApplyKeys | lucky/lucky/logic/project_test.py:380-398 | upserting keeps every existing row and adds exactly the observed keys |
| Reconcile.ApplyKeepsOtherKind | lucky/lucky/logic/project_test.py:461-486 | syncing one kind leaves the other kind's class and timestamp of every existing row unchanged |
| Reconcile.LastObservationWins | lucky/lucky/logic/project_test.py:419-459 | an article ends up with the class of its last observation |
| Reconcile.EqualValueKept | lucky/lucky/logic/project_test.py:380-418 | an article observed only with its stored class keeps its row, timestamp included |
| Reconcile.ApplyHoldsObserved | lucky/lucky/logic/project_test.py:380-459 | when each article is observed with one class, every observed article holds that class afterwards |
| Reconcile.ApplyStable | lucky/lucky/logic/project_test.py:380-418 | observations that all agree with the table change nothing |
| Reconcile.ReconciledRows | lucky/lucky/logic/project_test.py:488-545 | reconciliation deletes no row and adds only observed rows |
| Reconcile.ReconciledObserved | lucky/lucky/logic/project_test.py:419-459 | after reconciliation an article holds the class of its last observation |
| Reconcile.OtherProjectsUntouched | lucky/lucky/logic/project_test.py:488-545 | rows of other projects are unchanged |
| Reconcile.ApplyAbsorbs | lucky/lucky/logic/project_test.py:380-418 | a table that already agrees with a pass's outcome on an article is left unchanged there by the same pass, whatever classes and timestamps the observations carry |
| Reconcile.ApplyIdempotent | lucky/lucky/logic/project_test.py:380-418 | applying the same observations twice gives what applying them once gave, timestamps included |
| Reconcile.ReconcileIdempotent | lucky/lucky/logic/project_test.py:380-418 | reconciling twice with the same observations is reconciling once, timestamps included, for any observations |
| Reconcile.WithField | lucky/lucky/logic/project_test.py:337-358 | setting one kind's class and timestamp changes no other column |
| Reconcile.ClearField | lucky/lucky/logic/project_test.py:509-515 | clearing a kind sets its class to none, keeps that kind's timestamp, and leaves the other kind's class and timestamp as they were |
| Project.Wp10Db.UpsertRating | lucky/lucky/logic/project_test.py:380-459 | one upsert inserts a new row, overwrites a different class with the new timestamp, or keeps an equal one |
| Project.Wp10Db.ObserveAll | lucky/lucky/logic/project_test.py:380-486 | upserting the talk pages of every class category leaves the table as the fold of all observations and returns the keys seen |
| Project.Wp10Db.ClearUnseenRatings | lucky/lucky/logic/project_test.py:488-545 | every unseen article has its class cleared, and a move is logged when the lookup reports the page under another namespace or title |
| Project.Wp10Db.UpdateProjectAssessments | lucky/lucky/logic/project_test.py:380-545 | the rating table becomes the reconciliation of the walk's observations, with unseen articles cleared (`How to test`, `Failures of tests`) and no row added for a moved title, and the move log gains the lookups' moves |
| Cleanup.Cleaned | lucky/lucky/logic/project_test.py:547-609 | a row of the project survives iff one of its kinds holds a real class; survivors have a missing kind filled with `NotA-Class` and keep their timestamps and score; rows of other projects are unchanged |
| Cleanup.CleanupIdempotent | lucky/lucky/logic/project_test.py:587-609 | cleaning twice is cleaning once |
| Project.Wp10Db.CleanupProject | lucky/lucky/logic/project_test.py:587-609 | the row-by-row loop leaves the rating table equal to `Cleaned` of the old table |
| ProjectStats.CountPartition | lucky/lucky/logic/project_test.py:659-666 | the project's rows split into assessed and unassessed rows for each kind, so each kind's count is at most the row count |
| Project.Wp10Db.UpdateProjectRecord | lucky/lucky/logic/project_test.py:611-666 | homepage, shortname and parent are stored; the count is the project's row count; qcount and icount count the rows whose class is neither missing, `NotA-Class` nor `Unassessed-Class`; the timestamp is kept |
| Timestamps.Pad | wp1/models/wp10/selection_test.py:26-30 | padding gives exactly `width` ASCII digits |
| Timestamps.PadValue | wp1/models/wp10/selection_test.py:26-30 | the digits of a padded number read back as the number, when it fits the width |
| Timestamps.ValueOfPad | wp1/models/wp10/selection_test.py:17-24 | padding the value of a digit string to its own length gives the string back |
| Timestamps.Format | wp1/models/wp10/selection_test.py:26-37 | formatting gives 14 ASCII digits |
| Timestamps.Parse | wp1/models/wp10/selection_test.py:17-24 | a parsed time has fields in range and formats back to the parsed bytes |
| Timestamps.ParseFormat | wp1/models/wp10/selection_test.py:17-30 | parsing the format of any valid time gives the same six fields |
| Timestamps.FormatFields | wp1/models/wp10/selection_test.py:17-24 | fields read from 14 digits, formatted again, give the same bytes |
| Timestamps.ParseExample | wp1/models/wp10/selection_test.py:17-24 | `20190830112844` parses to 2019-08-30 11:28:44 |
| Timestamps.FormatExample | wp1/models/wp10/selection_test.py:26-30 | 2020-12-15 09:30:55 formats to `20201215093055` |
| Timestamps.FormatNowExample | wp1/models/wp10/selection_test.py:32-37 | 2019-12-25 04:44:44 formats to `20191225044444` |
| SelectionModel.Selection.UpdatedAtDt | wp1/models/wp10/selection_test.py:17-24 | the parsed update time is valid and formats back to the stored bytes |
| SelectionModel.Selection.SetUpdatedAtDt | wp1/models/wp10/selection_test.py:26-30 | the stored bytes become the format of the time: 14 digits that parse back to the same time |
| SelectionModel.Selection.SetUpdatedAtNow | wp1/models/wp10/selection_test.py:32-37 | the stored bytes become the format of the given current UTC time |
| SimpleSelection.SplitLines | wp1/web/selection_test.py:15-24 | splitting gives at least one piece, no piece holds a newline, and joining the pieces with newlines gives the text back |
| SimpleSelection.SplitJoin | wp1/web/selection_test.py:15-24 | splitting the newline-join of newline-free lines gives the lines back |
| SimpleSelection.Underscored | wp1/web/selection_test.py:15-24 | the name keeps its length, every space becomes `_`, and every other character is kept |
| SimpleSelection.InvalidChars | wp1/web/selection_test.py:15-23 | the reported characters are exactly the forbidden characters used, each once |
| SimpleSelection.Names | wp1/web/selection_test.py:15-24 | at least one name; no name holds a newline or a space; joined with newlines, the names give the underscored text |
| SimpleSelection.NamesAreUnderscoredLines | wp1/web/selection_test.py:15-24 | the names are the lines of the underscored text |
| SimpleSelection.CreateSimple | wp1/web/selection_test.py:75-149 | 401 iff nobody is logged in, even with an empty field; otherwise 400 iff a field is empty; a rejection lists the valid and the invalid names with one error naming the invalid characters; an acceptance keeps every name |
| SimpleSelection.CreateAcceptedIffAllValid | wp1/web/selection_test.py:75-99 | a complete request is accepted iff every name is valid, and a rejection loses no name |
| SimpleSelection.SplitNames | wp1/web/selection_test.py:15-23 | there are no invalid names iff every name is valid, and the valid and invalid lists together hold every name |
| SimpleSelection.FilterAppend | wp1/web/selection_test.py:15-23 | the valid and invalid lists keep the order of the input: filtering distributes over concatenation |
| SimpleSelection.CreateUnsuccessfulExample | wp1/web/selection_test.py:15-23 | `Eiffel_Tower` / `Statue of#Liberty` is rejected: valid `Eiffel_Tower`, invalid `Statue_of#Liberty`, error naming `#` |
| SimpleSelection.CreateSuccessfulExample | wp1/web/selection_test.py:88-99 | `Eiffel_Tower` / `Statue of Liberty` is accepted |
| SimpleSelection.Extension | wp1/web/selection_test.py:35-61 | `text/tab-separated-values` has extension `tsv` and `application/vnd.ms-excel` has `xls`, and each maps back to its content type |
| SimpleSelection.SelectionUrl | wp1/web/selection_test.py:39-61 | the address starts with the storage base and ends with `.<extension>` |
| SimpleSelection.BuilderViews | wp1/web/selection_test.py:27-73 | one view per builder, in order, and a failure iff one builder's view fails |
| SimpleSelection.ListedShape | wp1/web/selection_test.py:151-201 | the listing has one entry per builder of the user, in order, with its id, name and project, and the views of exactly its selections in row order, each with its extension and address |
| SimpleSelection.ListedPlacement | wp1/web/selection_test.py:168-201 | a selection is listed under a builder iff it belongs to that builder |
| SimpleSelection.ListFailsIff | wp1/web/selection_test.py:151-187 | the listing fails iff a selection of one of the user's builders has an unknown content type |
| SimpleSelection.ListSimple | wp1/web/selection_test.py:151-214 | the listing is refused iff nobody is logged in |
| SimpleSelection.NoBuildersListed | wp1/web/selection_test.py:203-214 | a user with no builders gets an empty listing, whatever selections exist |
| SimpleSelection.ListOneSelectionExample | wp1/web/selection_test.py:27-42 | one builder with one `tsv` selection is listed with the address `…/selections/model/1.tsv` |
| SimpleSelection.ListTwoSelectionsExample | wp1/web/selection_test.py:44-64 | two selections are listed in the order 1 then 2, as `tsv` and `xls` |
| SimpleSelection.ListNoSelectionsExample | wp1/web/selection_test.py:66-73 | a builder without selections is listed with none |
| SimpleSelection.ListNoBuildersExample | wp1/web/selection_test.py:203-214 | a selection whose builder does not exist gives `builders: []` |

## Left out

- The implementation file of the sync (`lucky/logic/project.py`) is not part of this model. The sync is modelled on the behaviour its tests assert. The same holds for `wp1/models/wp10/selection.py` and the web view.
- SQL, cursors and commits: the tables are in-memory maps, keyed as the database keys them. Rows are held as values.
- The wiki database is a sequence of denormalized category links. Each link carries the page id, namespace, title, parent category and timestamp. Page ids play no part.
- The page-metadata API is an injected lookup from namespace and title to the page's current namespace, title and timestamp. HTTP and redirect parsing are not modelled.
- The move log is a set, so it does not record the order of moves.
- A moved article gets no rating row under its new title, because the tests show none.
- Classifier.Classify: a word character is an ASCII letter, digit or underscore. Non-ASCII word characters are not modelled.
- Classifier.Classify: `-priority` is not a class marker, because no test asserts one. The priority root category is walked.
- Classifier.Classify: the real rank tables come from configuration. Here they are a parameter.
- Cleanup.Cleaned: a class missing from the rank tables is kept as it is. The model does not turn it into `NotA-Class`, because the tests assert only the handling of missing and `NotA-Class` values.
- Reconcile.ClearField: clearing a kind keeps that kind's timestamp. The tests assert only that the class becomes empty, so the timestamp's fate is a modelling choice.
- Project.Wp10Db.UpdateProjectAssessments: observations carry the category link's timestamp. The string conversion of that timestamp is not modelled.
- Timestamps.Format: the year is always padded to four digits. The C library's `%Y` does not pad years below 1000, and those years are not modelled.
- Timestamps.Parse: accepts only the fixed 14-digit form, with each field in range and no calendar check (February 31 is accepted). The variable-width fields that `strptime` also accepts are not modelled, nor are timezones.
- SimpleSelection.CreateSimple: the forbidden characters are `#<>[]|{}`, the characters a page title cannot contain. Only `#` is asserted. The accepted list is returned as the names to save; storing the list and the builder is not modelled.
- SimpleSelection.ListSimple: an unknown content type is a failure result. The behaviour of the web view for such a type is not asserted.
- The Flask app, sessions, OAuth, the Redis queues and object storage are not modelled.
