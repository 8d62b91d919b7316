# Telegram analytics platform: the loading, enrichment and reporting core

This project models four parts of a pipeline that collects Telegram channel
messages, loads them into PostgreSQL, adds object-detection results for the
attached images and reports the most-mentioned product words:

- **The raw loader** (`process_and_load_data`). It walks the `.json` files
  of the raw-message data lake. Each file belongs to one channel, named by the
  file's stem. Every message with a truthy `id` is upserted into
  `raw.telegram_messages`, keyed by `message_id`. On conflict the upsert
  replaces `raw_message` and `loaded_at` but keeps the first `channel_name`.
  The loader counts completed files and upserted messages, and commits once
  at the end.
- **The image enrichment** (`enrich_images`). Every `.jpg` in the image
  directory is named after its message id. A detector box whose confidence
  exceeds 0.45 is inserted into `raw.image_detections`, keyed by
  `(message_id, detected_object)`, with `ON CONFLICT DO NOTHING`. One commit
  at the end covers the whole run.
- **The top-products report** (`get_top_products`). Message texts are split
  on whitespace. Each token is reduced to its lower-cased ASCII letters. Words
  of length 3 or less, the 30 stop words and numeric words are dropped. The
  rest are counted, ranked by descending count and cut to `LIMIT`.
- **The orchestration graph**. The four pipeline stages are the scrape, the
  load, the dbt build and the enrichment. Each depends on the one before it.
  A sequential run executes a stage only when all its upstream stages
  succeeded, and marks it skipped otherwise.

Layout:

- `wrappers.dfy`: `Option` and `Result`.
- `path_names.dfy`: Python's `str.endswith`, the root of `os.path.splitext`,
  `int()` of a file stem, and `str()` of an integer.
- `raw_loader.dfy`: the class `RawStore`.
- `enrichment.dfy`: the class `DetectionStore`.
- `top_products.dfy`: pure functions.
- `assets.dfy`: the stage graph and an executor method.

Each database table is a `map` field of a store class. The table's methods
are proved against specification functions (`Load`, `Enrich`). Lemmas about
those functions state what the source promises:

- idempotent re-runs;
- last write wins for message bodies;
- first write wins for detections and for channel names;
- only kept boxes are stored;
- a failing image discards the whole run.

Injected as inputs:

- `NOW()`: a `now: Timestamp` parameter. Postgres gives one value per transaction.
- The directory walk and its order: the given `seq` of files, in the order
  `os.walk` / `os.listdir` yields them.
- What `json.load` returns: `Option<seq<Element>>`.
- The detector's boxes per image: `Option<seq<Detection>>`, where `None` means the model raised.
- Whether each pipeline stage succeeds: a `succeeds` predicate.

Behaviour worth noting:

- The loader has no per-file atomicity. It commits once, so upserts executed
  before a mid-file error stay in the transaction, but that file is not
  counted.
- The enrichment does not recover from a bad image name or a detector error.
  Both are uncaught, so `conn.commit()` is skipped and the run adds nothing.
- The run summaries are only the two loader counters the code keeps.

## Model

| member | source | states |
|---|---|---|
| RawLoader.RawStore.ExecuteUpsert | scripts/load_raw_to_postgres.py:95-103 | the upsert adds the id; a new row gets the file's channel; an existing row keeps its channel and gets the new message and `now`; no other row changes |
| RawLoader.RawStore.LoadFile | scripts/load_raw_to_postgres.py:79-108 | the table after one file is its upserts applied in order; the file counts as completed exactly when it decoded and every element was an object, and then its count is the number of upserts it executed |
| RawLoader.RawStore.ProcessAndLoad | scripts/load_raw_to_postgres.py:66-118 | the table after the run is `Load` of the selected files from the old table; `processed_files` and `total_messages_upserted` are the numbers of completed files and of messages they upserted |
| RawLoader.FailureIndex | scripts/load_raw_to_postgres.py:86-87 | the position of the first element that is not an object: everything before it is an object |
| RawLoader.ElementUpsertsSound | scripts/load_raw_to_postgres.py:86-104 | no more upserts than elements, and each element adds at most one; every upsert has a truthy id equal to its message's id and the file's channel, and its message is an object of the file |
| RawLoader.ApplyUpsertsAppend | scripts/load_raw_to_postgres.py:73-103 | executing two batches in sequence equals executing their concatenation |
| RawLoader.ApplyUpsertsKeys | scripts/load_raw_to_postgres.py:95-103 | the keys after the upserts are the old keys plus the upserted ids |
| RawLoader.ApplyUpsertsUntouched | scripts/load_raw_to_postgres.py:95-103 | a row whose id is never upserted is unchanged |
| RawLoader.ApplyUpsertsKeepsChannel | scripts/load_raw_to_postgres.py:98-100 | an existing row's `channel_name` is never overwritten |
| RawLoader.ApplyUpsertsLastWrite | scripts/load_raw_to_postgres.py:98-100 | an upserted id holds the message of its last upsert and `loaded_at = now` |
| RawLoader.ApplyUpsertsFirstChannel | scripts/load_raw_to_postgres.py:96-98 | a new id keeps the channel of its first upsert |
| RawLoader.LoadKeys | scripts/load_raw_to_postgres.py:73-103 | the loaded table's keys are the old keys plus the upserted ids; no upsert has id 0 and each carries its message's id |
| RawLoader.RunUpsertsSound | scripts/load_raw_to_postgres.py:73-103 | every upsert of a run comes from an object of a selected `.json` file that decoded; it carries that object's truthy id and the file's stem as channel |
| RawLoader.NoEffectFile | scripts/load_raw_to_postgres.py:75-113 | a non-`.json` file, an unreadable or undecodable file, or one whose objects all lack an id adds no row and no upsert count; it is counted as processed only if it completed |
| RawLoader.NoTruthyNoUpserts | scripts/load_raw_to_postgres.py:88-90 | objects without a truthy id are skipped |
| RawLoader.ElementUpsertsCount | scripts/load_raw_to_postgres.py:84-104 | a file has as many upserts as it has objects with a truthy id |
| RawLoader.CompletedFileCount | scripts/load_raw_to_postgres.py:104-107 | a completed file's `messages_in_file` counts its objects with a truthy id |
| RawLoader.CountedAtMostExecuted | scripts/load_raw_to_postgres.py:104-113 | the reported total never exceeds the upserts executed, and equals them when every decoded file completed |
| RawLoader.NewRowChannel | scripts/load_raw_to_postgres.py:73-103 | in a run over many files, a new row's `channel_name` is the stem of the first file, in walk order, that upserts its id |
| RawLoader.FileChannel | scripts/load_raw_to_postgres.py:83-103 | upserting one file into a table without the id gives that id the file's stem as channel |
| RawLoader.RunUpsertsHasFile | scripts/load_raw_to_postgres.py:73-103 | every upsert of a file of the walk is executed by the run |
| RawLoader.LoadTwice | scripts/load_raw_to_postgres.py:53-100 | re-loading the same files leaves every channel and message as after the first load; only `loaded_at` moves |
| RawLoader.LastOccurrenceWins | scripts/load_raw_to_postgres.py:98-100 | a message id that appears several times in the run holds the body of its last occurrence |
| RawLoader.OneMessageFile | scripts/load_raw_to_postgres.py:79-104 | a `.json` file holding one object with a truthy id yields one upsert for that id under the file's stem, and loading it applies exactly that upsert |
| RawLoader.ExampleReload | scripts/load_raw_to_postgres.py:95-103 | loading `X.json` with message 1 "hello", then again with "hello v2", leaves one row: channel X, the second body, the second load time |
| PathNames.LastDotFinds | scripts/load_raw_to_postgres.py:83 | the last dot found is a dot and no dot follows it; `None` means there is no dot |
| PathNames.RootOfExtended | scripts/load_raw_to_postgres.py:83 | the root of `stem + ".json"` (or `".jpg"`) is the stem, unless the stem is all dots |
| PathNames.StripKeeps | scripts/run_yolo_enrichment.py:54 | a non-whitespace character survives the strip |
| PathNames.ParseIntRejects | scripts/run_yolo_enrichment.py:54 | a stem with a character that is not whitespace, digit, underscore or sign makes `int()` raise |
| PathNames.DigitChar | scripts/scrape_telegram.py:51 | the character of a decimal digit is a digit with that value |
| PathNames.NaturalDigits | scripts/scrape_telegram.py:51 | `str()` of a natural number is all digits and reads back as that number |
| PathNames.StripOfDecimal | scripts/scrape_telegram.py:51 | `str()` of an integer has no surrounding whitespace |
| PathNames.ParseDecimal | scripts/run_yolo_enrichment.py:54 | `int(str(n)) == n` for every integer n |
| Enrichment.ImageFilesSelects | scripts/run_yolo_enrichment.py:49 | the images processed are exactly the directory entries ending in `.jpg` |
| Enrichment.DetectionInserts | scripts/run_yolo_enrichment.py:58-69 | every insert of an image has its message id and a confidence above 0.45, and comes from one of its boxes |
| Enrichment.DetectionInsertsLength | scripts/run_yolo_enrichment.py:58-69 | an image runs exactly one insert per kept box |
| Enrichment.DetectionInsertsKept | scripts/run_yolo_enrichment.py:58-69 | the k-th box, if kept, is the image's insert number "kept boxes before it", with its class and confidence: every kept box is inserted, in box order |
| Enrichment.KeptBoxInserted | scripts/run_yolo_enrichment.py:54-69 | a kept box of an image whose stem parses is among that image's inserts, under the stem's message id |
| Enrichment.RunInsertsContains | scripts/run_yolo_enrichment.py:52-69 | in a run that completes, every image's inserts are among the run's inserts |
| Enrichment.KeptBoxInRun | scripts/run_yolo_enrichment.py:52-69 | in a run that completes, every kept box of every image is inserted |
| Enrichment.EnrichStoresKeptBoxes | scripts/run_yolo_enrichment.py:49-70 | after a committed run, every (message id, class) pair of a kept box has a row: an old row is kept, a new one holds the confidence of the pair's first insert in the run (images in listing order, boxes in result order), stamped `now` |
| Enrichment.DetectionStore.EnrichImages | scripts/run_yolo_enrichment.py:37-73 | the run commits exactly when no image raised; the table is then `Enrich` of the old table |
| Enrichment.InsertDetections | scripts/run_yolo_enrichment.py:58-69 | the box loop's table is the image's inserts applied to the pending table |
| Enrichment.FirstIndex | scripts/run_yolo_enrichment.py:68 | the first insert of a key: no earlier insert has that key |
| Enrichment.ApplyInsertsAppend | scripts/run_yolo_enrichment.py:52-69 | inserting two batches in sequence equals inserting their concatenation |
| Enrichment.RunInsertsStopsAt | scripts/run_yolo_enrichment.py:54-56 | an image whose name is not an integer, or whose detector raises, makes the whole run raise |
| Enrichment.RunInsertsNoneExtends | scripts/run_yolo_enrichment.py:52-72 | once a prefix of the images raises, the run raises |
| Enrichment.ApplyInsertsKeepsRows | scripts/run_yolo_enrichment.py:68 | `DO NOTHING`: an existing row is never changed |
| Enrichment.ApplyInsertsKeys | scripts/run_yolo_enrichment.py:65-69 | the keys after the inserts are the old keys plus the inserted keys |
| Enrichment.ApplyInsertsFirstWrite | scripts/run_yolo_enrichment.py:65-69 | a new key holds the confidence of its first insert and `detected_at = now` |
| Enrichment.ApplyInsertsPresent | scripts/run_yolo_enrichment.py:68 | inserting only keys already present changes nothing |
| Enrichment.RunInsertsAboveThreshold | scripts/run_yolo_enrichment.py:63 | every insert of a run has confidence strictly above 0.45 |
| Enrichment.RunInsertsSound | scripts/run_yolo_enrichment.py:52-69 | every insert of a completing run is a kept box of one of its images, under the message id the image's stem parses to |
| Enrichment.OnlyKeptRowsAdded | scripts/run_yolo_enrichment.py:63-69 | every row a run adds has confidence above 0.45 and `detected_at = now`, and comes from a box of that class and confidence of a `.jpg` entry whose stem is the row's message id |
| Enrichment.EnrichMonotonic | scripts/run_yolo_enrichment.py:68 | every row present before a run is present after it, unchanged |
| Enrichment.EnrichRerun | scripts/run_yolo_enrichment.py:65-70 | re-running over the same images and detector output leaves the table unchanged |
| Enrichment.FailingImageDiscardsRun | scripts/run_yolo_enrichment.py:52-72 | one `.jpg` whose stem is not an integer, or whose detector raises, leaves the committed table unchanged, including the rows of earlier images |
| Enrichment.SingleImageInserts | scripts/run_yolo_enrichment.py:49-69 | a directory of one image with an integer stem runs that image's kept boxes |
| Enrichment.SingleImage | scripts/run_yolo_enrichment.py:49-70 | a run over one such image applies exactly its kept boxes |
| Enrichment.SameClassTwice | scripts/run_yolo_enrichment.py:65-69 | two kept boxes of one class in one image store only the first, even when the second is more confident |
| Enrichment.ScraperImageName | scripts/scrape_telegram.py:51 | the image name the scraper writes for message n is a `.jpg` whose stem reads back as n |
| Enrichment.ExampleMessageSeven | scripts/run_yolo_enrichment.py:52-69 | message 7 with boxes ("box", 0.9) and ("bag", 0.3) gets one row, ("box", 0.9) |
| Enrichment.ExampleNonNumericName | scripts/run_yolo_enrichment.py:54 | a directory with `7.jpg` and `cat.jpg` adds no row: `int("cat")` raises |
| TopProducts.WordLength | api/crud.py:24 | the first token is free of whitespace and ends at whitespace or at the end |
| TopProducts.GapLength | api/crud.py:24 | the separator skipped is all whitespace and is followed by a non-space or the end: it is maximal |
| TopProducts.GapStep | api/crud.py:24 | a separator that follows a piece is non-empty, and the rest after it starts with a non-space |
| TopProducts.FirstGap | api/crud.py:24 | the first whitespace run of a text that has one is non-empty whitespace |
| TopProducts.SplitInterleave | api/crud.py:24 | the text is its pieces with the whitespace runs put back between them: there is one run fewer than pieces |
| TopProducts.GapsAreWhitespace | api/crud.py:24 | every run the text is cut at is non-empty whitespace |
| TopProducts.InnerPiecesNonEmpty | api/crud.py:24 | only the first and the last piece can be empty, and the first is not when the text starts with a non-space |
| TopProducts.SplitAtGaps | api/crud.py:24 | `\s+` splitting: the text is pieces free of whitespace joined by non-empty whitespace runs, and only a leading or trailing run gives an empty piece |
| TopProducts.SplitWordsHaveNoWhitespace | api/crud.py:24 | no token of the split contains whitespace |
| TopProducts.NonWhitespaceOfWord | api/crud.py:24 | removing whitespace from a token leaves it unchanged |
| TopProducts.NonWhitespaceOfGap | api/crud.py:24 | removing whitespace from a separator leaves nothing |
| TopProducts.NonWhitespacePieces | api/crud.py:24 | a token, a separator and the rest keep exactly the token's and the rest's text |
| TopProducts.SplitKeepsText | api/crud.py:24 | the tokens, concatenated, are the text with its whitespace removed: no character is lost or invented |
| TopProducts.Letters | api/crud.py:34 | removing non-letters keeps only ASCII letters and never lengthens the word |
| TopProducts.Clean | api/crud.py:34 | a cleaned word is lower-case ASCII letters and no longer than the token |
| TopProducts.Lower | api/crud.py:34 | an upper-case ASCII letter becomes the same letter in lower case; every other character is unchanged; letters stay letters |
| TopProducts.LettersAppend | api/crud.py:34 | removing non-letters from a concatenation removes them from each part |
| TopProducts.CleanAppend | api/crud.py:34 | a concatenation cleans to the concatenation of its cleaned parts |
| TopProducts.CleanOfChar | api/crud.py:34 | one character cleans to itself lower-cased if it is an ASCII letter and to nothing otherwise |
| TopProducts.LettersOfLetters | api/crud.py:34 | a word of letters only is unchanged by the removal |
| TopProducts.CleanIdempotent | api/crud.py:34 | cleaning a cleaned word changes nothing |
| TopProducts.CleanedNeverNumeric | api/crud.py:34-56 | a cleaned word never matches `^[0-9.]+$`, so that filter removes nothing |
| TopProducts.Words | api/crud.py:40-64 | every counted word is longer than 3, not a stop word, not numeric, non-empty and clean |
| TopProducts.Distinct | api/crud.py:65 | the groups: the same words, each once |
| TopProducts.InsertByMentions | api/crud.py:66 | insertion into the ranking adds exactly the new row |
| TopProducts.InsertAtMost | api/crud.py:66 | insertion keeps an upper bound on the mentions |
| TopProducts.InsertKeepsSorted | api/crud.py:66 | insertion keeps the ranking in descending order of mentions |
| TopProducts.SortByMentions | api/crud.py:66 | the ranking is in descending order of mentions and a permutation of the groups |
| TopProducts.Ranked | api/crud.py:60-66 | the grouped counts come out in descending order of mentions |
| TopProducts.ProductShape | api/crud.py:60-72 | every returned product is a lower-case word longer than 3 letters and not a stop word |
| TopProducts.RankedRows | api/crud.py:60-66 | one row per distinct word, with that word's count |
| TopProducts.RankedDistinct | api/crud.py:65 | no product appears twice |
| TopProducts.RankedPosition | api/crud.py:65 | every counted word has its row, with its count |
| TopProducts.TopRows | api/crud.py:60-67 | every returned row is a filtered word with the number of tokens that clean to it |
| TopProducts.TopComplete | api/crud.py:66-67 | a word mentioned more often than some returned row is itself returned |
| TopProducts.GetTopProductsCorrect | api/crud.py:12-72 | the query fails exactly when `LIMIT` is negative; otherwise the result is a correct top-`limit`: length `min(limit, distinct words)`, true counts, distinct, descending, and no omitted word beats a returned one |
| TopProducts.DefaultTopProducts | api/crud.py:12 | with the default `limit = 10` the query succeeds, returns at most ten rows, and they are a correct top ten |
| TopProducts.DistinctCardinality | api/crud.py:65 | the number of groups is the number of distinct words |
| TopProducts.TallyNoDuplicates | api/crud.py:60-65 | the grouped rows are pairwise different |
| TopProducts.TokensCleanedToSnoc | api/crud.py:62 | one more token adds one to the count of the word it cleans to, and nothing else |
| TopProducts.CountIsTokensCleanedTo | api/crud.py:34-62 | `COUNT(*)` of a word that passes the filters is the number of tokens that clean to it |
| Assets.EdgePointsEarlier | dagster_repo/assets.py:18-34 | in a topologically listed graph every dependency is listed earlier |
| Assets.PathDescends | dagster_repo/assets.py:18-34 | following dependencies only moves earlier in the list |
| Assets.TopologicalIsAcyclic | dagster_repo/assets.py:13-39 | a graph listed upstream-first has no dependency cycle |
| Assets.ChainIsTopological | dagster_repo/assets.py:13-39 | a chain where each stage depends on the previous one is topological, with every dependency declared |
| Assets.AllAssetsShape | dagster_repo/assets.py:13-39 | four assets with distinct names in the listed order, each depending on the one before; extraction, extraction, no group, enrichment |
| Assets.AllAssetsAcyclic | dagster_repo/assets.py:13-39 | every dependency is declared, the list is upstream-first and the graph is acyclic |
| Assets.Statuses | dagster_repo/assets.py:39 | a run assigns a status to every stage and to nothing else |
| Assets.Execute | dagster_repo/assets.py:13-39 | the sequential run's status map and start order are those of the run model |
| Assets.StatusesStable | dagster_repo/assets.py:13-39 | a stage's final status is decided by its upstream stages' statuses at its turn |
| Assets.StartedIffRan | dagster_repo/assets.py:13-39 | a stage is started exactly when it is not skipped |
| Assets.StartedNames | dagster_repo/assets.py:39 | only stages of the graph are started |
| Assets.StartedPrefix | dagster_repo/assets.py:39 | the start order of a prefix of the list is a prefix of the full start order |
| Assets.SucceededWasStarted | dagster_repo/assets.py:13-39 | a succeeded stage was started |
| Assets.StatusesPrefixStable | dagster_repo/assets.py:39 | later stages do not change an earlier stage's status |
| Assets.ReadyUpstream | dagster_repo/assets.py:18-34 | a stage that runs finds each dependency already started and succeeded |
| Assets.RunsAfterUpstream | dagster_repo/assets.py:18-34 | a stage that is not skipped runs after all its dependencies, which succeeded |
| Assets.StartedThrough | dagster_repo/assets.py:39 | a ready stage is started right after the stages started before it |
| Assets.SkipCascades | dagster_repo/assets.py:18-34 | a stage with a dependency that did not succeed is skipped |
| Assets.TransitiveSkip | dagster_repo/assets.py:18-34 | a failure anywhere upstream, through any chain of dependencies, skips the stage |
| Assets.AllSucceed | dagster_repo/assets.py:13-39 | when every stage succeeds, all stages run, in list order |
| Assets.FullRun | dagster_repo/assets.py:13-39 | a fully successful run starts scrape, load, dbt build, enrichment, in that order |
| Assets.LoadFailureSkipsRest | dagster_repo/assets.py:18-34 | when the load fails, only scrape and load start; dbt and enrichment are skipped |

## Left out

- The scraper (`scripts/scrape_telegram.py`) is outside this model. Only its file-naming rule is used, by `Enrichment.ScraperImageName`.
- Database connections and `CREATE SCHEMA` / `CREATE TABLE` are not modelled. Each table starts as a given map.
- The Python `logging` calls are not modelled.
- `os.walk`, `os.listdir` and their order are inputs: a `seq` in the order the listing yields.
- Directory paths are not modelled: a file is known by its base name, which has no `/`.
- `json.load` is an input. Values other than a list of objects are not told apart. An element that is not an object is `NonObject`, which raises `AttributeError` on `.get`. A non-list top-level value maps to `None` (it raises) or to a sequence of such elements. A JSON dict or string iterates without error only when empty, and is then a file with no elements.
- Message ids are integers or missing; other truthy ids are not modelled, and what they do depends on the type. A string of digits is converted by Postgres and stored. A float is rounded and stored. A dict fails inside the client before anything is sent; the `except Exception` of that file catches it and the transaction goes on, so later files still commit. A boolean, a list, a non-numeric string or an integer beyond `BIGINT` makes the server raise. The same `except` catches that, but the transaction is aborted: every later statement fails, and the final commit rolls back the whole run.
- `Json(message)` serialises with `json.dumps`, which writes `NaN` or `Infinity` for a non-finite float that `json.load` accepted, and escapes U+0000 and lone surrogates as `\u0000` / `\udXXX`. Postgres `JSONB` rejects each of these with a server error. The file's `except Exception` catches it, but the transaction is aborted, so the final commit rolls back the whole run. The model stores every object as given.
- Enrichment stems beyond `BIGINT`: `int()` accepts any length, but the first kept-box insert of such an image makes the server raise. Nothing catches it, so the run commits nothing. The model has unbounded message ids and commits those rows.
- The stored `raw_message` is the message object as given; JSONB normalisation is not modelled.
- The YOLO model is an input: boxes per image, in result order, flattened across the results list, with class names already looked up.
- `float(box.conf)` is a `real`. `REAL` (single-precision) rounding of the stored confidence is not modelled.
- `VARCHAR(255)` limits on `channel_name` and `detected_object` are not modelled.
- `int()` of a stem: only ASCII whitespace and ASCII digits are modelled; Unicode digits and spaces are not.
- The report's whitespace split uses ASCII whitespace only.
- The SQL view `marts_analytics.fct_messages` (built by dbt) is not part of this model. Its `message_text` column is the input, `None` for NULL.
- Ties in the ranking: Postgres leaves their order unspecified. `TopProducts.IsTopProducts` admits every such order, and the function picks one.
- `get_channel_activity`, `search_messages`, the FastAPI layer (`api/main.py`), `api/schemas.py` and `api/database.py` are not modelled.
- `dagster_repo/jobs.py`, the schedule and `dagster_repo/__init__.py` are not modelled.
- The dbt project is one stage.
- `Assets.Execute` models the run semantics the orchestrator gives these assets: a stage's body is opaque success or failure, and its downstream stages are skipped on failure. It does not model Dagster's overall run status or its cycle detection, and it does not run stages concurrently.
- Concurrency between pipeline processes writing the same tables is not modelled.
