# AI code reviewer and RAG content loader, modelled in Dafny

This project models the two pieces of the repository that hold logic of their
own, and proves what they promise.

- **`ai_code_reviewer.py`** (module `CodeReviewer`, file `code_reviewer.dfy`) is the
  GitHub pull-request reviewer. The model covers:
  - the constructor's checks on the repository and the PR number;
  - how the PR number is read from `GITHUB_REF`;
  - the glob-like exclude matcher `should_review_file`;
  - the parsing of the comma-separated `EXCLUDE` setting;
  - the blank-diff guard and the `strip()` of the completion in `review_code_with_ai`;
  - the `run_review` loop, with its three gates (not excluded, not removed,
    non-empty patch), and the Markdown summary it posts.

  The reviewer's configuration never changes after construction, so it is a
  datatype. Construction returns a `Result`, and an `Err` stands for each
  `ValueError`. `run_review` is a method with the source's loop. It returns the
  body it would post (`None` when nothing is posted) and the reviewed filenames.
  It is proved equal to the specification function `Reviews`, which is a filter
  over the files. The properties are proved about `Reviews`.
- **`load_embeddings.py`** (module `EmbeddingsLoader`, file `embeddings_loader.dfy`)
  is the loader that fills the `rag_content` table. The model covers:
  - the two context formatters, with their labels, `N/A` defaults and list joins;
  - the row ids;
  - the records;
  - the two per-item loops.

  The table is a class `RagTable` whose methods update its rows in place and
  log every upsert sent to it. The two loaders are methods over it. They share
  one loop, `LoadIntoRag`, because the two source loops differ only in:
  - the id function;
  - the formatter;
  - the document type.

  Each loader is proved to send exactly the upserts described by `Upserts`. It
  is also proved to leave the table equal to `ApplyUpserts` of those upserts.

The helper modules model the Python operations the scripts use:
- `Strings` models `strip`, `split` on one character, `join`, `startswith`, `endswith` and `in`.
- `Numerals` models `str(int)` and `int(str)`.
- `Sequences` models the "keep some items, in order" loop shape.
- `Wrappers` holds the `Option` and `Result` datatypes.

The external calls are parameters:
- The OpenAI chat completion is `ai(filename, diff)`. `None` means the call raised.
- The `get_embedding` call made for item `i` is `embed(i, text)`, so two items with the
  same text may get different answers. `None` means the call raised. In the source that
  call sits outside the `try`, so the loop stops there.
- Whether the store accepts the upsert of item `i` is `accepts(i)`. A rejected
  upsert is inside the `try` in the source, so it is reported and the loop goes on.

Two observations about the code as written, both modelled as written:
- A `**/x` pattern compares `x` literally. So `**/*.py` excludes only names that
  contain the text `*.py`, not every Python file.
- `_get_pr_number` reads the third `/`-separated segment. It therefore finds the number
  only when the ref starts with two segments, as `refs/pull/<n>/merge` does.

## Model

| member | source | states |
|---|---|---|
| CodeReviewer.NewReviewer | ai_code_reviewer.py:24-34 | a missing or empty repository falls back to GITHUB_REPOSITORY, and a missing or zero PR number falls back to the number read from GITHUB_REF: on success, the kept repository is the environment's whenever the argument is missing or empty, and the kept PR number is `GetPrNumber` of the ref whenever the argument is missing or zero. Construction fails with the repository error exactly when both repository sources are missing or empty. It fails with the PR-number error exactly when the repository is known and neither the argument nor the ref gives a non-zero number. On success the given token, model and non-empty values are kept, with the fixed API base |
| CodeReviewer.ZeroPrNumberRejected | ai_code_reviewer.py:28-34 | an explicit PR number 0 counts as missing: without a pull ref, construction fails |
| CodeReviewer.PrNumberFromMergeRef | ai_code_reviewer.py:27-42 | with no explicit arguments, the repository comes from the environment and the PR number from `refs/pull/<n>/merge` |
| CodeReviewer.GetPrNumber | ai_code_reviewer.py:36-45 | a ref without `/pull/` gives no number. A number is found only when the ref has a third `/`-separated segment made of digits with an optional leading sign |
| CodeReviewer.GetPrNumberOfMergeRef | ai_code_reviewer.py:36-45 | the PR number read from `refs/pull/<n>/merge` is `n`, for every integer `n` |
| CodeReviewer.PullRefHasThirdSegment | ai_code_reviewer.py:40-42 | a ref containing `/pull/` always has a third segment, so only the integer parse can fail |
| CodeReviewer.ShouldReviewFile | ai_code_reviewer.py:131-145 | the loop answers "review" exactly when no exclude pattern matches the filename |
| CodeReviewer.Matches | ai_code_reviewer.py:135-144 | a pattern matches a filename only when the filename contains the pattern's literal part: the text after `**/`, the `.ext` of `*.ext`, or the whole pattern |
| CodeReviewer.Excluded | ai_code_reviewer.py:133-144 | a filename is excluded exactly when some pattern in the list matches it |
| CodeReviewer.DoubleStarMatchesSubstring | ai_code_reviewer.py:135-138 | `**/x` matches exactly the filenames containing `x`, because the suffix test is subsumed |
| CodeReviewer.DoubleStarAloneExcludesAll | ai_code_reviewer.py:135-138 | the pattern `**/` alone matches every filename |
| CodeReviewer.StarDotMatchesSuffix | ai_code_reviewer.py:139-142 | `*.ext` matches exactly the filenames ending in `.ext` |
| CodeReviewer.PlainMatchesSubstring | ai_code_reviewer.py:143-144 | any other pattern matches exactly the filenames containing it |
| CodeReviewer.NoPatternsExcludeNothing | ai_code_reviewer.py:131-145 | with no patterns, every file is reviewed |
| CodeReviewer.ExcludedIgnoresOrder | ai_code_reviewer.py:133-145 | two pattern lists with the same members exclude the same files, whatever their order or repetitions |
| CodeReviewer.ExcludedGrows | ai_code_reviewer.py:133-145 | adding patterns before or after a list keeps every file it excluded excluded |
| CodeReviewer.ParseExcludePatterns | ai_code_reviewer.py:215 | every parsed pattern is non-empty, has no whitespace at either end and contains no comma |
| CodeReviewer.ParseExcludePatternsMembers | ai_code_reviewer.py:215 | a string is a parsed pattern exactly when it is the non-empty stripped form of some comma-separated piece |
| CodeReviewer.ParseExcludePatternsConcat | ai_code_reviewer.py:215 | patterns keep the order of the setting: parsing `a,b` gives the patterns of `a` followed by those of `b` |
| CodeReviewer.ParseExcludePatternsSingle | ai_code_reviewer.py:215 | a setting holding one non-empty, stripped, comma-free pattern parses to that pattern alone |
| CodeReviewer.ParseExcludePatternsEmpty | ai_code_reviewer.py:204-215 | an unset or empty EXCLUDE gives no patterns |
| CodeReviewer.KeepStripped | ai_code_reviewer.py:215 | the filter of the comprehension keeps at most one pattern per piece, and each is non-empty and stripped |
| CodeReviewer.KeepStrippedFrom | ai_code_reviewer.py:215 | a string is kept exactly when it is non-empty and is the stripped form of some piece |
| CodeReviewer.KeepStrippedConcat | ai_code_reviewer.py:215 | the comprehension treats the pieces one by one, in order |
| CodeReviewer.StripKeepsOut | ai_code_reviewer.py:215 | stripping a piece adds no character, so a comma-free piece stays comma-free |
| CodeReviewer.Diff | ai_code_reviewer.py:74-76 | the diff is the file's patch when it has one, and empty otherwise |
| CodeReviewer.ReviewCodeWithAi | ai_code_reviewer.py:78-113 | a whitespace-only diff is never sent and gives no review, and a returned review has no whitespace at either end |
| CodeReviewer.ReviewOf | ai_code_reviewer.py:160-186 | a review of a file carries that file's name, and exists only for a file that is not excluded and not removed. Its text is non-empty and has no whitespace at either end |
| CodeReviewer.Reviews | ai_code_reviewer.py:160-186 | there are at most as many reviews as files |
| CodeReviewer.ReviewsPassGates | ai_code_reviewer.py:160-186 | each review is for a file of the list that is not removed, its filename is not excluded, and its text is non-empty and stripped |
| CodeReviewer.ReviewOfGates | ai_code_reviewer.py:160-186 | a file yields a section exactly when it is not excluded, not removed, its diff is not blank and the completion exists and is not blank. The section then holds the stripped completion |
| CodeReviewer.Summary | ai_code_reviewer.py:189-191 | the summary starts with `## AI Code Review\n\n` and ends with `\n\n---\n*Reviewed by {model}*` |
| CodeReviewer.PostedBody | ai_code_reviewer.py:188-195 | a body is posted exactly when there is at least one review, and it then has the summary's header and footer |
| CodeReviewer.RunReview | ai_code_reviewer.py:147-195 | the loop posts exactly `PostedBody` of the reviews that pass the gates, in file order, and reports their filenames. Nothing is posted when there is no review |
| CodeReviewer.ReviewsAppend | ai_code_reviewer.py:160-186 | the reviews of two consecutive runs of files are concatenated, so sections keep the input file order |
| CodeReviewer.ReviewsAreFilter | ai_code_reviewer.py:160-186 | each review comes from a passing file, in increasing file position, and every passing file contributes one |
| CodeReviewer.MorePatternsFewerReviews | ai_code_reviewer.py:164-166 | adding exclude patterns never produces more reviews |
| CodeReviewer.CatchAllPostsNothing | ai_code_reviewer.py:164-195 | with `**/` among the patterns, no file is reviewed and nothing is posted |
| CodeReviewer.SummaryOfOne | ai_code_reviewer.py:186-191 | one review is posted as `## AI Code Review\n\n### {filename}\n\n{review}\n\n---\n*Reviewed by {model}*` |
| CodeReviewer.SummaryAppend | ai_code_reviewer.py:189-191 | each further review adds `\n\n---\n\n` and its section just before the footer |
| EmbeddingsLoader.FormatJobContext | load_embeddings.py:42-60 | when no value holds a line break, a job's text splits into exactly 8 lines. They are Job Title, Company, Location, Employment Type, Experience Level, Salary Range, Skills and Description, in that order, each label followed by its value |
| EmbeddingsLoader.EmptyJobLines | load_embeddings.py:52-60 | a job with no keys renders every scalar as `N/A` and its skills as empty |
| EmbeddingsLoader.FormatProfileContext | load_embeddings.py:63-89 | when no value holds a line break, a profile's text splits into exactly 11 labelled lines, from Name to LinkedIn, in order |
| EmbeddingsLoader.EmptyProfileLines | load_embeddings.py:73-89 | a profile with no keys renders every scalar as `N/A`, experience as `0 years`, and skills and education as empty |
| EmbeddingsLoader.SkillsTextOrder | load_embeddings.py:52 | skills appear in list order with `, ` between neighbours, and a missing list renders as nothing |
| EmbeddingsLoader.EducationTextOrder | load_embeddings.py:74-77 | education entries appear in list order with `; ` between neighbours, and a missing list renders as nothing |
| EmbeddingsLoader.EmptyEducationEntry | load_embeddings.py:75 | an entry without degree and school renders as ` from ` |
| EmbeddingsLoader.JobRowId | load_embeddings.py:106 | a job's row id is `job_` followed by its `id` when it has one, and otherwise by a number that reads back as its position |
| EmbeddingsLoader.ProfileRowId | load_embeddings.py:146 | a profile's row id is its `linkedin_url` when it has one, and otherwise a number that reads back as its position |
| EmbeddingsLoader.JobRowIdsDistinct | load_embeddings.py:106 | two jobs without `id` at different positions get different row ids |
| EmbeddingsLoader.ProfileRowIdsDistinct | load_embeddings.py:146 | two profiles without `linkedin_url` at different positions get different row ids |
| EmbeddingsLoader.IndexProfileIdIsNoJobId | load_embeddings.py:146 | a position-based profile id never equals a job row id |
| EmbeddingsLoader.JobRecord | load_embeddings.py:105-121 | a job record carries a `job_` id, the given embedding and user, the `job` document type, and a text of 8 lines when no value holds a line break |
| EmbeddingsLoader.ProfileRecord | load_embeddings.py:145-161 | a profile record carries the given embedding and user, the `profile` document type, a position-based id when there is no `linkedin_url`, and a text of 11 lines when no value holds a line break |
| EmbeddingsLoader.EmbeddedCount | load_embeddings.py:105-112 | the loop reaches the upsert for exactly the items before the first failing embedding call, where the call for item `i` is made with `i` and its text |
| EmbeddingsLoader.RepeatedTextCanFailLater | load_embeddings.py:105-112 | because each call is separate, an item can fail to embed even when an earlier item with the same text succeeded, and the loop stops there |
| EmbeddingsLoader.Upserts | load_embeddings.py:105-121 | there is at most one upsert per item. Upsert `i` is item `i`'s record with its own embedding, and it is sent only when that item's embedding succeeded. When there are fewer upserts than items, the embedding of the first item without one failed |
| EmbeddingsLoader.ApplyUpserts | load_embeddings.py:123-127 | upserts never remove a row |
| EmbeddingsLoader.ApplyUpsertsKeys | load_embeddings.py:123-127 | after a run of upserts, the ids in the table are the old ones plus the ids of the accepted upserts |
| EmbeddingsLoader.ApplyUpsertsRows | load_embeddings.py:122-127 | after a run of upserts, an id holds the latest accepted record with that id. An id no accepted upsert wrote keeps its old row, so rejected upserts leave no trace |
| EmbeddingsLoader.AllAcceptedDistinctStored | load_embeddings.py:122-127 | when all upserts are accepted and the ids differ, every record is stored under its id |
| EmbeddingsLoader.RagTable.Upsert | load_embeddings.py:124 | one upsert is logged, and when it is accepted it replaces the row with its id. Nothing else changes |
| EmbeddingsLoader.LoadIntoRag | load_embeddings.py:105-127 | the loop sends exactly `Upserts`: one per item, in order, up to the first failed embedding. Rejected upserts do not stop it. The rows become `ApplyUpserts` of them, and the outcome says whether all items were processed |
| EmbeddingsLoader.LoadJobsIntoRag | load_embeddings.py:105-127 | the job loader sends the job upserts with the `job` document type and the given user, and updates the table accordingly |
| EmbeddingsLoader.LoadProfilesIntoRag | load_embeddings.py:145-167 | the profile loader sends the profile upserts with the `profile` document type and the given user, and updates the table accordingly |
| EmbeddingsLoader.UpsertsOnePerItem | load_embeddings.py:105-121 | when every embedding succeeds there is exactly one upsert per item, in order. It carries the item's id, text and embedding, the user and the document type |
| EmbeddingsLoader.JobUpsertsOnePerJob | load_embeddings.py:105-121 | when every embedding succeeds, upsert `i` is job `i`'s record with document type `job` |
| EmbeddingsLoader.ProfileUpsertsOnePerProfile | load_embeddings.py:145-161 | when every embedding succeeds, upsert `i` is profile `i`'s record with document type `profile` |
| EmbeddingsLoader.DistinctIdsAllStored | load_embeddings.py:105-127 | with all embeddings and upserts succeeding and distinct ids, each item's text ends up under its id |
| EmbeddingsLoader.JobsWithoutIdAllStored | load_embeddings.py:105-127 | jobs without `id` never overwrite one another: each one's text is stored under `job_<position>` |

## Left out

- GitHub HTTP calls are not modelled: `_make_github_request`, `get_pr_files`, `post_review_comment` and `post_review`. The file list is an input, and `RunReview` returns the body instead of posting it.
- The OpenAI calls are parameters: the completion with its prompt, temperature and token limit, and `get_embedding`.
- Embedding vectors are opaque.
- An upsert whose `execute()` raises is taken to have written nothing. The claim of `ApplyUpsertsRows` that rejected upserts leave no trace rests on this; a store that applied a write and then failed to answer is not modelled.
- `print` logging is not modelled. The progress messages and the `print(data)` of each job record carry no state.
- Reading environment variables is left out, except as parameters of `NewReviewer`. The `GITHUB_TOKEN` and `OPENAI_API_KEY` checks in `main` (lines 206-212) only exit the process.
- Default arguments are not modelled: the reviewer's `model="gpt-4o-mini"`, the `OPENAI_API_MODEL` default in `main`, and the loaders' `user_id=1`. Callers pass these values.
- File reading and `json.load` are left out. The parsed items are inputs, and the JSON file paths and `main` of the loader script are not modelled.
- A file entry without a `filename` or `status` key raises `KeyError` in `run_review`. The model's `FileInfo` always has both.
- JSON `null` values and non-string values are not modelled. A present-but-null key would render as `None`, and a non-string list element would make `join` raise. Fields are `Option` values whose `None` means "absent".
- A job's `id` is modelled as its rendered text. An integer `id` is therefore given as its decimal digits.
- `experience_years` is modelled as an integer. A float would render differently.
- GetPrNumber: reads the third segment as an optional sign followed by ASCII digits. Python's `int()` also accepts surrounding whitespace, underscores between digits and non-ASCII digits.
- Concurrency and retries do not occur in the modelled code. The Supabase client, PubNub processor and web back end are not part of this model.
