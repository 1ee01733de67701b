# Knowledge-base maintenance scripts: bulk re-index and status report

This project models two maintenance scripts of the knowledge-base portal's backend and proves properties of them in Dafny.

- **Bulk re-index** (`backend/index-all-articles.js`). The script queries the APPROVED articles and walks them one at a time. An article that already has an `ArticleEmbedding` entry is skipped. For any other article it builds one indexable text from title, excerpt, content and optional PDF text, obtains an embedding of that text, and upserts one entry keyed by the article id. Each article lands in exactly one of the tallies `indexed / skipped / failed`, and one article's failure never stops the batch.
  - The collection is a class `EmbeddingCollection` whose field `entries: map<ArticleId, Entry>` is updated in place by `FindOneAndUpdate`.
  - The loop is the method `IndexAllArticles`, proved against the specification function `Run`. `Run` gives the table and the per-article outcomes after any prefix of the article list.
  - The embedder is a parameter, a function from text to `Option<Vector>`, where `None` means it threw. Which collection calls throw is given per article by `Faults`.
- **Status report** (`backend/check-all-data.js`). Articles, newest first, are pushed into a table of four buckets keyed APPROVED, PENDING, REJECTED and DRAFT. The non-empty buckets are then reported in key order, one line per article.
  - Grouping is the method `GroupByStatus`. A status outside the four keys makes `grouped[status].push` throw. That ends the report and is modelled as a `Failure` recording the position and status of the first offending article.
  - Reporting is done by the methods `ReportBuckets` and `ReportLines`.

Both scripts use the same filter, `Articles.WithStatus`, which keeps the input order. The re-index script uses it as its query `find({ status: 'APPROVED' })`. The report uses it to define each bucket.

The script skips an article whenever any entry exists, whatever its `embeddingModel` stamp (`backend/index-all-articles.js:28-34`).

JavaScript truthiness is modelled explicitly, because it decides several branches:
- `Truthy(o)` means the value is present and non-empty, and `OrElse(o, d)` is `o || d`.
- An empty `pdfText` is falsy, so it adds no PDF section.
- An empty `EMBEDDING_MODEL` falls back to `'local-tfidf-v2'`.
- A missing author, or a missing or empty author name, is reported as `Unknown`.

## Model

| member | source | states |
|---|---|---|
| `Articles.WithStatus` | backend/index-all-articles.js:13 | the status query and each bucket: every article returned has that status and comes from the input, and there are no more of them than input articles |
| `Articles.WithStatusMembership` | backend/index-all-articles.js:13 | an article is among those the status query returns iff it is in the store and has that status |
| `Articles.WithStatusIsStableFilter` | backend/check-all-data.js:33-35 | a bucket is a stable filter: its k-th article is the input article at the k-th matching position, the positions ascend, and they are exactly the positions whose status matches |
| `Articles.WithStatusKeepsNewestFirst` | backend/check-all-data.js:22-35 | filtering a newest-first list (createdAt non-increasing) gives a newest-first list |
| `ArticleIndexing.ModelStamp` | backend/index-all-articles.js:54 | the model stamp is never empty; it is the configured EMBEDDING_MODEL whenever that setting is truthy (otherwise `local-tfidf-v2`) |
| `ArticleIndexing.IndexableText` | backend/index-all-articles.js:37-40 | the indexable text is exactly as long as title, excerpt (or nothing), content and two separators, plus the PDF heading and text when the PDF text is truthy |
| `ArticleIndexing.Attempt` | backend/index-all-articles.js:26-66 | one article's outcome: skipped iff its lookup succeeds and an entry exists; the embedder is called, with exactly the indexable text, iff the lookup succeeds and no entry exists; indexed iff in addition embedding and write succeed; an indexed entry stores the embedded text, that text's embedding, the stamp and the clock |
| `ArticleIndexing.ApplyUpserts` | backend/index-all-articles.js:28-58 | because an article with an entry is skipped, one iteration's upsert only ever inserts a fresh key: an indexed article had no entry, every existing entry keeps its value, the keys grow by the article's id exactly when it is indexed, and the table grows by one exactly then |
| `ArticleIndexing.Run` | backend/index-all-articles.js:25-67 | the loop produces exactly one outcome per article |
| `ArticleIndexing.EmbeddingCollection.FindOne` | backend/index-all-articles.js:28 | the lookup throws iff the store fails for that id; otherwise it finds an entry iff the id has one, and returns that entry |
| `ArticleIndexing.EmbeddingCollection.FindOneAndUpdate` | backend/index-all-articles.js:48-58 | upsert keyed by article id, for a document that belongs to that id: on success the table is the old one with that id mapped to the document; on failure it is unchanged; either way every entry stays under its own article's id |
| `ArticleIndexing.IndexOne` | backend/index-all-articles.js:26-66 | the loop body (lookup, skip, text composition, embed, upsert, with every throw caught) yields the outcome Attempt specifies and leaves the table as that outcome says; its embedder log is that outcome's embedded text |
| `ArticleIndexing.IndexAllArticles` | backend/index-all-articles.js:13-76 | with no approved article it returns before touching the table or the counters; otherwise the table ends as Run over the approved articles leaves it, the counters are Run's tallies, total is the number of approved articles, and totalIndexed is the size of the whole collection |
| `IndexingProperties.TalliesPartition` | backend/index-all-articles.js:21-23 | every outcome lands in exactly one of the three tallies |
| `IndexingProperties.RunTalliesPartition` | backend/index-all-articles.js:21-67 | indexed + skipped + failed equals the number of approved articles |
| `IndexingProperties.RunAppend` | backend/index-all-articles.js:25-67 | processing `xs + ys` is processing `xs`, then `ys` from the table `xs` left |
| `IndexingProperties.RunOutcomeAt` | backend/index-all-articles.js:25-67 | the k-th article is decided against the table its predecessors left, and the earlier outcomes are those of the prefix |
| `IndexingProperties.RunKeepsExisting` | backend/index-all-articles.js:28-34 | an entry that exists before the loop is still there afterwards, unchanged |
| `IndexingProperties.PrefixTableKept` | backend/index-all-articles.js:28-34 | every entry present after a prefix of the list is present, unchanged, at the end |
| `IndexingProperties.RunKeys` | backend/index-all-articles.js:48-58 | an id has an entry after the loop iff it had one before or an article with that id was indexed |
| `IndexingProperties.RunSize` | backend/index-all-articles.js:48-58 | each indexed article adds exactly one entry, so no article is stored twice: the table grows by exactly the indexed count |
| `IndexingProperties.RunWritesFromArticles` | backend/index-all-articles.js:37-56 | every entry the loop creates belongs to an indexed article of the list, and stores that article's indexable text, the embedding of exactly that text, the model stamp and the clock |
| `IndexingProperties.RunKeepsConsistent` | backend/index-all-articles.js:45-56 | if every entry is stored under its own article's id and its vector is the embedding of its stored text before the loop, both still hold afterwards |
| `IndexingProperties.FailedAndSkippedWriteNothing` | backend/index-all-articles.js:28-66 | a failed article leaves the table as it was; a skipped article had an entry, is not embedded, and its entry is the one left at the end |
| `IndexingProperties.RunLeavesUnlisted` | backend/index-all-articles.js:25-67 | an id that no listed article carries keeps exactly the entry it had, or stays absent |
| `IndexingProperties.RerunPrefix` | backend/index-all-articles.js:28-34 | after a full run, re-running any prefix of the same list changes nothing and indexes nothing |
| `IndexingProperties.RerunIndexesNothing` | backend/index-all-articles.js:28-58 | idempotence: a second run over the same list, with the same embedder and store faults, leaves the collection as the first run left it and indexes nothing |
| `IndexingProperties.RerunOutcomes` | backend/index-all-articles.js:28-66 | with distinct ids and the same embedder and store faults, the second run skips each article the first run indexed or skipped, and fails each article the first run failed, for the same reason |
| `IndexingProperties.CountRelabelled` | backend/index-all-articles.js:21-23 | turning indexed outcomes into skipped ones moves their count from the indexed tally to the skipped tally |
| `IndexingProperties.RerunTallies` | backend/index-all-articles.js:21-67 | with distinct ids and the same embedder and store faults, the second run reports indexed 0, skipped equal to the first run's indexed + skipped, and failed unchanged |
| `IndexingProperties.OnlyApprovedIndexed` | backend/index-all-articles.js:13-58 | every entry the script creates belongs to an APPROVED article of the store and stores that article's indexable text |
| `IndexingProperties.IndexableTextShape` | backend/index-all-articles.js:37-40 | the text opens with the title and a blank line; it ends with the content, or with the PDF heading and PDF text when that text is truthy; a missing and an empty excerpt or PDF text give the same text |
| `StatusReport.Rank` | backend/check-all-data.js:26-31 | each of the four keys has its position in the table's key order |
| `StatusReport.Buckets` | backend/check-all-data.js:26-35 | the final `grouped` table has exactly the four keys, and each holds the input filtered by that status |
| `StatusReport.LineFor` | backend/check-all-data.js:41-46 | an article's line: number idx + 1, its title, the author's username when the author exists and the username is truthy and `Unknown` otherwise, likewise the email or `N/A`, and a rejection reason exactly when the reason is truthy |
| `StatusReport.GroupByStatus` | backend/check-all-data.js:26-35 | success means every status is one of the four keys, and the table then holds, under each key, the stable filter of the input by that status; failure names the first article whose status is not a key |
| `StatusReport.BucketsExtensional` | backend/check-all-data.js:26-35 | a table with the four keys, each holding its filter of the input, is the bucket table of that input |
| `StatusReport.ReportLines` | backend/check-all-data.js:40-48 | one line per article of a bucket, in bucket order, numbered from 1 |
| `StatusReport.ReportBuckets` | backend/check-all-data.js:37-50 | it reports exactly the non-empty buckets, each once, in the order APPROVED, PENDING, REJECTED, DRAFT, each with its size and its lines |
| `StatusReport.CheckAllArticles` | backend/check-all-data.js:33-53 | an unknown status aborts the report with an error giving the position and status of the first offending article; otherwise the report is that of the bucket table of all articles |
| `StatusReport.BucketUnionLast` | backend/check-all-data.js:33-35 | the last article, when its status is a key, lies in exactly one bucket |
| `StatusReport.BucketsPartition` | backend/check-all-data.js:33-35 | when every status is a key, the four buckets together hold each article exactly as often as the input does |
| `StatusReport.BucketSizesSum` | backend/check-all-data.js:33-35 | ... so the bucket sizes add up to the number of articles |
| `StatusReport.ReportedBucketsNewestFirst` | backend/check-all-data.js:22-35 | every reported bucket of a newest-first article list is itself newest-first |

## Left out

- The embedding service (`backend/services/embeddingService.js`), which holds the tokenizer, vectorizer, similarity scorer and hybrid ranker, is not part of this model. `generateEmbedding` is the parameter `Env.embed`, an opaque function that may fail.
- Database I/O is not modelled, because the scripts only drive a MongoDB client here:
  - connecting and disconnecting (`backend/index-all-articles.js:9, 82`, `backend/check-all-data.js:11, 55`);
  - a failing initial `Article.find` or a failing `countDocuments`, both caught by the outer `try` (`backend/index-all-articles.js:13, 75, 78-84`, `backend/check-all-data.js:22, 52-56`);
  - `populate` and the database-side `sort`. The report takes its input already sorted newest first, and `ReportedBucketsNewestFirst` assumes that order.
- Console output is not modelled: emoji messages, `toLocaleString` formatting, and the header lines with counts. The summary counters and report sections are returned as values instead.
- The user listing of `backend/check-all-data.js:15-19` is only a query followed by printing.
- The error of an unknown status: the script catches a generic `TypeError` from `grouped[article.status].push` (`backend/check-all-data.js:34, 52-53`), which names no article. The model's `UnknownStatus(status, position)` records only where the `forEach` stopped and what status it met there.
- Each `findOne` and `findOneAndUpdate` failure is a fixed per-article predicate (`Faults`). A failure that comes and goes between calls for the same article is not represented.
- `lastUpdated: new Date()` is one clock reading `Env.now` per run. The model does not capture that each article gets its own, later, reading.
- `findOneAndUpdate` is modelled as a replace of the whole entry keyed by article id. Other MongoDB update semantics are out of scope.
- The other files of the repository are drivers or glue around the same database and the embedding service: the search and chatbot test scripts, the article and VPN check scripts, the seed, the login test and the admin dashboard.
