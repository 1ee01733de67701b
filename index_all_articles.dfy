/**
 * The bulk re-index script: walk the approved articles one at a time, skip the
 * ones that already have an ArticleEmbedding entry, embed the others and upsert
 * one entry per article, tallying indexed / skipped / failed.
 */
module ArticleIndexing {
  import opened Wrappers
  import opened Articles

  /** An embedding vector; the vectorizer itself is outside this model. */
  type Vector = seq<real>

  /** Model stamp used when the configuration names none. */
  const DefaultEmbeddingModel: string := "local-tfidf-v2"
  /** Separator between title, excerpt and content. */
  const Separator: string := "\n\n"
  /** Heading placed in front of the extracted PDF text. */
  const PdfHeading: string := "\n\n--- PDF Content ---\n"

  /** One ArticleEmbedding document. */
  datatype Entry = Entry(
    article: ArticleId,
    embedding: Vector,
    textContent: string,
    embeddingModel: string,
    lastUpdated: Timestamp)

  /** The ArticleEmbedding collection, keyed by the owning article. */
  type Table = map<ArticleId, Entry>

  /**
   * What the loop depends on besides the table: the embedder (`None` when it
   * throws), the EMBEDDING_MODEL setting, and the clock reading used for
   * `lastUpdated`.
   */
  datatype Env = Env(embed: string -> Option<Vector>, modelSetting: Option<string>, now: Timestamp)

  /** Which collection calls throw, per article: `findOne` and `findOneAndUpdate`. */
  datatype Faults = Faults(lookupFails: ArticleId -> bool, writeFails: ArticleId -> bool)

  /** Why one article was counted as failed. */
  datatype Failure = LookupError | EmbedError(text: string) | WriteError(text: string)

  /** The tally a processed article lands in. */
  datatype Tally = TIndexed | TSkipped | TFailed

  /** What happened to one article. */
  datatype Outcome = Skipped | Indexed(entry: Entry) | Failed(reason: Failure)
  {
    function Tally(): Tally
    {
      match this
      case Skipped => TSkipped
      case Indexed(_) => TIndexed
      case Failed(_) => TFailed
    }

    /** The text handed to the embedder while processing this article, if any. */
    function EmbeddedText(): Option<string>
    {
      match this
      case Skipped => None
      case Indexed(e) => Some(e.textContent)
      case Failed(LookupError) => None
      case Failed(EmbedError(t)) => Some(t)
      case Failed(WriteError(t)) => Some(t)
    }
  }

  /** The summary the script prints after the loop. */
  datatype Summary = Summary(indexed: nat, skipped: nat, failed: nat, total: nat, totalIndexed: nat)

  /** How many outcomes land in tally `t`. */
  function Count(outs: seq<Outcome>, t: Tally): nat
  {
    if outs == [] then 0
    else Count(outs[..|outs| - 1], t) + (if outs[|outs| - 1].Tally() == t then 1 else 0)
  }

  /** The texts handed to the embedder, in call order. */
  function EmbedCalls(outs: seq<Outcome>): seq<string>
  {
    if outs == [] then []
    else
      var o := outs[|outs| - 1];
      EmbedCalls(outs[..|outs| - 1]) + (if o.EmbeddedText().Some? then [o.EmbeddedText().value] else [])
  }

  /** The indexable text: title, excerpt (or nothing), content, then the PDF text when it is truthy. */
  function IndexableText(a: Article): (text: string)
    ensures |text| == |a.title| + |OrElse(a.excerpt, "")| + |a.content| + 2 * |Separator|
                      + (if Truthy(a.pdfText) then |PdfHeading| + |a.pdfText.value| else 0)
  {
    var text := a.title + Separator + OrElse(a.excerpt, "") + Separator + a.content;
    if Truthy(a.pdfText) then text + PdfHeading + a.pdfText.value else text
  }

  /** `process.env.EMBEDDING_MODEL || 'local-tfidf-v2'`. */
  function ModelStamp(setting: Option<string>): (stamp: string)
    ensures stamp != ""
    ensures Truthy(setting) ==> stamp == setting.value
    ensures !Truthy(setting) ==> stamp == DefaultEmbeddingModel
  {
    OrElse(setting, DefaultEmbeddingModel)
  }

  /** Entry `e` is what the script writes for article `a`: its own text, that text's embedding, the stamp and the clock. */
  ghost predicate WrittenFrom(e: Entry, a: Article, env: Env)
  {
    && e.article == a.id
    && e.textContent == IndexableText(a)
    && env.embed(e.textContent) == Some(e.embedding)
    && e.embeddingModel == ModelStamp(env.modelSetting)
    && e.lastUpdated == env.now
  }

  /** One iteration's decision for article `a` against table `t`. */
  function Attempt(t: Table, a: Article, env: Env, faults: Faults): (o: Outcome)
    ensures o.Skipped? <==> !faults.lookupFails(a.id) && a.id in t
    ensures o.EmbeddedText() == (if !faults.lookupFails(a.id) && a.id !in t then Some(IndexableText(a)) else None)
    ensures o.Indexed? <==>
      !faults.lookupFails(a.id) && a.id !in t && env.embed(IndexableText(a)).Some? && !faults.writeFails(a.id)
    ensures o.Indexed? ==> WrittenFrom(o.entry, a, env)
  {
    if faults.lookupFails(a.id) then Failed(LookupError)
    else if a.id in t then Skipped
    else
      var text := IndexableText(a);
      match env.embed(text)
      case None => Failed(EmbedError(text))
      case Some(v) =>
        if faults.writeFails(a.id) then Failed(WriteError(text))
        else Indexed(Entry(a.id, v, text, ModelStamp(env.modelSetting), env.now))
  }

  /** The table after an iteration with outcome `o`: only an indexed article is written, by upsert on its id. */
  function Apply(t: Table, a: Article, o: Outcome): Table
  {
    if o.Indexed? then t[a.id := o.entry] else t
  }

  /**
   * Because an article with an entry is skipped, the upsert of one iteration
   * only ever inserts a fresh key: it never overwrites an entry, and the table
   * grows by one exactly when the article is indexed.
   */
  lemma ApplyUpserts(t: Table, a: Article, env: Env, faults: Faults)
    ensures var o := Attempt(t, a, env, faults);
            var t' := Apply(t, a, o);
            && (o.Indexed? ==> a.id !in t)
            && (forall id :: id in t ==> id in t' && t'[id] == t[id])
            && t'.Keys == t.Keys + (if o.Indexed? then {a.id} else {})
            && |t'| == |t| + (if o.Indexed? then 1 else 0)
  {
  }

  /** The table and the per-article outcomes after the loop has run over `arts`. */
  datatype State = State(table: Table, outcomes: seq<Outcome>)

  /** The loop over `arts`, starting from table `t0`, as a function of its prefix. */
  function Run(t0: Table, arts: seq<Article>, env: Env, faults: Faults): (s: State)
    ensures |s.outcomes| == |arts|
  {
    if arts == [] then State(t0, [])
    else
      var prev := Run(t0, arts[..|arts| - 1], env, faults);
      var a := arts[|arts| - 1];
      var o := Attempt(prev.table, a, env, faults);
      State(Apply(prev.table, a, o), prev.outcomes + [o])
  }

  /** One more article: the loop's state after `arts[..i + 1]` in terms of the state after `arts[..i]`. */
  lemma RunStep(t0: Table, arts: seq<Article>, env: Env, faults: Faults, i: nat)
    requires i < |arts|
    ensures var prev := Run(t0, arts[..i], env, faults);
            var o := Attempt(prev.table, arts[i], env, faults);
            var next := Run(t0, arts[..i + 1], env, faults);
            && next.table == Apply(prev.table, arts[i], o)
            && next.outcomes == prev.outcomes + [o]
            && (forall t :: Count(next.outcomes, t) == Count(prev.outcomes, t) + (if o.Tally() == t then 1 else 0))
            && EmbedCalls(next.outcomes)
               == EmbedCalls(prev.outcomes) + (if o.EmbeddedText().Some? then [o.EmbeddedText().value] else [])
  {
    assert arts[..i + 1][..i] == arts[..i];
    var next := Run(t0, arts[..i + 1], env, faults);
    assert next.outcomes[..|next.outcomes| - 1] == Run(t0, arts[..i], env, faults).outcomes;
  }

  /** All of an article's entries were derived from the text stored beside them. */
  ghost predicate Consistent(t: Table, env: Env)
  {
    forall id :: id in t ==> t[id].article == id && env.embed(t[id].textContent) == Some(t[id].embedding)
  }

  /** The ArticleEmbedding collection, updated in place; `faults` says which calls throw. */
  datatype StoreError = LookupFailed | WriteFailed

  class EmbeddingCollection {
    var entries: Table
    const faults: Faults

    /** Every entry is stored under the id of the article it belongs to, as a query by `article` finds it. */
    ghost predicate Valid()
      reads this
    {
      forall id :: id in entries ==> entries[id].article == id
    }

    constructor (initial: Table, faults: Faults)
      requires forall id :: id in initial ==> initial[id].article == id
      ensures entries == initial && this.faults == faults
      ensures Valid()
    {
      entries := initial;
      this.faults := faults;
    }

    /** `findOne({ article: id })`: the entry owned by `id`, or none. */
    method FindOne(id: ArticleId) returns (r: Result<Option<Entry>, StoreError>)
      ensures r.Failure? <==> faults.lookupFails(id)
      ensures r.Success? ==> (r.value.Some? <==> id in entries)
      ensures r.Success? && r.value.Some? ==> r.value.value == entries[id]
    {
      if faults.lookupFails(id) {
        return Failure(LookupFailed);
      }
      if id in entries {
        return Success(Some(entries[id]));
      }
      return Success(None);
    }

    /** `findOneAndUpdate({ article: id }, doc, { upsert: true, new: true })`. */
    method FindOneAndUpdate(id: ArticleId, doc: Entry) returns (r: Result<Entry, StoreError>)
      requires doc.article == id
      modifies this
      ensures old(Valid()) ==> Valid()
      ensures r.Success? <==> !faults.writeFails(id)
      ensures r.Success? ==> r.value == doc && entries == old(entries)[id := doc]
      ensures r.Failure? ==> entries == old(entries)
    {
      if faults.writeFails(id) {
        return Failure(WriteFailed);
      }
      entries := entries[id := doc];
      return Success(doc);
    }
  }

  /**
   * The body of the loop (the `try` block) for one article: skip it when an
   * entry exists, otherwise embed its indexable text and upsert the entry.
   * `embedded` is the text passed to the embedder, if it was called.
   */
  method IndexOne(db: EmbeddingCollection, article: Article, env: Env)
    returns (o: Outcome, ghost embedded: Option<string>)
    modifies db
    ensures o == Attempt(old(db.entries), article, env, db.faults)
    ensures db.entries == Apply(old(db.entries), article, o)
    ensures embedded == o.EmbeddedText()
    ensures old(db.Valid()) ==> db.Valid()
  {
    var existing := db.FindOne(article.id);
    if existing.Failure? {
      return Failed(LookupError), None;
    }
    if existing.value.Some? {
      return Skipped, None;
    }
    var textToEmbed := article.title + Separator + OrElse(article.excerpt, "") + Separator + article.content;
    if Truthy(article.pdfText) {
      textToEmbed := textToEmbed + PdfHeading + article.pdfText.value;
    }
    assert textToEmbed == IndexableText(article);
    embedded := Some(textToEmbed);
    var embedding := env.embed(textToEmbed);
    if embedding.None? {
      return Failed(EmbedError(textToEmbed)), embedded;
    }
    var doc := Entry(article.id, embedding.value, textToEmbed, ModelStamp(env.modelSetting), env.now);
    var saved := db.FindOneAndUpdate(article.id, doc);
    if saved.Failure? {
      return Failed(WriteError(textToEmbed)), embedded;
    }
    return Indexed(doc), embedded;
  }

  /**
   * `indexAllArticles`: with no approved article it returns at once; otherwise
   * it processes every approved article in order, and the collection and the
   * counters end as Run says. `embedded` logs every text passed to the embedder.
   */
  method IndexAllArticles(store: seq<Article>, db: EmbeddingCollection, env: Env)
    returns (summary: Option<Summary>, ghost embedded: seq<string>)
    modifies db
    ensures var approved := WithStatus(store, Approved);
            approved == [] ==> summary == None && db.entries == old(db.entries) && embedded == []
    ensures var approved := WithStatus(store, Approved);
            var s := Run(old(db.entries), approved, env, db.faults);
            approved != [] ==>
              && db.entries == s.table
              && embedded == EmbedCalls(s.outcomes)
              && summary == Some(Summary(Count(s.outcomes, TIndexed), Count(s.outcomes, TSkipped),
                                         Count(s.outcomes, TFailed), |approved|, |s.table|))
  {
    var articles := WithStatus(store, Approved);
    embedded := [];
    if |articles| == 0 {
      return None, embedded;
    }
    var indexed, skipped, failed := 0, 0, 0;
    ghost var t0 := db.entries;
    for i := 0 to |articles|
      invariant db.entries == Run(t0, articles[..i], env, db.faults).table
      invariant indexed == Count(Run(t0, articles[..i], env, db.faults).outcomes, TIndexed)
      invariant skipped == Count(Run(t0, articles[..i], env, db.faults).outcomes, TSkipped)
      invariant failed == Count(Run(t0, articles[..i], env, db.faults).outcomes, TFailed)
      invariant embedded == EmbedCalls(Run(t0, articles[..i], env, db.faults).outcomes)
    {
      ghost var prev := Run(t0, articles[..i], env, db.faults);
      ghost var next := Run(t0, articles[..i + 1], env, db.faults);
      RunStep(t0, articles, env, db.faults, i);
      var outcome, text := IndexOne(db, articles[i], env);
      assert next.outcomes == prev.outcomes + [outcome];
      if text.Some? {
        embedded := embedded + [text.value];
      }
      match outcome
      case Skipped => skipped := skipped + 1;
      case Indexed(_) => indexed := indexed + 1;
      case Failed(_) => failed := failed + 1;
      assert indexed == Count(next.outcomes, TIndexed) && skipped == Count(next.outcomes, TSkipped)
             && failed == Count(next.outcomes, TFailed);
    }
    assert articles[..|articles|] == articles;
    summary := Some(Summary(indexed, skipped, failed, |articles|, |db.entries|));
  }
}
