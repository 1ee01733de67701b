/**
 * The data-check script's article report: articles (newest first) are pushed
 * into a table of four status buckets, and the non-empty buckets are then
 * reported in the table's key order with one line per article.
 */
module StatusReport {
  import opened Wrappers
  import opened Articles

  /** The keys of the `grouped` table, in insertion order (which is also `Object.keys` order). */
  const BucketOrder: seq<string> := [Approved, Pending, Rejected, Draft]

  /** One of the four keys of the table. */
  predicate KnownStatus(status: string)
  {
    status == Approved || status == Pending || status == Rejected || status == Draft
  }

  /** A status that is not a key of the table: reading `.push` of the missing bucket throws. */
  datatype GroupError = UnknownStatus(status: string, position: nat)

  /** One reported article. */
  datatype ArticleLine = ArticleLine(
    number: nat,
    title: string,
    authorName: string,
    authorEmail: string,
    created: Timestamp,
    rejection: Option<string>)

  /** One reported bucket: its status, its size and its lines. */
  datatype Section = Section(status: string, count: nat, lines: seq<ArticleLine>)

  /** The position of a known status in the report order. */
  function Rank(status: string): (r: nat)
    requires KnownStatus(status)
    ensures r < |BucketOrder| && BucketOrder[r] == status
  {
    if status == Approved then 0
    else if status == Pending then 1
    else if status == Rejected then 2
    else 3
  }

  /** The four buckets the table should end with: each the stable filter of the input by that status. */
  function Buckets(arts: seq<Article>): (grouped: map<string, seq<Article>>)
    ensures GroupedAs(grouped, arts)
  {
    map[Approved := WithStatus(arts, Approved), Pending := WithStatus(arts, Pending),
        Rejected := WithStatus(arts, Rejected), Draft := WithStatus(arts, Draft)]
  }

  /** The line printed for the article at (0-based) place `idx` of its bucket. */
  function LineFor(a: Article, idx: nat): (l: ArticleLine)
    ensures l.number == idx + 1 && l.title == a.title && l.created == a.createdAt
    ensures l.authorName == if a.author.Some? && Truthy(a.author.value.username)
                            then a.author.value.username.value else "Unknown"
    ensures l.authorEmail == if a.author.Some? && Truthy(a.author.value.email)
                             then a.author.value.email.value else "N/A"
    ensures l.rejection.Some? <==> Truthy(a.rejectionReason)
    ensures l.rejection.Some? ==> l.rejection == a.rejectionReason
  {
    var name := if a.author.Some? then a.author.value.username else None;
    var email := if a.author.Some? then a.author.value.email else None;
    ArticleLine(idx + 1, a.title, OrElse(name, "Unknown"), OrElse(email, "N/A"), a.createdAt,
                if Truthy(a.rejectionReason) then a.rejectionReason else None)
  }

  /** `sec` reports a non-empty bucket of `grouped`: its size and one line per article, in bucket order. */
  ghost predicate ReportsBucket(sec: Section, grouped: map<string, seq<Article>>)
  {
    && KnownStatus(sec.status)
    && sec.status in grouped
    && grouped[sec.status] != []
    && sec.count == |grouped[sec.status]|
    && |sec.lines| == sec.count
    && forall k :: 0 <= k < |sec.lines| ==> sec.lines[k] == LineFor(grouped[sec.status][k], k)
  }

  /** The report of `grouped`: exactly its non-empty buckets, each once, in bucket order. */
  ghost predicate IsReportOf(sections: seq<Section>, grouped: map<string, seq<Article>>)
  {
    && (forall i :: 0 <= i < |sections| ==> ReportsBucket(sections[i], grouped))
    && (forall i, j :: 0 <= i < j < |sections| ==>
          KnownStatus(sections[i].status) && KnownStatus(sections[j].status) &&
          Rank(sections[i].status) < Rank(sections[j].status))
    && (forall m :: 0 <= m < |BucketOrder| && BucketOrder[m] in grouped && grouped[BucketOrder[m]] != [] ==>
          exists i :: 0 <= i < |sections| && sections[i].status == BucketOrder[m])
  }

  /**
   * The `forEach` that pushes each article onto the bucket named by its status.
   * The first article with a status outside the table aborts the grouping.
   */
  method GroupByStatus(articles: seq<Article>) returns (r: Result<map<string, seq<Article>>, GroupError>)
    ensures r.Success? ==> KnownBefore(articles, |articles|)
    ensures r.Failure? ==>
              && r.error.position < |articles|
              && articles[r.error.position].status == r.error.status
              && !KnownStatus(r.error.status)
              && KnownBefore(articles, r.error.position)
    ensures r.Success? ==> r.value == Buckets(articles)
  {
    var grouped: map<string, seq<Article>> := map[Approved := [], Pending := [], Rejected := [], Draft := []];
    for i := 0 to |articles|
      invariant GroupedAs(grouped, articles[..i])
      invariant KnownBefore(articles, i)
    {
      var article := articles[i];
      GroupedKeys(grouped, articles[..i], article.status);
      if article.status !in grouped {
        return Failure(UnknownStatus(article.status, i));
      }
      PushKeepsBuckets(grouped, articles, i);
      grouped := grouped[article.status := grouped[article.status] + [article]];
    }
    assert articles[..|articles|] == articles;
    BucketsExtensional(grouped, articles);
    return Success(grouped);
  }

  /** Every article before position `n` has one of the four statuses. */
  ghost predicate KnownBefore(articles: seq<Article>, n: nat)
  {
    forall j :: 0 <= j < n && j < |articles| ==> KnownStatus(articles[j].status)
  }

  /** The table has exactly the four keys, and each bucket is the filter of `arts` by its key. */
  ghost predicate GroupedAs(grouped: map<string, seq<Article>>, arts: seq<Article>)
  {
    && grouped.Keys == {Approved, Pending, Rejected, Draft}
    && forall s :: s in grouped ==> grouped[s] == WithStatus(arts, s)
  }

  /** The table's keys are exactly the known statuses. */
  lemma GroupedKeys(grouped: map<string, seq<Article>>, arts: seq<Article>, status: string)
    requires GroupedAs(grouped, arts)
    ensures status in grouped <==> KnownStatus(status)
  {
  }

  /** Pushing the next article onto its bucket keeps every bucket the filter of the prefix read so far. */
  lemma PushKeepsBuckets(grouped: map<string, seq<Article>>, articles: seq<Article>, i: nat)
    requires i < |articles| && articles[i].status in grouped
    requires GroupedAs(grouped, articles[..i])
    ensures var a := articles[i];
            GroupedAs(grouped[a.status := grouped[a.status] + [a]], articles[..i + 1])
  {
    var a := articles[i];
    var pushed := grouped[a.status := grouped[a.status] + [a]];
    assert pushed.Keys == grouped.Keys;
    forall s | s in pushed
      ensures pushed[s] == WithStatus(articles[..i + 1], s)
    {
      WithStatusSnoc(articles, i, s);
    }
  }

  /** A table with the four keys, each holding its filter of `arts`, is Buckets(arts). */
  lemma BucketsExtensional(grouped: map<string, seq<Article>>, arts: seq<Article>)
    requires GroupedAs(grouped, arts)
    ensures grouped == Buckets(arts)
  {
    var expected := Buckets(arts);
    assert grouped.Keys == expected.Keys;
  }

  /**
   * After the first `j` keys of the table: the sections report exactly the
   * non-empty buckets among those keys, each once, in key order.
   */
  ghost predicate ReportedUpTo(sections: seq<Section>, grouped: map<string, seq<Article>>, j: nat)
  {
    && (forall i :: 0 <= i < |sections| ==> ReportsBucket(sections[i], grouped))
    && (forall i :: 0 <= i < |sections| ==> Rank(sections[i].status) < j)
    && (forall i, i' :: 0 <= i < i' < |sections| ==> Rank(sections[i].status) < Rank(sections[i'].status))
    && (forall m :: 0 <= m < j && m < |BucketOrder| && BucketOrder[m] in grouped && grouped[BucketOrder[m]] != [] ==>
          exists i :: 0 <= i < |sections| && sections[i].status == BucketOrder[m])
  }

  /** An empty bucket at the `j`-th key is passed over: the report so far covers one more key. */
  lemma ReportSkip(sections: seq<Section>, grouped: map<string, seq<Article>>, j: nat)
    requires j < |BucketOrder| && BucketOrder[j] in grouped && grouped[BucketOrder[j]] == []
    requires ReportedUpTo(sections, grouped, j)
    ensures ReportedUpTo(sections, grouped, j + 1)
  {
  }

  /** Reporting the non-empty bucket at the `j`-th key extends the report by one key. */
  lemma ReportAppend(sections: seq<Section>, grouped: map<string, seq<Article>>, j: nat, lines: seq<ArticleLine>)
    requires j < |BucketOrder| && BucketOrder[j] in grouped && grouped[BucketOrder[j]] != []
    requires ReportedUpTo(sections, grouped, j)
    requires |lines| == |grouped[BucketOrder[j]]|
    requires forall m :: 0 <= m < |lines| ==> lines[m] == LineFor(grouped[BucketOrder[j]][m], m)
    ensures ReportedUpTo(sections + [Section(BucketOrder[j], |grouped[BucketOrder[j]]|, lines)], grouped, j + 1)
  {
    var status := BucketOrder[j];
    var next := sections + [Section(status, |grouped[status]|, lines)];
    assert Rank(status) == j;
    assert next[..|sections|] == sections;
    SectionReportsBucket(status, grouped, lines);
    assert next[|sections|] == Section(status, |grouped[status]|, lines);
    forall i | 0 <= i < |next|
      ensures ReportsBucket(next[i], grouped) && Rank(next[i].status) < j + 1
    {
      if i < |sections| {
        assert next[i] == sections[i];
      }
    }
    forall i, i' | 0 <= i < i' < |next|
      ensures Rank(next[i].status) < Rank(next[i'].status)
    {
      assert next[i] == sections[i];
      if i' < |sections| {
        assert next[i'] == sections[i'];
      }
    }
    AppendCovers(sections, grouped, j, next);
  }

  /** A section with a non-empty bucket's size and one line per article of that bucket reports that bucket. */
  lemma SectionReportsBucket(status: string, grouped: map<string, seq<Article>>, lines: seq<ArticleLine>)
    requires KnownStatus(status) && status in grouped && grouped[status] != []
    requires |lines| == |grouped[status]|
    requires forall m :: 0 <= m < |lines| ==> lines[m] == LineFor(grouped[status][m], m)
    ensures ReportsBucket(Section(status, |grouped[status]|, lines), grouped)
  {
  }

  /** After appending the `j`-th key's section, every non-empty bucket up to that key has a section. */
  lemma AppendCovers(sections: seq<Section>, grouped: map<string, seq<Article>>, j: nat, next: seq<Section>)
    requires j < |BucketOrder|
    requires forall m :: 0 <= m < j && m < |BucketOrder| && BucketOrder[m] in grouped && grouped[BucketOrder[m]] != [] ==>
               exists i :: 0 <= i < |sections| && sections[i].status == BucketOrder[m]
    requires |next| == |sections| + 1 && next[..|sections|] == sections && next[|sections|].status == BucketOrder[j]
    ensures forall m :: 0 <= m < j + 1 && m < |BucketOrder| && BucketOrder[m] in grouped && grouped[BucketOrder[m]] != [] ==>
              exists i :: 0 <= i < |next| && next[i].status == BucketOrder[m]
  {
    forall m | 0 <= m < j + 1 && m < |BucketOrder| && BucketOrder[m] in grouped && grouped[BucketOrder[m]] != []
      ensures exists i :: 0 <= i < |next| && next[i].status == BucketOrder[m]
    {
      if m < j {
        var i :| 0 <= i < |sections| && sections[i].status == BucketOrder[m];
        assert next[i] == sections[i];
      } else {
        assert next[|sections|].status == BucketOrder[m];
      }
    }
  }

  /** What is reported after all four keys is the report of the table. */
  lemma ReportedAll(sections: seq<Section>, grouped: map<string, seq<Article>>)
    requires ReportedUpTo(sections, grouped, |BucketOrder|)
    ensures IsReportOf(sections, grouped)
  {
  }

  /** The nested `forEach` over the table's keys and each non-empty bucket. */
  method ReportBuckets(grouped: map<string, seq<Article>>) returns (sections: seq<Section>)
    requires {Approved, Pending, Rejected, Draft} <= grouped.Keys
    ensures IsReportOf(sections, grouped)
  {
    sections := [];
    for j := 0 to |BucketOrder|
      invariant ReportedUpTo(sections, grouped, j)
    {
      var status := BucketOrder[j];
      var bucket := grouped[status];
      if |bucket| > 0 {
        var lines := ReportLines(bucket);
        ReportAppend(sections, grouped, j, lines);
        sections := sections + [Section(status, |bucket|, lines)];
      } else {
        ReportSkip(sections, grouped, j);
      }
    }
    ReportedAll(sections, grouped);
  }

  /** The inner `forEach`: one line per article of a bucket, numbered from 1, in bucket order. */
  method ReportLines(bucket: seq<Article>) returns (lines: seq<ArticleLine>)
    ensures |lines| == |bucket|
    ensures forall m :: 0 <= m < |bucket| ==> lines[m] == LineFor(bucket[m], m)
  {
    lines := [];
    for k := 0 to |bucket|
      invariant |lines| == k
      invariant forall m :: 0 <= m < k ==> lines[m] == LineFor(bucket[m], m)
    {
      lines := lines + [LineFor(bucket[k], k)];
    }
  }

  /**
   * `checkAllData`'s article part: group, then report. An unknown status is
   * the caught error, and nothing of the buckets is reported.
   */
  method CheckAllArticles(allArticles: seq<Article>) returns (r: Result<seq<Section>, GroupError>)
    ensures r.Success? ==> KnownBefore(allArticles, |allArticles|)
    ensures r.Failure? ==>
              && r.error.position < |allArticles|
              && allArticles[r.error.position].status == r.error.status
              && !KnownStatus(r.error.status)
              && KnownBefore(allArticles, r.error.position)
    ensures r.Success? ==> IsReportOf(r.value, Buckets(allArticles))
  {
    var grouped := GroupByStatus(allArticles);
    if grouped.Failure? {
      return Failure(grouped.error);
    }
    var sections := ReportBuckets(grouped.value);
    return Success(sections);
  }

  /** The last article, when its status is known, is in exactly one bucket: the union grows by it alone. */
  lemma BucketUnionLast(arts: seq<Article>)
    requires arts != [] && KnownStatus(arts[|arts| - 1].status)
    ensures BucketUnion(arts) == BucketUnion(arts[..|arts| - 1]) + multiset{arts[|arts| - 1]}
  {
  }

  /**
   * When every status is one of the four keys, the buckets partition the input:
   * together they hold every article exactly as often as the input does.
   */
  lemma {:induction false} BucketsPartition(arts: seq<Article>)
    requires forall i :: 0 <= i < |arts| ==> KnownStatus(arts[i].status)
    ensures BucketUnion(arts) == multiset(arts)
  {
    if arts != [] {
      var n := |arts| - 1;
      var init := arts[..n];
      KnownPrefix(arts, init);
      BucketsPartition(init);
      BucketUnionLast(arts);
      MultisetSnoc(arts);
    }
  }

  /** Every status of a prefix is known when every status of the whole list is. */
  lemma KnownPrefix(arts: seq<Article>, init: seq<Article>)
    requires |init| <= |arts| && init == arts[..|init|]
    requires forall i :: 0 <= i < |arts| ==> KnownStatus(arts[i].status)
    ensures forall i :: 0 <= i < |init| ==> KnownStatus(init[i].status)
  {
  }

  /** Dropping the last element of a sequence drops exactly that element from its multiset. */
  lemma MultisetSnoc(arts: seq<Article>)
    requires arts != []
    ensures multiset(arts) == multiset(arts[..|arts| - 1]) + multiset{arts[|arts| - 1]}
  {
    assert arts == arts[..|arts| - 1] + [arts[|arts| - 1]];
  }

  /** ... so the bucket sizes add up to the number of articles. */
  lemma BucketSizesSum(arts: seq<Article>)
    requires forall i :: 0 <= i < |arts| ==> KnownStatus(arts[i].status)
    ensures |WithStatus(arts, Approved)| + |WithStatus(arts, Pending)|
            + |WithStatus(arts, Rejected)| + |WithStatus(arts, Draft)| == |arts|
  {
    BucketsPartition(arts);
    assert |BucketUnion(arts)| == |multiset(arts)|;
  }

  /** All four buckets together, as a multiset of articles. */
  ghost function BucketUnion(arts: seq<Article>): multiset<Article>
  {
    multiset(WithStatus(arts, Approved)) + multiset(WithStatus(arts, Pending))
      + multiset(WithStatus(arts, Rejected)) + multiset(WithStatus(arts, Draft))
  }

  /** Each reported bucket keeps the input's newest-first order. */
  lemma ReportedBucketsNewestFirst(allArticles: seq<Article>, sections: seq<Section>, i: nat)
    requires NewestFirst(allArticles)
    requires IsReportOf(sections, Buckets(allArticles))
    requires i < |sections|
    ensures NewestFirst(Buckets(allArticles)[sections[i].status])
  {
    WithStatusKeepsNewestFirst(allArticles, sections[i].status);
  }
}
