/** What the bulk re-index loop guarantees, stated over its specification Run. */
module IndexingProperties {
  import opened Wrappers
  import opened Articles
  import opened ArticleIndexing

  /** No two articles of the list share an id (true of the documents a query returns). */
  ghost predicate DistinctIds(arts: seq<Article>)
  {
    forall i, j :: 0 <= i < j < |arts| ==> arts[i].id != arts[j].id
  }

  /** Every outcome lands in exactly one of the three tallies. */
  lemma {:induction false} TalliesPartition(outs: seq<Outcome>)
    ensures Count(outs, TIndexed) + Count(outs, TSkipped) + Count(outs, TFailed) == |outs|
  {
    if outs != [] {
      TalliesPartition(outs[..|outs| - 1]);
    }
  }

  /** indexed + skipped + failed is the number of articles processed: each is counted once. */
  lemma RunTalliesPartition(t0: Table, arts: seq<Article>, env: Env, faults: Faults)
    ensures var s := Run(t0, arts, env, faults);
            Count(s.outcomes, TIndexed) + Count(s.outcomes, TSkipped) + Count(s.outcomes, TFailed) == |arts|
  {
    TalliesPartition(Run(t0, arts, env, faults).outcomes);
  }

  /** Running over `xs + ys` is running over `xs`, then over `ys` from the table `xs` left. */
  lemma {:induction false} RunAppend(t0: Table, xs: seq<Article>, ys: seq<Article>, env: Env, faults: Faults)
    ensures var first := Run(t0, xs, env, faults);
            var second := Run(first.table, ys, env, faults);
            Run(t0, xs + ys, env, faults) == State(second.table, first.outcomes + second.outcomes)
  {
    if ys == [] {
      assert xs + ys == xs;
    } else {
      var ys0 := ys[..|ys| - 1];
      RunAppend(t0, xs, ys0, env, faults);
      assert (xs + ys)[..|xs + ys| - 1] == xs + ys0;
      assert (xs + ys)[|xs + ys| - 1] == ys[|ys| - 1];
      var first := Run(t0, xs, env, faults);
      assert (first.outcomes + Run(first.table, ys0, env, faults).outcomes)
               + [Attempt(Run(first.table, ys0, env, faults).table, ys[|ys| - 1], env, faults)]
             == first.outcomes + Run(first.table, ys, env, faults).outcomes;
    }
  }

  /** The k-th article is decided against the table left by the articles before it. */
  lemma RunOutcomeAt(t0: Table, arts: seq<Article>, env: Env, faults: Faults, k: nat)
    requires k < |arts|
    ensures Run(t0, arts, env, faults).outcomes[k] == Attempt(Run(t0, arts[..k], env, faults).table, arts[k], env, faults)
    ensures Run(t0, arts, env, faults).outcomes[..k] == Run(t0, arts[..k], env, faults).outcomes
  {
    var prev := Run(t0, arts[..k], env, faults);
    var first := Run(t0, arts[..k + 1], env, faults);
    var second := Run(first.table, arts[k + 1..], env, faults);
    RunStep(t0, arts, env, faults, k);
    RunAppend(t0, arts[..k + 1], arts[k + 1..], env, faults);
    assert arts[..k + 1] + arts[k + 1..] == arts;
    var all := first.outcomes + second.outcomes;
    assert Run(t0, arts, env, faults).outcomes == all;
    assert first.outcomes == prev.outcomes + [Attempt(prev.table, arts[k], env, faults)];
    assert all[..k] == prev.outcomes;
  }

  /** Entries that exist before the loop are still there afterwards, unchanged. */
  lemma {:induction false} RunKeepsExisting(t0: Table, arts: seq<Article>, env: Env, faults: Faults)
    ensures var t := Run(t0, arts, env, faults).table;
            forall id :: id in t0 ==> id in t && t[id] == t0[id]
  {
    if arts != [] {
      RunKeepsExisting(t0, arts[..|arts| - 1], env, faults);
    }
  }

  /** The table after a prefix of the list is contained, entry for entry, in the final table. */
  lemma PrefixTableKept(t0: Table, arts: seq<Article>, env: Env, faults: Faults, j: nat)
    requires j <= |arts|
    ensures var mid := Run(t0, arts[..j], env, faults).table;
            var t := Run(t0, arts, env, faults).table;
            forall id :: id in mid ==> id in t && t[id] == mid[id]
  {
    RunAppend(t0, arts[..j], arts[j..], env, faults);
    assert arts[..j] + arts[j..] == arts;
    RunKeepsExisting(Run(t0, arts[..j], env, faults).table, arts[j..], env, faults);
  }

  /** An id has an entry after the loop iff it had one before or an article with that id was indexed. */
  lemma RunKeys(t0: Table, arts: seq<Article>, env: Env, faults: Faults, id: ArticleId)
    ensures var s := Run(t0, arts, env, faults);
            id in s.table <==> id in t0 || exists k :: 0 <= k < |arts| && arts[k].id == id && s.outcomes[k].Indexed?
  {
    var s := Run(t0, arts, env, faults);
    if id in s.table && id !in t0 {
      var k := NewKeyWitness(t0, arts, env, faults, id);
    }
    RunKeepsExisting(t0, arts, env, faults);
    forall k | 0 <= k < |arts| && arts[k].id == id && s.outcomes[k].Indexed?
      ensures id in s.table
    {
      IndexedKeyKept(t0, arts, env, faults, k);
    }
  }

  /** An entry the loop created belongs to an indexed article with that id: returns its position. */
  lemma {:induction false} NewKeyWitness(t0: Table, arts: seq<Article>, env: Env, faults: Faults, id: ArticleId)
      returns (k: nat)
    requires id in Run(t0, arts, env, faults).table && id !in t0
    ensures k < |arts| && arts[k].id == id && Run(t0, arts, env, faults).outcomes[k].Indexed?
  {
    var n := |arts| - 1;
    var init := arts[..n];
    var prev := Run(t0, init, env, faults);
    RunStep(t0, arts, env, faults, n);
    assert arts[..n + 1] == arts;
    var o := Attempt(prev.table, arts[n], env, faults);
    if id in prev.table {
      k := NewKeyWitness(t0, init, env, faults, id);
      assert Run(t0, arts, env, faults).outcomes[k] == prev.outcomes[k];
    } else {
      k := n;
    }
  }

  /** The id of an indexed article has an entry at the end of the loop. */
  lemma IndexedKeyKept(t0: Table, arts: seq<Article>, env: Env, faults: Faults, k: nat)
    requires k < |arts| && Run(t0, arts, env, faults).outcomes[k].Indexed?
    ensures arts[k].id in Run(t0, arts, env, faults).table
  {
    RunOutcomeAt(t0, arts, env, faults, k);
    RunStep(t0, arts, env, faults, k);
    PrefixTableKept(t0, arts, env, faults, k + 1);
  }

  /** Upsert by id: every indexed article adds exactly one entry, so the table grows by the indexed count. */
  lemma {:induction false} RunSize(t0: Table, arts: seq<Article>, env: Env, faults: Faults)
    ensures var s := Run(t0, arts, env, faults);
            |s.table| == |t0| + Count(s.outcomes, TIndexed)
  {
    if arts != [] {
      var n := |arts| - 1;
      RunSize(t0, arts[..n], env, faults);
      var s := Run(t0, arts, env, faults);
      assert s.outcomes[..n] == Run(t0, arts[..n], env, faults).outcomes;
    }
  }

  /**
   * Every entry the loop creates belongs to an article of the list that was
   * indexed, and was written from that article: its own indexable text, the
   * embedding of exactly that text, the model stamp and the clock.
   */
  lemma {:induction false} RunWritesFromArticles(t0: Table, arts: seq<Article>, env: Env, faults: Faults, id: ArticleId)
    ensures var s := Run(t0, arts, env, faults);
            id in s.table && id !in t0 ==>
              exists k :: 0 <= k < |arts| && arts[k].id == id && s.outcomes[k] == Indexed(s.table[id])
                          && WrittenFrom(s.table[id], arts[k], env)
  {
    if arts != [] {
      var n := |arts| - 1;
      var init := arts[..n];
      RunWritesFromArticles(t0, init, env, faults, id);
      var prev := Run(t0, init, env, faults);
      var s := Run(t0, arts, env, faults);
      var o := Attempt(prev.table, arts[n], env, faults);
      assert s.outcomes == prev.outcomes + [o];
      if id in s.table && id !in t0 {
        if id in prev.table {
          var k :| 0 <= k < n && init[k].id == id && prev.outcomes[k] == Indexed(prev.table[id])
                   && WrittenFrom(prev.table[id], init[k], env);
          if o.Indexed? {
            assert arts[n].id != id;
          }
          assert arts[k] == init[k] && s.outcomes[k] == prev.outcomes[k];
        } else {
          assert arts[n].id == id && s.outcomes[n] == Indexed(s.table[id]);
        }
      }
    }
  }

  /** The loop keeps the collection consistent: each entry's vector is the embedding of its stored text. */
  lemma {:induction false} RunKeepsConsistent(t0: Table, arts: seq<Article>, env: Env, faults: Faults)
    requires Consistent(t0, env)
    ensures Consistent(Run(t0, arts, env, faults).table, env)
  {
    if arts != [] {
      RunKeepsConsistent(t0, arts[..|arts| - 1], env, faults);
    }
  }

  /**
   * An article counted as failed writes nothing; an article counted as skipped
   * had an entry, is not embedded, and its entry is the one left at the end.
   */
  lemma FailedAndSkippedWriteNothing(t0: Table, arts: seq<Article>, env: Env, faults: Faults, k: nat)
    requires k < |arts|
    ensures var s := Run(t0, arts, env, faults);
            var before := Run(t0, arts[..k], env, faults).table;
            var after := Run(t0, arts[..k + 1], env, faults).table;
            && (s.outcomes[k].Failed? ==> after == before)
            && (s.outcomes[k].Skipped? ==>
                  && arts[k].id in before && after == before
                  && s.outcomes[k].EmbeddedText() == None
                  && arts[k].id in s.table
                  && s.table[arts[k].id] == before[arts[k].id])
  {
    RunOutcomeAt(t0, arts, env, faults, k);
    RunStep(t0, arts, env, faults, k);
    PrefixTableKept(t0, arts, env, faults, k);
  }

  /** Ids that no article of the list carries keep exactly the entry (or absence) they had. */
  lemma RunLeavesUnlisted(t0: Table, arts: seq<Article>, env: Env, faults: Faults, id: ArticleId)
    requires forall k :: 0 <= k < |arts| ==> arts[k].id != id
    ensures var t := Run(t0, arts, env, faults).table;
            (id in t <==> id in t0) && (id in t0 ==> t[id] == t0[id])
  {
    RunKeys(t0, arts, env, faults, id);
    RunKeepsExisting(t0, arts, env, faults);
  }

  /** Re-running over a prefix after a full run leaves the table alone and indexes nothing. */
  lemma {:induction false} RerunPrefix(t0: Table, arts: seq<Article>, env: Env, faults: Faults, j: nat)
    requires j <= |arts|
    ensures var t1 := Run(t0, arts, env, faults).table;
            var s2 := Run(t1, arts[..j], env, faults);
            s2.table == t1 && Count(s2.outcomes, TIndexed) == 0
  {
    if j > 0 {
      RerunPrefix(t0, arts, env, faults, j - 1);
      RunStep(Run(t0, arts, env, faults).table, arts, env, faults, j - 1);
      RerunNotIndexed(t0, arts, env, faults, j - 1);
    }
  }

  /** After a full run, every listed article is found in the table, so a second attempt never indexes it. */
  lemma RerunNotIndexed(t0: Table, arts: seq<Article>, env: Env, faults: Faults, k: nat)
    requires k < |arts|
    ensures !Attempt(Run(t0, arts, env, faults).table, arts[k], env, faults).Indexed?
  {
    var t1 := Run(t0, arts, env, faults).table;
    var a := arts[k];
    var tk := Run(t0, arts[..k], env, faults).table;
    PrefixTableKept(t0, arts, env, faults, k);
    RunStep(t0, arts, env, faults, k);
    PrefixTableKept(t0, arts, env, faults, k + 1);
    assert a.id !in t1 ==> a.id !in tk;
    assert Attempt(tk, a, env, faults).Indexed? ==> a.id in t1;
  }

  /** Idempotence: a second run over the same list indexes nothing and leaves the collection as the first run left it. */
  lemma RerunIndexesNothing(t0: Table, arts: seq<Article>, env: Env, faults: Faults)
    ensures var s1 := Run(t0, arts, env, faults);
            var s2 := Run(s1.table, arts, env, faults);
            s2.table == s1.table && Count(s2.outcomes, TIndexed) == 0
  {
    RerunPrefix(t0, arts, env, faults, |arts|);
    assert arts[..|arts|] == arts;
  }

  /**
   * With distinct ids, the second run skips every article the first run indexed
   * or skipped, and fails every article the first run failed, for the same reason.
   */
  lemma RerunOutcomes(t0: Table, arts: seq<Article>, env: Env, faults: Faults, k: nat)
    requires DistinctIds(arts)
    requires k < |arts|
    ensures var s1 := Run(t0, arts, env, faults);
            var s2 := Run(s1.table, arts, env, faults);
            s2.outcomes[k] == if s1.outcomes[k].Indexed? then Skipped else s1.outcomes[k]
  {
    var s1 := Run(t0, arts, env, faults);
    var a := arts[k];
    var tk := Run(t0, arts[..k], env, faults).table;
    RunOutcomeAt(t0, arts, env, faults, k);
    RunOutcomeAt(s1.table, arts, env, faults, k);
    RerunPrefix(t0, arts, env, faults, k);
    RunKeys(t0, arts[..k], env, faults, a.id);
    RunKeys(t0, arts, env, faults, a.id);
    PrefixTableKept(t0, arts, env, faults, k);
    forall m | 0 <= m < k
      ensures arts[..k][m].id != a.id
    {
      assert arts[..k][m] == arts[m];
    }
    assert a.id in tk <==> a.id in t0;
    forall m | 0 <= m < |arts| && m != k
      ensures arts[m].id != a.id
    {
      if m < k {
        assert arts[m].id != arts[k].id;
      } else {
        assert arts[k].id != arts[m].id;
      }
    }
    assert a.id in s1.table <==> a.id in t0 || s1.outcomes[k].Indexed?;
  }

  /** Relabelling indexed outcomes as skipped moves their count into the skipped tally. */
  lemma {:induction false} CountRelabelled(outs1: seq<Outcome>, outs2: seq<Outcome>)
    requires |outs1| == |outs2|
    requires forall k :: 0 <= k < |outs1| ==> outs2[k] == if outs1[k].Indexed? then Skipped else outs1[k]
    ensures Count(outs2, TIndexed) == 0
    ensures Count(outs2, TSkipped) == Count(outs1, TSkipped) + Count(outs1, TIndexed)
    ensures Count(outs2, TFailed) == Count(outs1, TFailed)
  {
    if outs1 != [] {
      var n := |outs1| - 1;
      CountRelabelled(outs1[..n], outs2[..n]);
    }
  }

  /** The second run's tallies: skipped = first run's indexed + skipped, failed unchanged, indexed zero. */
  lemma RerunTallies(t0: Table, arts: seq<Article>, env: Env, faults: Faults)
    requires DistinctIds(arts)
    ensures var s1 := Run(t0, arts, env, faults);
            var s2 := Run(s1.table, arts, env, faults);
            && Count(s2.outcomes, TIndexed) == 0
            && Count(s2.outcomes, TSkipped) == Count(s1.outcomes, TSkipped) + Count(s1.outcomes, TIndexed)
            && Count(s2.outcomes, TFailed) == Count(s1.outcomes, TFailed)
  {
    var s1 := Run(t0, arts, env, faults);
    var s2 := Run(s1.table, arts, env, faults);
    forall k | 0 <= k < |arts|
      ensures s2.outcomes[k] == if s1.outcomes[k].Indexed? then Skipped else s1.outcomes[k]
    {
      RerunOutcomes(t0, arts, env, faults, k);
    }
    CountRelabelled(s1.outcomes, s2.outcomes);
  }

  /** Only approved articles of the store gain entries, each written from its own text. */
  lemma OnlyApprovedIndexed(store: seq<Article>, t0: Table, env: Env, faults: Faults, id: ArticleId)
    ensures var t := Run(t0, WithStatus(store, Approved), env, faults).table;
            id in t && id !in t0 ==>
              exists a :: a in store && a.id == id && a.status == Approved && t[id].textContent == IndexableText(a)
  {
    var approved := WithStatus(store, Approved);
    var s := Run(t0, approved, env, faults);
    RunWritesFromArticles(t0, approved, env, faults, id);
    if id in s.table && id !in t0 {
      var k :| 0 <= k < |approved| && approved[k].id == id && s.outcomes[k] == Indexed(s.table[id])
               && WrittenFrom(s.table[id], approved[k], env);
      WithStatusMembership(store, Approved, approved[k]);
    }
  }

  /**
   * Layout of the indexable text: it opens with the title and a blank line,
   * ends with the content, or with the PDF heading and text when the PDF text
   * is truthy; a missing and an empty excerpt or PDF text give the same text.
   */
  lemma IndexableTextShape(a: Article)
    ensures var text := IndexableText(a);
            && |a.title| + 2 <= |text| && text[..|a.title| + 2] == a.title + Separator
            && (Truthy(a.pdfText) ==> text[|text| - |PdfHeading + a.pdfText.value|..] == PdfHeading + a.pdfText.value)
            && (!Truthy(a.pdfText) ==> text[|text| - |Separator + a.content|..] == Separator + a.content)
    ensures a.pdfText == Some("") ==> IndexableText(a) == IndexableText(a.(pdfText := None))
    ensures a.excerpt == Some("") ==> IndexableText(a) == IndexableText(a.(excerpt := None))
  {
    var text := IndexableText(a);
    var head := a.title + Separator;
    var base := head + OrElse(a.excerpt, "") + Separator + a.content;
    assert base[..|head|] == head;
    if Truthy(a.pdfText) {
      assert text == base + (PdfHeading + a.pdfText.value);
    } else {
      assert base == (head + OrElse(a.excerpt, "")) + (Separator + a.content);
    }
  }
}
