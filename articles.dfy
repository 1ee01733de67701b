/** The Article entity as the maintenance scripts see it, and the status filter they share. */
module Articles {
  import opened Wrappers

  type ArticleId = nat
  type Timestamp = int

  /** The populated `author` reference: only `username` and `email` are selected. */
  datatype Author = Author(username: Option<string>, email: Option<string>)

  /**
   * An article document. `status` is kept as free text: the scripts index a
   * dictionary by it, so a value outside the four lifecycle states is representable.
   */
  datatype Article = Article(
    id: ArticleId,
    title: string,
    excerpt: Option<string>,
    content: string,
    pdfText: Option<string>,
    status: string,
    author: Option<Author>,
    createdAt: Timestamp,
    rejectionReason: Option<string>)

  const Approved: string := "APPROVED"
  const Pending: string := "PENDING"
  const Rejected: string := "REJECTED"
  const Draft: string := "DRAFT"

  /** JavaScript truthiness of an optional string: present and non-empty. */
  predicate Truthy(v: Option<string>)
  {
    v.Some? && v.value != ""
  }

  /** JavaScript `v || fallback` on an optional string. */
  function OrElse(v: Option<string>, fallback: string): string
  {
    if Truthy(v) then v.value else fallback
  }

  /**
   * The articles of `arts` whose status is `status`, in their original order:
   * both the query `find({ status })` and one bucket of the status table.
   */
  function WithStatus(arts: seq<Article>, status: string): (r: seq<Article>)
    ensures |r| <= |arts|
    ensures forall k :: 0 <= k < |r| ==> r[k].status == status && r[k] in arts
  {
    if arts == [] then []
    else
      var last := arts[|arts| - 1];
      WithStatus(arts[..|arts| - 1], status) + (if last.status == status then [last] else [])
  }

  /** Filtering one article more appends it exactly when its status matches. */
  lemma WithStatusSnoc(arts: seq<Article>, i: nat, status: string)
    requires i < |arts|
    ensures WithStatus(arts[..i + 1], status)
            == WithStatus(arts[..i], status) + (if arts[i].status == status then [arts[i]] else [])
  {
    assert arts[..i + 1][..i] == arts[..i];
  }

  /** The indices of `arts` whose status is `status`, ascending. */
  function StatusPositions(arts: seq<Article>, status: string): seq<nat>
  {
    if arts == [] then []
    else
      StatusPositions(arts[..|arts| - 1], status)
        + (if arts[|arts| - 1].status == status then [|arts| - 1] else [])
  }

  /**
   * WithStatus is a stable filter: its k-th element is the article at the k-th
   * matching position, the positions ascend, and they are exactly the positions
   * whose status matches.
   */
  lemma {:induction false} WithStatusIsStableFilter(arts: seq<Article>, status: string)
    ensures var p := StatusPositions(arts, status);
            var r := WithStatus(arts, status);
            && |p| == |r|
            && (forall k :: 0 <= k < |p| ==> p[k] < |arts| && r[k] == arts[p[k]])
            && (forall k, l :: 0 <= k < l < |p| ==> p[k] < p[l])
            && (forall i :: 0 <= i < |arts| ==> (arts[i].status == status <==> i in p))
  {
    if arts != [] {
      var n := |arts| - 1;
      var init, last := arts[..n], arts[n];
      WithStatusIsStableFilter(init, status);
      var p0, r0 := StatusPositions(init, status), WithStatus(init, status);
      var p, r := StatusPositions(arts, status), WithStatus(arts, status);
      var tailP: seq<nat> := if last.status == status then [n] else [];
      var tailR := if last.status == status then [last] else [];
      assert p == p0 + tailP && r == r0 + tailR;
      assert |p| == |r|;
      forall k | 0 <= k < |p| ensures p[k] < |arts| && r[k] == arts[p[k]] {
        if k < |p0| {
          assert p[k] == p0[k] && r[k] == r0[k] && arts[p0[k]] == init[p0[k]];
        }
      }
      forall k, l | 0 <= k < l < |p| ensures p[k] < p[l] {
        if l == |p0| { assert p[k] == p0[k] < |init|; }
      }
      forall i | 0 <= i < |arts| ensures arts[i].status == status <==> i in p {
        if i < n {
          assert arts[i] == init[i];
          assert i in p0 <==> i in p;
        }
      }
    }
  }

  /** An article is in the filtered list exactly when it is in the input with that status. */
  lemma {:induction false} WithStatusMembership(arts: seq<Article>, status: string, a: Article)
    ensures a in WithStatus(arts, status) <==> a in arts && a.status == status
  {
    if arts != [] {
      var init := arts[..|arts| - 1];
      WithStatusMembership(init, status, a);
      assert arts == init + [arts[|arts| - 1]];
    }
  }

  /** Newest first: `createdAt` does not increase along the list. */
  ghost predicate NewestFirst(arts: seq<Article>)
  {
    forall i, j :: 0 <= i < j < |arts| ==> arts[i].createdAt >= arts[j].createdAt
  }

  /** Filtering a newest-first list keeps it newest-first. */
  lemma {:induction false} WithStatusKeepsNewestFirst(arts: seq<Article>, status: string)
    requires NewestFirst(arts)
    ensures NewestFirst(WithStatus(arts, status))
  {
    if arts != [] {
      var init := arts[..|arts| - 1];
      var last := arts[|arts| - 1];
      assert NewestFirst(init) by {
        forall i, j | 0 <= i < j < |init| ensures init[i].createdAt >= init[j].createdAt {
          assert init[i] == arts[i] && init[j] == arts[j];
        }
      }
      WithStatusKeepsNewestFirst(init, status);
      var r0 := WithStatus(init, status);
      forall a | a in r0 ensures a.createdAt >= last.createdAt {
        WithStatusMembership(init, status, a);
        var i :| 0 <= i < |init| && init[i] == a;
        assert arts[i] == a;
      }
    }
  }
}
