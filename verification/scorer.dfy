/** Scorer::search: additive TF-IDF over an InvertedIndex. Scores are
    reals and the weight of a term is idf(N, df), a parameter standing for
    std::log(N / df) in double arithmetic. The accumulator is the HashMap
    of the source, with its std::hash<uint32_t> given as a parameter. */
module Ranking {
  import opened Common
  import opened HashTable
  import opened Sorting
  import opened InvertedIndexing

  datatype SearchResult = SearchResult(docId: U32, score: real)

  function ScoreKey(r: SearchResult): real {
    r.score
  }

  /** The allow-list filter: no list lets every document through. */
  predicate Allowed(allowed: Option<seq<U32>>, docId: U32) {
    allowed.None? || docId in allowed.value
  }

  /** One posting of a term of weight w: an allowed document gains
      tf * w, entering the map with it when not there yet. */
  function AddPostingScore(m: map<U32, real>, p: Posting, w: real, allowed: Option<seq<U32>>): map<U32, real> {
    if !Allowed(allowed, p.docId) then m
    else m[p.docId := if p.docId in m then m[p.docId] + PostingScore(p, w) else PostingScore(p, w)]
  }

  /** tf * idf of one posting. */
  function PostingScore(p: Posting, w: real): real {
    p.termFrequency as real * w
  }

  /** The score map after the postings ps of one term of weight w. */
  function Accumulate(m: map<U32, real>, ps: seq<Posting>, w: real, allowed: Option<seq<U32>>): map<U32, real> {
    if ps == [] then m
    else AddPostingScore(Accumulate(m, ps[..|ps| - 1], w, allowed), ps[|ps| - 1], w, allowed)
  }

  /** The score map after the query terms, in order; a term missing from
      the index adds nothing. */
  function Scores(terms: seq<Bytes>, postings: PostingLists, n: nat, idf: (nat, nat) -> real,
                  allowed: Option<seq<U32>>): map<U32, real>
  {
    if terms == [] then map[]
    else
      var before := Scores(terms[..|terms| - 1], postings, n, idf, allowed);
      var t := terms[|terms| - 1];
      if t !in postings then before
      else Accumulate(before, postings[t], idf(n, |postings[t]|), allowed)
  }

  /* ---------------- what the scores are ---------------- */

  /** The documents of a posting list. */
  function PostedIds(ps: seq<Posting>): set<U32> {
    set i | 0 <= i < |ps| :: ps[i].docId
  }

  /** The documents in the postings of the query's terms. */
  function Candidates(terms: seq<Bytes>, postings: PostingLists): set<U32> {
    if terms == [] then {}
    else
      var t := terms[|terms| - 1];
      Candidates(terms[..|terms| - 1], postings) + (if t in postings then PostedIds(postings[t]) else {})
  }

  /** tf * w summed over the postings of document d. */
  function Contribution(ps: seq<Posting>, d: U32, w: real): real {
    if ps == [] then 0.0
    else
      var p := ps[|ps| - 1];
      Contribution(ps[..|ps| - 1], d, w) + (if p.docId == d then PostingScore(p, w) else 0.0)
  }

  /** The TF-IDF sum of document d over the query, a repeated query term
      counting again. */
  function TermsScore(terms: seq<Bytes>, postings: PostingLists, n: nat, idf: (nat, nat) -> real, d: U32): real {
    if terms == [] then 0.0
    else
      var t := terms[|terms| - 1];
      TermsScore(terms[..|terms| - 1], postings, n, idf, d) +
        (if t in postings then Contribution(postings[t], d, idf(n, |postings[t]|)) else 0.0)
  }

  /** The score so far, 0 for a document not yet met. */
  function ScoreOf(m: map<U32, real>, d: U32): real {
    if d in m then m[d] else 0.0
  }

  /** One term's postings add the allowed documents they name, and only
      those, to the map. */
  lemma {:induction false} AccumulateKeys(m: map<U32, real>, ps: seq<Posting>, w: real, allowed: Option<seq<U32>>)
    ensures forall d :: d in Accumulate(m, ps, w, allowed) <==> d in m || (Allowed(allowed, d) && d in PostedIds(ps))
  {
    if ps != [] {
      var init := ps[..|ps| - 1];
      AccumulateKeys(m, init, w, allowed);
      assert PostedIds(ps) == PostedIds(init) + {ps[|ps| - 1].docId} by {
        forall d | d in PostedIds(ps)
          ensures d in PostedIds(init) + {ps[|ps| - 1].docId}
        {
          var i :| 0 <= i < |ps| && ps[i].docId == d;
          if i < |init| {
            assert init[i] == ps[i];
          }
        }
        forall d | d in PostedIds(init)
          ensures d in PostedIds(ps)
        {
          var i :| 0 <= i < |init| && init[i].docId == d;
          assert ps[i] == init[i];
        }
      }
    }
  }

  /** One term's postings add tf * w to each allowed document, once per
      posting that names it. */
  lemma {:induction false} AccumulateScore(m: map<U32, real>, ps: seq<Posting>, w: real, allowed: Option<seq<U32>>, d: U32)
    ensures ScoreOf(Accumulate(m, ps, w, allowed), d) ==
              ScoreOf(m, d) + (if Allowed(allowed, d) then Contribution(ps, d, w) else 0.0)
  {
    if ps != [] {
      AccumulateScore(m, ps[..|ps| - 1], w, allowed, d);
    }
  }

  /** The scored documents are exactly the allowed candidates. */
  lemma {:induction false} ScoresKeys(terms: seq<Bytes>, postings: PostingLists, n: nat, idf: (nat, nat) -> real,
                                      allowed: Option<seq<U32>>)
    ensures forall d :: d in Scores(terms, postings, n, idf, allowed) <==> Allowed(allowed, d) && d in Candidates(terms, postings)
  {
    if terms != [] {
      var init := terms[..|terms| - 1];
      var t := terms[|terms| - 1];
      ScoresKeys(init, postings, n, idf, allowed);
      if t in postings {
        AccumulateKeys(Scores(init, postings, n, idf, allowed), postings[t], idf(n, |postings[t]|), allowed);
      }
    }
  }

  /** Every allowed document's score is its TF-IDF sum over the query. */
  lemma {:induction false} ScoresSum(terms: seq<Bytes>, postings: PostingLists, n: nat, idf: (nat, nat) -> real,
                                     allowed: Option<seq<U32>>, d: U32)
    ensures ScoreOf(Scores(terms, postings, n, idf, allowed), d) ==
              if Allowed(allowed, d) then TermsScore(terms, postings, n, idf, d) else 0.0
  {
    if terms != [] {
      var init := terms[..|terms| - 1];
      var t := terms[|terms| - 1];
      ScoresSum(init, postings, n, idf, allowed, d);
      if t in postings {
        AccumulateScore(Scores(init, postings, n, idf, allowed), postings[t], idf(n, |postings[t]|), allowed, d);
      }
    }
  }

  /** A query whose terms the index does not hold scores nothing; so does
      the empty query. */
  lemma {:induction false} AbsentTermsScoreNothing(terms: seq<Bytes>, postings: PostingLists, n: nat,
                                                   idf: (nat, nat) -> real, allowed: Option<seq<U32>>)
    requires forall k :: 0 <= k < |terms| ==> terms[k] !in postings
    ensures Scores(terms, postings, n, idf, allowed) == map[]
  {
    if terms != [] {
      AbsentTermsScoreNothing(terms[..|terms| - 1], postings, n, idf, allowed);
    }
  }

  /* ---------------- the ranked list ---------------- */

  /** The rows traverse pushes, one per entry. */
  function Rows(entries: seq<(U32, real)>): (r: seq<SearchResult>)
    ensures |r| == |entries|
  {
    seq(|entries|, k requires 0 <= k < |entries| => SearchResult(entries[k].0, entries[k].1))
  }

  /** A result list holds each scored document once, with its score. */
  ghost predicate RanksScores(results: seq<SearchResult>, m: map<U32, real>) {
    && |results| == |m|
    && (forall i :: 0 <= i < |results| ==> results[i].docId in m && results[i].score == m[results[i].docId])
    && (forall i, j :: 0 <= i < j < |results| ==> results[i].docId != results[j].docId)
    && (forall d :: d in m ==> exists i :: 0 <= i < |results| && results[i].docId == d)
  }

  /** Two equal elements make a multiplicity of at least two. */
  lemma TwoCopies<T>(s: seq<T>, i: nat, j: nat)
    requires i < j < |s| && s[i] == s[j]
    ensures multiset(s)[s[i]] >= 2
  {
    assert s == s[..i] + [s[i]] + s[i + 1..j] + [s[j]] + s[j + 1..];
  }

  /** Rows with distinct docIds occur once each. */
  lemma {:induction false} RowsOnce(entries: seq<(U32, real)>, x: SearchResult)
    requires DistinctKeys(entries)
    ensures multiset(Rows(entries))[x] <= 1
  {
    if entries != [] {
      var init := entries[..|entries| - 1];
      assert DistinctKeys(init) by {
        forall j, j' | 0 <= j < j' < |init|
          ensures init[j].0 != init[j'].0
        {
          assert init[j] == entries[j] && init[j'] == entries[j'];
        }
      }
      RowsOnce(init, x);
      var last := entries[|entries| - 1];
      assert Rows(entries) == Rows(init) + [SearchResult(last.0, last.1)];
      forall k | 0 <= k < |init|
        ensures Rows(init)[k] != SearchResult(last.0, last.1)
      {
        assert entries[k].0 != last.0;
      }
      assert SearchResult(last.0, last.1) !in Rows(init);
    }
  }

  /** A permutation of the rows of an enumeration of m ranks m. */
  lemma RowsRank(results: seq<SearchResult>, order: seq<(U32, real)>, m: map<U32, real>)
    requires IsEnumeration(order, m) && |order| == |m| && multiset(results) == multiset(Rows(order))
    ensures RanksScores(results, m)
  {
    var rows := Rows(order);
    assert |results| == |rows| by {
      assert |multiset(results)| == |multiset(rows)|;
    }
    forall i | 0 <= i < |results|
      ensures results[i].docId in m && results[i].score == m[results[i].docId]
    {
      assert results[i] in multiset(rows);
      var k :| 0 <= k < |rows| && rows[k] == results[i];
    }
    forall i, j | 0 <= i < j < |results|
      ensures results[i].docId != results[j].docId
    {
      if results[i].docId == results[j].docId {
        TwoCopies(results, i, j);
        RowsOnce(order, results[i]);
        assert false;
      }
    }
    forall d | d in m
      ensures exists i :: 0 <= i < |results| && results[i].docId == d
    {
      assert KeyIn(order, d);
      var k :| 0 <= k < |order| && order[k].0 == d;
      assert rows[k] in multiset(results);
      var i :| 0 <= i < |results| && results[i] == rows[k];
    }
  }

  /* ---------------- the method ---------------- */

  /** std::binary_search: a lower-bound search, then one comparison. */
  method BinarySearch(a: seq<U32>, x: U32) returns (found: bool)
    requires Sorted(a)
    ensures found <==> x in a
  {
    var lo, hi := 0, |a|;
    while lo < hi
      invariant 0 <= lo <= hi <= |a|
      invariant forall i :: 0 <= i < lo ==> a[i] < x
      invariant forall i :: hi <= i < |a| ==> a[i] >= x
      decreases hi - lo
    {
      var mid := (lo + hi) / 2;
      if a[mid] < x {
        lo := mid + 1;
      } else {
        hi := mid;
      }
    }
    found := lo < |a| && a[lo] == x;
    if x in a {
      var j :| 0 <= j < |a| && a[j] == x;
      assert lo <= j;
      assert a[lo] <= a[j];
    }
  }

  /** The allow-list test of search: no list, or binary_search finds the
      document. */
  method IsAllowed(allowed: Option<seq<U32>>, docId: U32) returns (ok: bool)
    requires allowed.Some? ==> Sorted(allowed.value)
    ensures ok == Allowed(allowed, docId)
  {
    ok := true;
    if allowed.Some? {
      ok := BinarySearch(allowed.value, docId);
    }
  }

  /** The inner loop of search over the postings of one term: every
      allowed posting adds tf * w to its document, through the address get
      returns or by an insert. */
  method AddScores(docScores: HashMap<U32, real>, ps: seq<Posting>, w: real, allowed: Option<seq<U32>>)
    requires docScores.Valid()
    requires allowed.Some? ==> Sorted(allowed.value)
    modifies docScores.Repr
    ensures docScores.Valid() && fresh(docScores.Repr - old(docScores.Repr))
    ensures docScores.Contents == Accumulate(old(docScores.Contents), ps, w, allowed)
  {
    for k := 0 to |ps|
      invariant docScores.Valid() && fresh(docScores.Repr - old(docScores.Repr))
      invariant docScores.Contents == Accumulate(old(docScores.Contents), ps[..k], w, allowed)
    {
      AccumulateSnoc(old(docScores.Contents), ps, k, w, allowed);
      ScorePosting(docScores, ps[k], w, allowed);
    }
    assert ps[..|ps|] == ps;
  }

  /** One posting of the inner loop: skipped when its document is not
      allowed, otherwise its score is added. */
  method ScorePosting(docScores: HashMap<U32, real>, p: Posting, w: real, allowed: Option<seq<U32>>)
    requires docScores.Valid()
    requires allowed.Some? ==> Sorted(allowed.value)
    modifies docScores.Repr
    ensures docScores.Valid() && fresh(docScores.Repr - old(docScores.Repr))
    ensures docScores.Contents == AddPostingScore(old(docScores.Contents), p, w, allowed)
  {
    var ok := IsAllowed(allowed, p.docId);
    if ok {
      var score := PostingScore(p, w);
      AddScore(docScores, p.docId, score);
    }
  }

  /** *currentScore += score through the address get returns, or insert
      for a document not yet scored. */
  method AddScore(docScores: HashMap<U32, real>, docId: U32, score: real)
    requires docScores.Valid()
    modifies docScores.Repr
    ensures docScores.Valid() && fresh(docScores.Repr - old(docScores.Repr))
    ensures docScores.Contents ==
              old(docScores.Contents)[docId := if docId in old(docScores.Contents) then old(docScores.Contents)[docId] + score else score]
  {
    var currentScore := docScores.Get(docId);
    if currentScore.Some? {
      docScores.Put(docId, currentScore.value + score);
    } else {
      docScores.Insert(docId, score);
    }
  }

  lemma AccumulateSnoc(m: map<U32, real>, ps: seq<Posting>, k: nat, w: real, allowed: Option<seq<U32>>)
    requires k < |ps|
    ensures Accumulate(m, ps[..k + 1], w, allowed) == AddPostingScore(Accumulate(m, ps[..k], w, allowed), ps[k], w, allowed)
  {
    var front := ps[..k + 1];
    assert front[..|front| - 1] == ps[..k];
    assert front[|front| - 1] == ps[k];
  }

  /** The traverse callback: one pushed row per entry, in traverse order. */
  method CollectRows(entries: seq<(U32, real)>) returns (rows: seq<SearchResult>)
    ensures rows == Rows(entries)
  {
    rows := [];
    for k := 0 to |entries|
      invariant |rows| == k
      invariant forall j :: 0 <= j < k ==> rows[j] == SearchResult(entries[j].0, entries[j].1)
    {
      rows := rows + [SearchResult(entries[k].0, entries[k].1)];
    }
  }

  /** search: accumulate the scores of the query terms, collect them with
      traverse and sort by score, largest first. The index is only read. */
  method Search(queryTerms: seq<Bytes>, index: InvertedIndex, allowedDocIds: Option<seq<U32>>,
                idf: (nat, nat) -> real, hash: U32 -> nat)
    returns (results: seq<SearchResult>)
    requires index.Valid()
    requires allowedDocIds.Some? ==> Sorted(allowedDocIds.value)
    ensures RanksScores(results, Scores(queryTerms, index.Terms(), index.totalDocs, idf, allowedDocIds))
    ensures NonIncreasing(results, ScoreKey)
  {
    var docScores := new HashMap<U32, real>(1009, hash);
    var n := index.GetTotalDocs();
    for i := 0 to |queryTerms|
      invariant docScores.Valid() && fresh(docScores.Repr)
      invariant docScores.Contents == Scores(queryTerms[..i], index.Terms(), n, idf, allowedDocIds)
    {
      assert queryTerms[..i + 1][..i] == queryTerms[..i];
      var postings := index.GetPostings(queryTerms[i]);
      if postings.None? {
        continue;
      }
      var ps := postings.value;
      var w := idf(n, |ps|);
      AddScores(docScores, ps, w, allowedDocIds);
    }
    assert queryTerms[..|queryTerms|] == queryTerms;
    var entries := docScores.Traverse();
    var rows := CollectRows(entries);
    results := SortDescending(rows, ScoreKey);
    RowsRank(results, entries, docScores.Contents);
  }
}
