/** InvertedIndex (include/core/InvertedIndex.hpp): term -> postings
    (docId, termFrequency), the compressed file layout (delta-encoded
    docIds and term frequencies, each list var-byte encoded), the frequency
    export and the export to the uncompressed BooleanIndex layout. Files
    are byte sequences: size_t fields take 8 bytes, least significant first. */
module InvertedIndexing {
  import opened Common
  import opened Compression
  import opened HashTable
  import BooleanIndexing
  import opened Sorting

  /** Posting: a document and how often the term occurs in it. */
  datatype Posting = Posting(docId: U32, termFrequency: U32)

  type PostingLists = map<Bytes, seq<Posting>>

  /** The postings addTerm leaves for a term whose postings are ps: the
      last posting counts one more occurrence (the uint32_t counter wraps)
      when it is for docId, otherwise (docId, 1) is appended. */
  function AddPosting(ps: seq<Posting>, docId: U32): (r: seq<Posting>)
    ensures r != [] && r[|r| - 1].docId == docId
    ensures |r| == |ps| || |r| == |ps| + 1
    ensures forall k :: 0 <= k < |r| && r[k].docId != docId ==> k < |ps| && r[k] == ps[k]
  {
    if ps != [] && ps[|ps| - 1].docId == docId then
      ps[|ps| - 1 := Posting(docId, (ps[|ps| - 1].termFrequency + 1) % TWO32)]
    else
      ps + [Posting(docId, 1)]
  }

  /** The index after addTerm(term, docId): only term's postings change. */
  function AddTermTo(m: PostingLists, term: Bytes, docId: U32): (r: PostingLists)
    ensures term in r && r[term] != [] && r[term][|r[term]| - 1].docId == docId
    ensures forall t :: t != term ==> (t in r <==> t in m) && (t in m ==> r[t] == m[t])
  {
    if term in m then m[term := AddPosting(m[term], docId)] else m[term := [Posting(docId, 1)]]
  }

  function DocIds(ps: seq<Posting>): (r: seq<U32>)
    ensures |r| == |ps|
  {
    seq(|ps|, i requires 0 <= i < |ps| => ps[i].docId)
  }

  /** The sum of the term frequencies, as a mathematical integer. */
  function TotalTf(ps: seq<Posting>): nat {
    if ps == [] then 0 else TotalTf(ps[..|ps| - 1]) + ps[|ps| - 1].termFrequency
  }

  /** A term the index does not hold has no occurrences. */
  function TotalTfOf(m: PostingLists, t: Bytes): nat {
    if t in m then TotalTf(m[t]) else 0
  }

  /** addTerm on a term whose counter does not wrap adds exactly one
      occurrence to the term and none to any other. */
  lemma AddTermCountsOne(m: PostingLists, term: Bytes, docId: U32)
    requires term in m && m[term] != [] && m[term][|m[term]| - 1].docId == docId ==>
               m[term][|m[term]| - 1].termFrequency + 1 < TWO32
    ensures TotalTfOf(AddTermTo(m, term, docId), term) == TotalTfOf(m, term) + 1
    ensures forall t :: t != term ==> TotalTfOf(AddTermTo(m, term, docId), t) == TotalTfOf(m, t)
  {
    if term in m {
      var ps := m[term];
      var r := AddPosting(ps, docId);
      if ps != [] && ps[|ps| - 1].docId == docId {
        assert r[..|ps| - 1] == ps[..|ps| - 1];
      } else {
        assert r[..|ps|] == ps;
      }
    } else {
      var r := [Posting(docId, 1)];
      assert r[..0] == [];
      assert TotalTf(r) == TotalTf([]) + 1;
    }
  }

  /** The index a sequence of addTerm calls builds from m. */
  function AddAll(m: PostingLists, calls: seq<(Bytes, U32)>): PostingLists {
    if calls == [] then m
    else
      var n := |calls| - 1;
      AddTermTo(AddAll(m, calls[..n]), calls[n].0, calls[n].1)
  }

  /** How many of the calls are for term t. */
  function Count(calls: seq<(Bytes, U32)>, t: Bytes): (r: nat)
    ensures r <= |calls|
  {
    if calls == [] then 0
    else Count(calls[..|calls| - 1], t) + (if calls[|calls| - 1].0 == t then 1 else 0)
  }

  lemma LastTfBelowTotal(ps: seq<Posting>)
    requires ps != []
    ensures ps[|ps| - 1].termFrequency <= TotalTf(ps)
  {
  }

  /** Fewer than 2^32 addTerm calls from an empty index: the frequencies of
      each term sum to the number of calls for it. */
  lemma {:induction false} TfSumCountsCalls(calls: seq<(Bytes, U32)>)
    requires |calls| < TWO32
    ensures forall t :: TotalTfOf(AddAll(map[], calls), t) == Count(calls, t)
  {
    if calls != [] {
      var n := |calls| - 1;
      var init := calls[..n];
      var (term, docId) := calls[n];
      var m: PostingLists := AddAll(map[], init);
      TfSumCountsCalls(init);
      if term in m && m[term] != [] {
        LastTfBelowTotal(m[term]);
        assert TotalTf(m[term]) == Count(init, term);
      }
      AddTermCountsOne(m, term, docId);
    }
  }

  /** Every list's docIds are sorted and free of duplicates. */
  ghost predicate AllIncreasing(m: PostingLists) {
    forall t :: t in m ==> StrictlySorted(DocIds(m[t]))
  }

  /** docId is no smaller than every docId already posted for term. */
  ghost predicate NotBehind(m: PostingLists, term: Bytes, docId: U32) {
    term in m && m[term] != [] ==> m[term][|m[term]| - 1].docId <= docId
  }

  /** Fed non-decreasing docIds per term, addTerm keeps every term's docIds
      strictly increasing. */
  lemma AddTermKeepsIncreasing(m: PostingLists, term: Bytes, docId: U32)
    requires AllIncreasing(m) && NotBehind(m, term, docId)
    ensures AllIncreasing(AddTermTo(m, term, docId))
  {
    if term in m && m[term] != [] {
      var ps := m[term];
      var n := |ps| - 1;
      var ids := DocIds(ps);
      var r := AddPosting(ps, docId);
      var rids := DocIds(r);
      if ps[n].docId == docId {
        assert rids == ids;
      } else {
        assert rids == ids + [docId];
        forall i, j | 0 <= i < j < |rids|
          ensures rids[i] < rids[j]
        {
          if j == n + 1 {
            assert rids[i] == ids[i] <= ids[n];
          }
        }
      }
    }
  }

  /** Calls give each term non-decreasing docIds. */
  ghost predicate InDocumentOrder(calls: seq<(Bytes, U32)>) {
    forall i, j :: 0 <= i < j < |calls| && calls[i].0 == calls[j].0 ==> calls[i].1 <= calls[j].1
  }

  /** Every posted docId comes from a call for that term. */
  ghost predicate PostedByCalls(m: PostingLists, calls: seq<(Bytes, U32)>) {
    forall t, k :: t in m && 0 <= k < |m[t]| ==>
      exists c :: 0 <= c < |calls| && calls[c] == (t, m[t][k].docId)
  }

  lemma {:induction false} AddAllPosted(calls: seq<(Bytes, U32)>)
    ensures PostedByCalls(AddAll(map[], calls), calls)
  {
    if calls != [] {
      var n := |calls| - 1;
      var init := calls[..n];
      var (term, docId) := calls[n];
      var m: PostingLists := AddAll(map[], init);
      var r: PostingLists := AddTermTo(m, term, docId);
      AddAllPosted(init);
      forall t: Bytes, k: int | t in r && 0 <= k < |r[t]|
        ensures exists c :: 0 <= c < |calls| && calls[c] == (t, r[t][k].docId)
      {
        if t == term && (t !in m || r[t][k].docId == docId) {
          assert calls[n] == (t, r[t][k].docId);
        } else {
          assert k < |m[t]| && r[t][k] == m[t][k];
          var c :| 0 <= c < |init| && init[c] == (t, m[t][k].docId);
          assert calls[c] == init[c];
        }
      }
    }
  }

  /** If every term receives non-decreasing docIds, the postings built from
      an empty index are strictly increasing by docId. */
  lemma {:induction false} CallsBuildIncreasing(calls: seq<(Bytes, U32)>)
    requires InDocumentOrder(calls)
    ensures AllIncreasing(AddAll(map[], calls))
  {
    if calls != [] {
      var n := |calls| - 1;
      var init := calls[..n];
      var (term, docId) := calls[n];
      var m: PostingLists := AddAll(map[], init);
      assert AllIncreasing(m) by {
        assert InDocumentOrder(init);
        CallsBuildIncreasing(init);
      }
      assert NotBehind(m, term, docId) by {
        if term in m && m[term] != [] {
          var last := |m[term]| - 1;
          assert exists c :: 0 <= c < |init| && init[c] == (term, m[term][last].docId) by {
            AddAllPosted(init);
          }
          var c :| 0 <= c < |init| && init[c] == (term, m[term][last].docId);
          assert calls[c] == init[c] && c < n;
        }
      }
      AddTermKeepsIncreasing(m, term, docId);
    }
  }

  // ---- the compressed layout ----

  /** The gap save writes for posting i: its docId minus the previous one
      (0 before the first), in uint32_t arithmetic. */
  function Delta(ps: seq<Posting>, i: nat): U32
    requires i < |ps|
  {
    (ps[i].docId - (if i == 0 then 0 else ps[i - 1].docId)) % TWO32
  }

  function Deltas(ps: seq<Posting>): (r: seq<U32>)
    ensures |r| == |ps|
  {
    seq(|ps|, i requires 0 <= i < |ps| => Delta(ps, i))
  }

  function Tfs(ps: seq<Posting>): (r: seq<U32>)
    ensures |r| == |ps|
  {
    seq(|ps|, i requires 0 <= i < |ps| => ps[i].termFrequency)
  }

  /** One term as save writes it: termLen, the term, the sizes of the two
      compressed blocks, then the gap block and the frequency block. */
  function TermRecord(term: Bytes, ps: seq<Posting>): Bytes {
    BlocksRecord(term, Encoded(Deltas(ps)), Encoded(Tfs(ps)))
  }

  /** The fields, then the two compressed blocks. */
  function BlocksRecord(term: Bytes, d: Bytes, t: Bytes): Bytes {
    Header(term, |d|, |t|) + d + t
  }

  function RecordParts(entries: seq<(Bytes, seq<Posting>)>): (r: seq<Bytes>)
    ensures |r| == |entries|
  {
    seq(|entries|, i requires 0 <= i < |entries| => TermRecord(entries[i].0, entries[i].1))
  }

  /** The whole file: totalDocs, termCount, then the terms in the given order. */
  function Image(totalDocs: U64, entries: seq<(Bytes, seq<Posting>)>): Bytes {
    SizeField(totalDocs) + SizeField(|entries|) + Concat(RecordParts(entries))
  }

  /** The postings load rebuilds from (gap, frequency) pairs: each gap is
      added to the running docId, which starts at current, with uint32_t
      wrap-around. */
  function RunningSum(pairs: seq<(U32, U32)>, current: U32): (r: seq<Posting>)
    ensures |r| == |pairs|
  {
    if pairs == [] then []
    else
      var docId := (current + pairs[0].0) % TWO32;
      [Posting(docId, pairs[0].1)] + RunningSum(pairs[1..], docId)
  }

  /** load's `while (posD < sizeDeltas)` loop from cursors posD and posT with
      running docId current: the gap block and the frequency block decoded
      in lockstep, gaps summed into docIds. */
  function DecodePostings(deltas: Bytes, tfs: Bytes, posD: nat, posT: nat, current: U32): seq<Posting> {
    RunningSum(DecodePairs(deltas, tfs, posD, posT), current)
  }

  /** The fields before the two blocks: termLen, the term, sizeDeltas and
      sizeTfs. */
  function Header(term: Bytes, sizeDeltas: nat, sizeTfs: nat): (r: Bytes)
    ensures |r| == 24 + |term|
  {
    SizeField(|term|) + term + SizeField(sizeDeltas) + SizeField(sizeTfs)
  }

  /** Reading the fields before the two blocks at pos. */
  function ReadHeader(data: Bytes, pos: nat): (r: Option<((Bytes, U64, U64), nat)>)
    ensures r.Some? ==> pos < r.value.1 <= |data|
  {
    match ReadSize(data, pos)
    case None => None
    case Some((len, p1)) =>
      match ReadRaw(data, p1, len)
      case None => None
      case Some((term, p2)) =>
        match ReadSize(data, p2)
        case None => None
        case Some((sizeDeltas, p3)) =>
          match ReadSize(data, p3)
          case None => None
          case Some((sizeTfs, p4)) => Some(((term, sizeDeltas, sizeTfs), p4))
  }

  /** Reading the fields and the two compressed blocks of one term record
      at pos. */
  function ReadBlocks(data: Bytes, pos: nat): (r: Option<((Bytes, Bytes, Bytes), nat)>)
    ensures r.Some? ==> pos < r.value.1 <= |data|
  {
    match ReadHeader(data, pos)
    case None => None
    case Some(((term, sizeDeltas, sizeTfs), p4)) =>
      match ReadRaw(data, p4, sizeDeltas)
      case None => None
      case Some((deltas, p5)) =>
        match ReadRaw(data, p5, sizeTfs)
        case None => None
        case Some((tfs, p6)) => Some(((term, deltas, tfs), p6))
  }

  /** Reading one term record at pos: its fields, then the two blocks, which
      are decoded into the postings. */
  function ReadRecord(data: Bytes, pos: nat): (r: Option<((Bytes, seq<Posting>), nat)>)
    ensures r.Some? ==> pos < r.value.1 <= |data|
  {
    match ReadBlocks(data, pos)
    case None => None
    case Some(((term, deltas, tfs), next)) => Some(((term, DecodePostings(deltas, tfs, 0, 0, 0)), next))
  }

  /** The records load inserts: up to count of them, stopping at the first
      that the data cannot hold. */
  function ReadRecords(data: Bytes, pos: nat, count: nat): seq<(Bytes, seq<Posting>)> {
    ReadMany(ReadRecord, data, pos, count)
  }

  lemma ReadRecordsStep(data: Bytes, pos: nat, count: nat, entry: (Bytes, seq<Posting>), next: nat)
    requires count > 0 && ReadRecord(data, pos) == Some((entry, next))
    ensures ReadRecords(data, pos, count) == [entry] + ReadRecords(data, next, count - 1)
  {
  }

  /** The records load reads from a file. */
  function LoadedRecords(data: Bytes): seq<(Bytes, seq<Posting>)> {
    match ReadSize(data, 0)
    case None => []
    case Some(_) =>
      match ReadSize(data, 8)
      case None => []
      case Some((count, _)) => ReadRecords(data, 16, count)
  }

  /** totalDocs after load: the stored value, or the previous one when the
      file is too short to hold it. */
  function LoadedTotal(data: Bytes, previous: U64): U64 {
    match ReadSize(data, 0)
    case None => previous
    case Some((total, _)) => total
  }

  /** Adding the uint32_t gap to the previous docId gives the docId back. */
  lemma GapRestores(previous: U32, docId: U32)
    ensures (previous + (docId - previous) % TWO32) % TWO32 == docId
  {
    if docId >= previous {
      assert (docId - previous) % TWO32 == docId - previous;
    } else {
      assert (docId - previous) % TWO32 == docId - previous + TWO32;
    }
  }

  /** The running sum over the gaps from posting k on rebuilds the postings
      from k on. */
  lemma {:induction false} RebuildDeltas(ps: seq<Posting>, k: nat)
    requires k <= |ps|
    ensures RunningSum(Zip(Deltas(ps), Tfs(ps))[k..], if k == 0 then 0 else ps[k - 1].docId) == ps[k..]
    decreases |ps| - k
  {
    if k < |ps| {
      var previous: U32 := if k == 0 then 0 else ps[k - 1].docId;
      GapRestores(previous, ps[k].docId);
      assert Zip(Deltas(ps), Tfs(ps))[k..][1..] == Zip(Deltas(ps), Tfs(ps))[k + 1..];
      RebuildDeltas(ps, k + 1);
      assert ps[k..] == [ps[k]] + ps[k + 1..];
    }
  }

  /** Per-term round trip: decoding the two blocks save writes for ps gives
      ps back, for any postings. */
  lemma DecodeOfBlocks(ps: seq<Posting>)
    ensures DecodePostings(Encoded(Deltas(ps)), Encoded(Tfs(ps)), 0, 0, 0) == ps
  {
    var d := Encoded(Deltas(ps));
    var t := Encoded(Tfs(ps));
    assert d[0..|d|] == d;
    assert t[0..|t|] == t;
    EncodedAtOf(d, 0, Deltas(ps));
    EncodedAtOf(t, 0, Tfs(ps));
    DecodePairsAt(d, t, 0, 0, Deltas(ps), Tfs(ps));
    RebuildDeltas(ps, 0);
    assert Zip(Deltas(ps), Tfs(ps))[0..] == Zip(Deltas(ps), Tfs(ps)) && ps[0..] == ps;
  }

  /** Every size save writes fits in a size_t. */
  ghost predicate Storable(entries: seq<(Bytes, seq<Posting>)>) {
    && |entries| < TWO64
    && forall i :: 0 <= i < |entries| ==> |entries[i].0| < TWO64 && 5 * |entries[i].1| < TWO64
  }

  /** The fields written at pos in front of back read back, and back lies
      right after them. */
  lemma ReadHeaderOf(data: Bytes, pos: nat, term: Bytes, sizeDeltas: nat, sizeTfs: nat, back: Bytes)
    requires |term| < TWO64 && sizeDeltas < TWO64 && sizeTfs < TWO64
    requires pos + |Header(term, sizeDeltas, sizeTfs)| + |back| <= |data|
    requires data[pos..pos + |Header(term, sizeDeltas, sizeTfs)| + |back|] == Header(term, sizeDeltas, sizeTfs) + back
    ensures ReadHeader(data, pos) == Some(((term, sizeDeltas, sizeTfs), pos + |Header(term, sizeDeltas, sizeTfs)|))
    ensures data[pos + |Header(term, sizeDeltas, sizeTfs)|..pos + |Header(term, sizeDeltas, sizeTfs)| + |back|] == back
  {
    var a := SizeField(|term|);
    var b := SizeField(sizeDeltas);
    var c := SizeField(sizeTfs);
    var p1 := pos + 8;
    var p2 := p1 + |term|;
    var p3 := p2 + 8;
    var p4 := p3 + 8;
    assert Header(term, sizeDeltas, sizeTfs) + back == a + (term + (b + (c + back)));
    ReadSizeFront(data, pos, |term|, term + (b + (c + back)));
    ReadRawFront(data, p1, term, b + (c + back));
    ReadSizeFront(data, p2, sizeDeltas, c + back);
    ReadSizeFront(data, p3, sizeTfs, back);
    ReadHeaderSteps(data, pos, p1, term, p2, sizeDeltas, p3, sizeTfs, p4);
  }

  /** The four reads of ReadHeader, one after another. */
  lemma ReadHeaderSteps(data: Bytes, pos: nat, p1: nat, term: Bytes, p2: nat, sizeDeltas: U64, p3: nat,
                        sizeTfs: U64, p4: nat)
    requires ReadSize(data, pos) == Some((|term|, p1)) && ReadRaw(data, p1, |term|) == Some((term, p2))
    requires ReadSize(data, p2) == Some((sizeDeltas, p3)) && ReadSize(data, p3) == Some((sizeTfs, p4))
    ensures ReadHeader(data, pos) == Some(((term, sizeDeltas, sizeTfs), p4))
  {
  }

  /** A record written at pos reads back, and reading stops right after it. */
  lemma ReadRecordOf(data: Bytes, pos: nat, term: Bytes, ps: seq<Posting>)
    requires |term| < TWO64 && 5 * |ps| < TWO64
    requires pos + |TermRecord(term, ps)| <= |data|
    requires data[pos..pos + |TermRecord(term, ps)|] == TermRecord(term, ps)
    ensures ReadRecord(data, pos) == Some(((term, ps), pos + |TermRecord(term, ps)|))
  {
    ReadRecordOfBlocks(data, pos, term, ps, Encoded(Deltas(ps)), Encoded(Tfs(ps)), TermRecord(term, ps));
  }

  /** The same, with the two blocks named. */
  lemma ReadRecordOfBlocks(data: Bytes, pos: nat, term: Bytes, ps: seq<Posting>, d: Bytes, t: Bytes, rec: Bytes)
    requires |term| < TWO64 && 5 * |ps| < TWO64
    requires d == Encoded(Deltas(ps)) && t == Encoded(Tfs(ps)) && rec == BlocksRecord(term, d, t)
    requires pos + |rec| <= |data| && data[pos..pos + |rec|] == rec
    ensures ReadRecord(data, pos) == Some(((term, ps), pos + |rec|))
  {
    EncodedLength(Deltas(ps));
    EncodedLength(Tfs(ps));
    DecodeOfBlocks(ps);
    ReadBlocksOf(data, pos, term, d, t);
  }

  /** The fields and blocks written at pos read back. */
  lemma ReadBlocksOf(data: Bytes, pos: nat, term: Bytes, d: Bytes, t: Bytes)
    requires |term| < TWO64 && |d| < TWO64 && |t| < TWO64
    requires pos + |Header(term, |d|, |t|) + d + t| <= |data|
    requires data[pos..pos + |Header(term, |d|, |t|) + d + t|] == Header(term, |d|, |t|) + d + t
    ensures ReadBlocks(data, pos) == Some(((term, d, t), pos + |Header(term, |d|, |t|) + d + t|))
  {
    var h := Header(term, |d|, |t|);
    var p4 := pos + |h|;
    var p5 := p4 + |d|;
    assert h + d + t == h + (d + t);
    ReadHeaderOf(data, pos, term, |d|, |t|, d + t);
    ReadRawFront(data, p4, d, t);
    assert data[p5..p5 + |t|] == t;
  }

  /** Record k of entries, wherever it lies, reads back. */
  lemma ReadPartOf(data: Bytes, p: nat, entries: seq<(Bytes, seq<Posting>)>, k: nat)
    requires Storable(entries) && k < |entries|
    requires p + |RecordParts(entries)[k]| <= |data| && data[p..p + |RecordParts(entries)[k]|] == RecordParts(entries)[k]
    ensures ReadRecord(data, p) == Some((entries[k], p + |RecordParts(entries)[k]|))
  {
    var (term, ps) := entries[k];
    assert RecordParts(entries)[k] == TermRecord(term, ps);
    ReadRecordOf(data, p, term, ps);
  }

  /** Records written one after another from pos read back in order. */
  lemma ReadRecordsAt(data: Bytes, pos: nat, entries: seq<(Bytes, seq<Posting>)>)
    requires Storable(entries) && PartsAt(data, pos, RecordParts(entries))
    ensures ReadRecords(data, pos, |entries|) == entries
  {
    RecordsReadBack(data, entries);
    ReadManyAt(ReadRecord, data, pos, RecordParts(entries), entries);
  }

  /** Every record, wherever it lies in data, reads back as its entry. */
  lemma RecordsReadBack(data: Bytes, entries: seq<(Bytes, seq<Posting>)>)
    requires Storable(entries)
    ensures ReadsBack(ReadRecord, data, RecordParts(entries), entries)
  {
    var parts := RecordParts(entries);
    forall k, p: nat | 0 <= k < |parts| && p + |parts[k]| <= |data| && data[p..p + |parts[k]|] == parts[k]
      ensures ReadRecord(data, p) == Some((entries[k], p + |parts[k]|))
    {
      ReadPartOf(data, p, entries, k);
    }
    ReadsBackOf(ReadRecord, data, parts, entries);
  }

  /** Round trip: loading what save wrote gives back totalDocs and every
      term's postings in the order they were written. */
  lemma LoadOfImage(totalDocs: U64, entries: seq<(Bytes, seq<Posting>)>, previous: U64)
    requires Storable(entries)
    ensures LoadedTotal(Image(totalDocs, entries), previous) == totalDocs
    ensures LoadedRecords(Image(totalDocs, entries)) == entries
  {
    var data := Image(totalDocs, entries);
    var body := Concat(RecordParts(entries));
    SliceParts(data, 0, SizeField(totalDocs) + SizeField(|entries|), body);
    SliceParts(data, 0, SizeField(totalDocs), SizeField(|entries|));
    ReadSizeField(data, 0, totalDocs);
    ReadSizeField(data, 8, |entries|);
    PartsAtOf(data, 16, RecordParts(entries));
    ReadRecordsAt(data, 16, entries);
  }

  /** Every size save writes for the index m fits in a size_t. */
  ghost predicate StorableMap(m: PostingLists) {
    && |m| < TWO64
    && forall t :: t in m ==> |t| < TWO64 && 5 * |m[t]| < TWO64
  }

  /** save then load: whatever enumeration order save used, loading its
      image restores totalDocs and exactly the postings of the index. */
  lemma LoadOfSave(totalDocs: U64, order: seq<(Bytes, seq<Posting>)>, m: PostingLists, previous: U64)
    requires IsEnumeration(order, m) && StorableMap(m)
    ensures LoadedTotal(Image(totalDocs, order), previous) == totalDocs
    ensures MapOf(LoadedRecords(Image(totalDocs, order))) == m
  {
    EnumerationRebuilds(order, m);
    assert Storable(order) by {
      forall i | 0 <= i < |order|
        ensures |order[i].0| < TWO64 && 5 * |order[i].1| < TWO64
      {
        assert order[i].0 in m;
      }
    }
    LoadOfImage(totalDocs, order, previous);
  }

  // ---- the exports ----

  /** The (term, docIds) records exportToBooleanIndex writes, in order. */
  function DocIdEntries(entries: seq<(Bytes, seq<Posting>)>): (r: seq<(Bytes, seq<U32>)>)
    ensures |r| == |entries|
  {
    seq(|entries|, i requires 0 <= i < |entries| => (entries[i].0, DocIds(entries[i].1)))
  }

  /** The boolean view of an index: each term's docIds without frequencies. */
  function DocIdMap(m: PostingLists): BooleanIndexing.IdLists {
    map t | t in m :: DocIds(m[t])
  }

  /** The records exportToBooleanIndex writes enumerate the boolean view of
      the index exactly when the traverse enumerates the index. */
  lemma ExportEnumerates(order: seq<(Bytes, seq<Posting>)>, m: PostingLists)
    requires IsEnumeration(order, m)
    ensures IsEnumeration(DocIdEntries(order), DocIdMap(m))
  {
    var e := DocIdEntries(order);
    var dm := DocIdMap(m);
    forall i | 0 <= i < |e|
      ensures e[i].0 in dm && dm[e[i].0] == e[i].1
    {
      assert order[i].0 in m;
    }
    forall i, j | 0 <= i < j < |e|
      ensures e[i].0 != e[j].0
    {
      assert e[i].0 == order[i].0 && e[j].0 == order[j].0;
    }
    forall k | k in dm
      ensures KeyIn(e, k)
    {
      assert KeyIn(order, k);
      var i :| 0 <= i < |order| && order[i].0 == k;
      assert e[i].0 == k;
    }
  }

  /** Loading exportToBooleanIndex's output into a BooleanIndex gives every
      term of the index, with its postings' docIds in order, and totalDocs. */
  lemma BooleanLoadOfExport(totalDocs: U64, order: seq<(Bytes, seq<Posting>)>, m: PostingLists, previous: U64)
    requires IsEnumeration(order, m) && StorableMap(m)
    ensures BooleanIndexing.LoadedTotal(BooleanIndexing.Image(totalDocs, DocIdEntries(order)), previous) == totalDocs
    ensures MapOf(BooleanIndexing.LoadedRecords(BooleanIndexing.Image(totalDocs, DocIdEntries(order)))) == DocIdMap(m)
  {
    var e := DocIdEntries(order);
    assert |order| == |m| by {
      EnumerationRebuilds(order, m);
    }
    assert BooleanIndexing.Storable(e) by {
      forall i | 0 <= i < |e|
        ensures |e[i].0| < TWO64 && |e[i].1| < TWO64
      {
        assert order[i].0 in m;
      }
    }
    BooleanIndexing.LoadOfImage(totalDocs, e, previous);
    ExportEnumerates(order, m);
    EnumerationRebuilds(e, DocIdMap(m));
  }

  /** A row of the frequency export: rank, term and the term's collection
      frequency (the sum of its frequencies, in uint64_t arithmetic). */
  datatype FrequencyRow = FrequencyRow(rank: nat, term: Bytes, frequency: U64)

  function CollectionFrequency(ps: seq<Posting>): U64 {
    TotalTf(ps) % TWO64
  }

  /** The (term, frequency) pairs the traverse of exportFrequencyStats
      collects, in traverse order. */
  function Stats(entries: seq<(Bytes, seq<Posting>)>): (r: seq<(Bytes, U64)>)
    ensures |r| == |entries|
  {
    seq(|entries|, i requires 0 <= i < |entries| => (entries[i].0, CollectionFrequency(entries[i].1)))
  }

  function RowStats(rows: seq<FrequencyRow>): (r: seq<(Bytes, U64)>)
    ensures |r| == |rows|
  {
    seq(|rows|, i requires 0 <= i < |rows| => (rows[i].term, rows[i].frequency))
  }

  function Frequency(stat: (Bytes, U64)): real {
    stat.1 as real
  }

  /** The rows exportFrequencyStats writes: ranked from 1, non-increasing in
      frequency, and holding exactly the pairs it collected. */
  ghost predicate IsFrequencyTable(rows: seq<FrequencyRow>, stats: seq<(Bytes, U64)>) {
    && (forall i :: 0 <= i < |rows| ==> rows[i].rank == i + 1)
    && (forall i, j :: 0 <= i < j < |rows| ==> rows[i].frequency >= rows[j].frequency)
    && multiset(RowStats(rows)) == multiset(stats)
  }

  /** A frequency table of an enumeration of m has one row per term of m,
      each with that term's collection frequency. */
  lemma FrequencyTableOfIndex(rows: seq<FrequencyRow>, order: seq<(Bytes, seq<Posting>)>, m: PostingLists)
    requires IsEnumeration(order, m) && IsFrequencyTable(rows, Stats(order))
    ensures |rows| == |m|
    ensures forall i :: 0 <= i < |rows| ==>
      rows[i].term in m && rows[i].frequency == CollectionFrequency(m[rows[i].term])
    ensures forall t :: t in m ==> exists i :: 0 <= i < |rows| && rows[i].term == t
  {
    EnumerationRebuilds(order, m);
    var rs := RowStats(rows);
    var st := Stats(order);
    assert |rows| == |m| by {
      assert |multiset(rs)| == |multiset(st)|;
    }
    forall i | 0 <= i < |rows|
      ensures rows[i].term in m && rows[i].frequency == CollectionFrequency(m[rows[i].term])
    {
      assert rs[i] in multiset(st);
      var j :| 0 <= j < |st| && st[j] == rs[i];
      assert order[j].0 in m;
    }
    forall t | t in m
      ensures exists i :: 0 <= i < |rows| && rows[i].term == t
    {
      assert KeyIn(order, t);
      var j :| 0 <= j < |order| && order[j].0 == t;
      assert st[j] in multiset(rs);
      var i :| 0 <= i < |rs| && rs[i] == st[j];
      assert rows[i].term == t;
    }
  }

  // ---- the per-term steps of save and the exports ----

  /** The traverse callback of save: the two lists, compressed, and the record. */
  method WriteRecord(term: Bytes, postings: seq<Posting>) returns (record: Bytes)
    ensures record == TermRecord(term, postings)
  {
    var deltaDocIds: seq<U32> := [];
    var tfs: seq<U32> := [];
    var previousDocId: U32 := 0;
    for i := 0 to |postings|
      invariant deltaDocIds == Deltas(postings)[..i]
      invariant tfs == Tfs(postings)[..i]
      invariant previousDocId == if i == 0 then 0 else postings[i - 1].docId
    {
      var p := postings[i];
      deltaDocIds := deltaDocIds + [(p.docId - previousDocId) % TWO32];
      previousDocId := p.docId;
      tfs := tfs + [p.termFrequency];
    }
    assert deltaDocIds == Deltas(postings) && tfs == Tfs(postings);
    var compressedDeltas := CompressList(deltaDocIds);
    var compressedTfs := CompressList(tfs);
    record := SizeField(|term|) + term + SizeField(|compressedDeltas|) + SizeField(|compressedTfs|)
      + compressedDeltas + compressedTfs;
    assert record == BlocksRecord(term, compressedDeltas, compressedTfs);
  }

  method WriteRecords(entries: seq<(Bytes, seq<Posting>)>) returns (body: Bytes)
    ensures body == Concat(RecordParts(entries))
  {
    body := [];
    ghost var parts := RecordParts(entries);
    for i := 0 to |entries|
      invariant body == Concat(parts[..i])
    {
      var record := WriteRecord(entries[i].0, entries[i].1);
      body := body + record;
      ConcatSnoc(parts, i);
    }
    assert parts[..|entries|] == parts;
  }

  /** The traverse callback of exportToBooleanIndex, over all terms. */
  method WriteDocIdRecords(entries: seq<(Bytes, seq<Posting>)>) returns (body: Bytes)
    ensures body == Concat(BooleanIndexing.RecordParts(DocIdEntries(entries)))
  {
    body := [];
    ghost var parts := BooleanIndexing.RecordParts(DocIdEntries(entries));
    for i := 0 to |entries|
      invariant body == Concat(parts[..i])
    {
      var (term, postings) := entries[i];
      var record := SizeField(|term|) + term + SizeField(|postings|);
      ghost var head := record;
      for j := 0 to |postings|
        invariant record == head + BooleanIndexing.IdFields(DocIds(postings)[..j])
      {
        record := record + U32Field(postings[j].docId);
        assert DocIds(postings)[..j + 1][..j] == DocIds(postings)[..j];
      }
      assert DocIds(postings)[..|postings|] == DocIds(postings);
      body := body + record;
      ConcatSnoc(parts, i);
    }
    assert parts[..|entries|] == parts;
  }

  /** The collectionFreq loop: the frequencies summed in uint64_t. */
  method SumFrequencies(postings: seq<Posting>) returns (collectionFreq: U64)
    ensures collectionFreq == CollectionFrequency(postings)
  {
    collectionFreq := 0;
    for i := 0 to |postings|
      invariant collectionFreq == TotalTf(postings[..i]) % TWO64
    {
      assert postings[..i + 1][..i] == postings[..i];
      collectionFreq := (collectionFreq + postings[i].termFrequency) % TWO64;
    }
    assert postings[..|postings|] == postings;
  }

  /** The load loop over one term's two blocks. */
  method DecodeBlocks(compressedDeltas: Bytes, compressedTfs: Bytes) returns (postings: seq<Posting>)
    ensures postings == DecodePostings(compressedDeltas, compressedTfs, 0, 0, 0)
  {
    postings := [];
    var posD := 0;
    var posT := 0;
    var currentDocId: U32 := 0;
    while posD < |compressedDeltas|
      invariant DecodePostings(compressedDeltas, compressedTfs, 0, 0, 0)
        == postings + DecodePostings(compressedDeltas, compressedTfs, posD, posT, currentDocId)
      decreases |compressedDeltas| - posD
    {
      if !NoOverlongGroup(compressedDeltas, posD) || !NoOverlongGroup(compressedTfs, posT) {
        break;
      }
      ghost var rest := DecodePairs(compressedDeltas, compressedTfs, posD, posT);
      var delta, tf;
      delta, posD := DecodeVarByte(compressedDeltas, posD);
      tf, posT := DecodeVarByte(compressedTfs, posT);
      assert rest == [(delta, tf)] + DecodePairs(compressedDeltas, compressedTfs, posD, posT);
      currentDocId := (currentDocId + delta) % TWO32;
      postings := postings + [Posting(currentDocId, tf)];
    }
  }

  /** The reads of termLen, the term, sizeDeltas and sizeTfs. */
  method ReadTermHeader(data: Bytes, pos: nat) returns (r: Option<((Bytes, U64, U64), nat)>)
    ensures r == ReadHeader(data, pos)
  {
    var termLen := ReadSize(data, pos);
    if termLen.None? {
      return None;
    }
    var term := ReadRaw(data, termLen.value.1, termLen.value.0);
    if term.None? {
      return None;
    }
    var sizeDeltas := ReadSize(data, term.value.1);
    if sizeDeltas.None? {
      return None;
    }
    var sizeTfs := ReadSize(data, sizeDeltas.value.1);
    if sizeTfs.None? {
      return None;
    }
    return Some(((term.value.0, sizeDeltas.value.0, sizeTfs.value.0), sizeTfs.value.1));
  }

  /** One iteration of load's term loop, up to the insert. */
  method ReadTermRecord(data: Bytes, pos: nat) returns (r: Option<((Bytes, seq<Posting>), nat)>)
    ensures r == ReadRecord(data, pos)
  {
    var header := ReadTermHeader(data, pos);
    if header.None? {
      return None;
    }
    var ((term, sizeDeltas, sizeTfs), p4) := header.value;
    var compressedDeltas := ReadRaw(data, p4, sizeDeltas);
    if compressedDeltas.None? {
      return None;
    }
    var compressedTfs := ReadRaw(data, compressedDeltas.value.1, sizeTfs);
    if compressedTfs.None? {
      return None;
    }
    var postings := DecodeBlocks(compressedDeltas.value.0, compressedTfs.value.0);
    return Some(((term, postings), compressedTfs.value.1));
  }

  /** The reads of load's term loop. */
  method ReadTermRecords(data: Bytes, start: nat, count: nat) returns (records: seq<(Bytes, seq<Posting>)>)
    ensures records == ReadRecords(data, start, count)
  {
    records := [];
    var pos := start;
    var i := 0;
    while i < count
      invariant i <= count
      invariant ReadRecords(data, start, count) == records + ReadRecords(data, pos, count - i)
      decreases count - i
    {
      var record := ReadTermRecord(data, pos);
      if record.None? {
        break;
      }
      var (entry, next) := record.value;
      ReadRecordsStep(data, pos, count - i, entry, next);
      records := records + [entry];
      pos := next;
      i := i + 1;
    }
  }

  /** ++totalDocs on a size_t: one more, back to 0 after 2^64 - 1. */
  function NextCount(n: U64): (r: U64)
    ensures r == if n == TWO64 - 1 then 0 else n + 1
  {
    (n + 1) % TWO64
  }

  /** The index object. The table is the HashMap of the source with
      std::hash<std::string> given as the hash parameter. */
  class InvertedIndex {
    const index: HashMap<Bytes, seq<Posting>>
    var totalDocs: U64
    ghost var Repr: set<object>

    ghost predicate Valid()
      reads this, Repr
    {
      && this in Repr && index in Repr && index.Repr <= Repr && this !in index.Repr
      && index.Valid()
    }

    /** The postings the index stands for. */
    ghost function Terms(): PostingLists
      reads this, index
    {
      index.Contents
    }

    /** An empty index: a 1009-bucket table and totalDocs 0. */
    constructor (hash: Bytes -> nat)
      ensures Valid() && fresh(Repr)
      ensures Terms() == map[] && totalDocs == 0
    {
      index := new HashMap(1009, hash);
      totalDocs := 0;
      new;
      Repr := {this} + index.Repr;
    }

    /** addTerm: an unseen term is inserted with [(docId, 1)]; otherwise the
        stored list is updated in place. totalDocs does not change. */
    method AddTerm(term: Bytes, docId: U32)
      requires Valid()
      modifies Repr
      ensures Valid() && fresh(Repr - old(Repr))
      ensures Terms() == AddTermTo(old(Terms()), term, docId)
      ensures totalDocs == old(totalDocs)
    {
      var list := index.Get(term);
      if list.None? {
        index.Insert(term, [Posting(docId, 1)]);
        Repr := Repr + index.Repr;
      } else {
        var ps := list.value;
        if ps != [] && ps[|ps| - 1].docId == docId {
          var last := ps[|ps| - 1];
          index.Put(term, ps[|ps| - 1 := Posting(docId, (last.termFrequency + 1) % TWO32)]);
        } else {
          index.Put(term, ps + [Posting(docId, 1)]);
        }
      }
    }

    /** getPostings: the stored postings, or None (nullptr) for an
        absent term. */
    method GetPostings(term: Bytes) returns (r: Option<seq<Posting>>)
      requires Valid()
      ensures r == if term in Terms() then Some(Terms()[term]) else None
    {
      r := index.Get(term);
    }

    /** incrementDocCount: totalDocs + 1 in size_t arithmetic. */
    method IncrementDocCount()
      requires Valid()
      modifies this
      ensures Valid() && Repr == old(Repr)
      ensures totalDocs == NextCount(old(totalDocs)) && Terms() == old(Terms())
    {
      totalDocs := NextCount(totalDocs);
    }

    /** getTotalDocs */
    function GetTotalDocs(): (r: U64)
      reads this
      ensures r == totalDocs
    {
      totalDocs
    }

    /** save: canOpen says whether the output file opens. If it does not,
        save returns false and writes nothing; otherwise the file is the image
        of the index, with the terms in traverse order, some enumeration of
        the index (order). */
    method Save(canOpen: bool) returns (ok: bool, file: Option<Bytes>, ghost order: seq<(Bytes, seq<Posting>)>)
      requires Valid()
      ensures ok == canOpen && (file.Some? <==> canOpen)
      ensures canOpen ==> IsEnumeration(order, Terms()) && |order| == |Terms()|
      ensures canOpen ==> file == Some(Image(totalDocs, order))
    {
      if !canOpen {
        return false, None, [];
      }
      var entries := index.Traverse();
      order := entries;
      var body := WriteRecords(entries);
      ok, file := true, Some(SizeField(totalDocs) + SizeField(|entries|) + body);
    }

    /** load: None stands for a file that cannot be opened, which leaves the
        index as it was. Otherwise the table is cleared, totalDocs read, and
        each record read is inserted, a later record for the same term
        replacing an earlier one. */
    method Load(file: Option<Bytes>) returns (ok: bool)
      requires Valid()
      modifies Repr
      ensures Valid() && fresh(Repr - old(Repr))
      ensures file.None? ==> !ok && Terms() == old(Terms()) && totalDocs == old(totalDocs)
      ensures file.Some? ==> ok && Terms() == MapOf(LoadedRecords(file.value))
      ensures file.Some? ==> totalDocs == LoadedTotal(file.value, old(totalDocs))
    {
      if file.None? {
        return false;
      }
      ok := true;
      var data := file.value;
      index.Clear();
      var total := ReadSize(data, 0);
      if total.None? {
        return;
      }
      totalDocs := total.value.0;
      var termCount := ReadSize(data, 8);
      if termCount.None? {
        return;
      }
      var records := ReadTermRecords(data, 16, termCount.value.0);
      InsertEntries(records);
    }

    /** The index.insert calls of load's term loop, in order. */
    method InsertEntries(entries: seq<(Bytes, seq<Posting>)>)
      requires Valid()
      modifies Repr
      ensures Valid() && fresh(Repr - old(Repr))
      ensures Terms() == InsertAll(old(Terms()), entries)
      ensures totalDocs == old(totalDocs)
    {
      for i := 0 to |entries|
        invariant Valid() && fresh(Repr - old(Repr))
        invariant totalDocs == old(totalDocs)
        invariant Terms() == InsertAll(old(Terms()), entries[..i])
      {
        assert entries[..i + 1][..i] == entries[..i];
        index.Insert(entries[i].0, entries[i].1);
        Repr := Repr + index.Repr;
      }
      assert entries[..|entries|] == entries;
    }

    /** exportFrequencyStats: the rows of the CSV file it writes, or None
        when the file does not open (canOpen false) and nothing is written. */
    method ExportFrequencyStats(canOpen: bool) returns (table: Option<seq<FrequencyRow>>, ghost order: seq<(Bytes, seq<Posting>)>)
      requires Valid()
      ensures table.Some? <==> canOpen
      ensures canOpen ==> IsEnumeration(order, Terms()) && |order| == |Terms()|
      ensures canOpen ==> IsFrequencyTable(table.value, Stats(order))
    {
      if !canOpen {
        return None, [];
      }
      var entries := index.Traverse();
      order := entries;
      var stats: seq<(Bytes, U64)> := [];
      for i := 0 to |entries|
        invariant stats == Stats(entries)[..i]
      {
        var collectionFreq := SumFrequencies(entries[i].1);
        stats := stats + [(entries[i].0, collectionFreq)];
      }
      assert stats == Stats(entries);
      var sorted := SortDescending(stats, Frequency);
      var rows := [];
      for i := 0 to |sorted|
        invariant |rows| == i
        invariant forall k :: 0 <= k < i ==> rows[k] == FrequencyRow(k + 1, sorted[k].0, sorted[k].1)
      {
        rows := rows + [FrequencyRow(i + 1, sorted[i].0, sorted[i].1)];
      }
      assert RowStats(rows) == sorted;
      forall i, j | 0 <= i < j < |rows|
        ensures rows[i].frequency >= rows[j].frequency
      {
        assert Frequency(sorted[i]) >= Frequency(sorted[j]);
      }
      table := Some(rows);
    }

    /** exportToBooleanIndex: the BooleanIndex file image of the index, or
        None when the file does not open (canOpen false) and nothing is
        written. */
    method ExportToBooleanIndex(canOpen: bool) returns (file: Option<Bytes>, ghost order: seq<(Bytes, seq<Posting>)>)
      requires Valid()
      ensures file.Some? <==> canOpen
      ensures canOpen ==> IsEnumeration(order, Terms()) && |order| == |Terms()|
      ensures canOpen ==> file == Some(BooleanIndexing.Image(totalDocs, DocIdEntries(order)))
    {
      if !canOpen {
        return None, [];
      }
      var entries := index.Traverse();
      order := entries;
      var body := WriteDocIdRecords(entries);
      file := Some(SizeField(totalDocs) + SizeField(|entries|) + body);
    }
  }
}
