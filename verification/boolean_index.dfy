/** BooleanIndex (include/core/BooleanIndex.hpp): term -> list of document
    ids, without term frequencies or compression, and its file layout, which
    is also the layout InvertedIndex::exportToBooleanIndex writes. Files are
    byte sequences: size_t fields take 8 bytes and uint32_t ids 4 bytes,
    least significant byte first. */
module BooleanIndexing {
  import opened Common
  import opened HashTable

  type IdLists = map<Bytes, seq<U32>>

  /** The list addTerm leaves for a term whose list is ids: docId is
      appended unless it is already the last id. */
  function AppendUnique(ids: seq<U32>, docId: U32): seq<U32> {
    if ids != [] && ids[|ids| - 1] == docId then ids else ids + [docId]
  }

  /** The index after addTerm(term, docId). An unseen term gets [docId]. */
  function AddTermTo(m: IdLists, term: Bytes, docId: U32): (r: IdLists)
    ensures term in r && r[term] != [] && r[term][|r[term]| - 1] == docId
    ensures forall t :: t != term ==> (t in r <==> t in m) && (t in m ==> r[t] == m[t])
  {
    if term in m then m[term := AppendUnique(m[term], docId)] else m[term := [docId]]
  }

  /** Adding the same id to the same term twice in a row changes nothing
      the second time: a repeated consecutive id is dropped. */
  lemma AddTermIdempotent(m: IdLists, term: Bytes, docId: U32)
    ensures AddTermTo(AddTermTo(m, term, docId), term, docId) == AddTermTo(m, term, docId)
  {
  }

  /** Every list is sorted and free of duplicates. */
  ghost predicate AllIncreasing(m: IdLists) {
    forall t :: t in m ==> StrictlySorted(m[t])
  }

  /** docId is no smaller than every id already stored for term. */
  ghost predicate NotBehind(m: IdLists, term: Bytes, docId: U32) {
    term in m && m[term] != [] ==> m[term][|m[term]| - 1] <= docId
  }

  /** Fed non-decreasing ids per term, addTerm keeps every list strictly
      increasing. */
  lemma AddTermKeepsIncreasing(m: IdLists, term: Bytes, docId: U32)
    requires AllIncreasing(m) && NotBehind(m, term, docId)
    ensures AllIncreasing(AddTermTo(m, term, docId))
  {
    var r := AddTermTo(m, term, docId);
    forall t | t in r
      ensures StrictlySorted(r[t])
    {
      if t == term && term in m {
        var ids := m[term];
        if !(ids != [] && ids[|ids| - 1] == docId) {
          var s := ids + [docId];
          forall i, j | 0 <= i < j < |s|
            ensures s[i] < s[j]
          {
            if j == |ids| {
              assert s[i] == ids[i] <= ids[|ids| - 1];
            }
          }
        }
      }
    }
  }

  /** The 4-byte ids of a list, in order. */
  function IdFields(ids: seq<U32>): (r: Bytes)
    ensures |r| == 4 * |ids|
  {
    if ids == [] then [] else IdFields(ids[..|ids| - 1]) + U32Field(ids[|ids| - 1])
  }

  /** One term as save writes it: termLen, the term, docCount, the ids. */
  function TermRecord(term: Bytes, ids: seq<U32>): Bytes {
    SizeField(|term|) + term + SizeField(|ids|) + IdFields(ids)
  }

  function RecordParts(entries: seq<(Bytes, seq<U32>)>): (r: seq<Bytes>)
    ensures |r| == |entries|
  {
    seq(|entries|, i requires 0 <= i < |entries| => TermRecord(entries[i].0, entries[i].1))
  }

  /** The whole file: totalDocs, termCount, then the terms in the given order. */
  function Image(totalDocs: U64, entries: seq<(Bytes, seq<U32>)>): Bytes {
    SizeField(totalDocs) + SizeField(|entries|) + Concat(RecordParts(entries))
  }

  /** The uint32_t stored at pos. */
  function U32At(data: Bytes, pos: nat): U32
    requires pos + 4 <= |data|
  {
    Pow256Four();
    FromLittleEndian(data[pos..pos + 4])
  }

  /** Reading count ids at pos, or None when the data ends first. */
  function ReadIds(data: Bytes, pos: nat, count: nat): (r: Option<(seq<U32>, nat)>)
    ensures r.Some? ==> |r.value.0| == count && r.value.1 == pos + 4 * count <= |data|
  {
    if pos + 4 * count <= |data| then
      Some((seq(count, i requires 0 <= i < count => U32At(data, pos + 4 * i)), pos + 4 * count))
    else None
  }

  /** Reading one term record at pos: termLen, the term, docCount, the ids. */
  function ReadRecord(data: Bytes, pos: nat): (r: Option<((Bytes, seq<U32>), nat)>)
    ensures r.Some? ==> pos < r.value.1 <= |data|
  {
    match ReadSize(data, pos)
    case None => None
    case Some((len, p1)) =>
      match ReadRaw(data, p1, len)
      case None => None
      case Some((term, p2)) =>
        match ReadSize(data, p2)
        case None => None
        case Some((count, p3)) =>
          match ReadIds(data, p3, count)
          case None => None
          case Some((ids, p4)) => Some(((term, ids), p4))
  }

  /** The records load inserts: up to count of them, stopping at the first
      that the data cannot hold. */
  function ReadRecords(data: Bytes, pos: nat, count: nat): seq<(Bytes, seq<U32>)> {
    ReadMany(ReadRecord, data, pos, count)
  }

  lemma ReadRecordsStep(data: Bytes, pos: nat, count: nat, entry: (Bytes, seq<U32>), next: nat)
    requires count > 0 && ReadRecord(data, pos) == Some((entry, next))
    ensures ReadRecords(data, pos, count) == [entry] + ReadRecords(data, next, count - 1)
  {
  }

  /** The records load reads from a file. */
  function LoadedRecords(data: Bytes): seq<(Bytes, seq<U32>)> {
    match ReadSize(data, 0)
    case None => []
    case Some(_) =>
      match ReadSize(data, 8)
      case None => []
      case Some((count, _)) => ReadRecords(data, 16, count)
  }

  /** totalDocs after load: the stored value, or the previous one when the
      file is too short to hold it. */
  function LoadedTotal(data: Bytes, previous: U64): U64 {
    match ReadSize(data, 0)
    case None => previous
    case Some((total, _)) => total
  }

  /** Every count written as a size_t fits in one. */
  ghost predicate Storable(entries: seq<(Bytes, seq<U32>)>) {
    && |entries| < TWO64
    && forall i :: 0 <= i < |entries| ==> |entries[i].0| < TWO64 && |entries[i].1| < TWO64
  }

  lemma U32AtField(data: Bytes, pos: nat, v: U32)
    requires pos + 4 <= |data| && data[pos..pos + 4] == U32Field(v)
    ensures U32At(data, pos) == v
  {
    ReadU32Field(data, pos, v);
  }

  /** The ids written at pos read back. */
  lemma {:induction false} ReadIdsOf(data: Bytes, pos: nat, ids: seq<U32>)
    requires pos + 4 * |ids| <= |data| && data[pos..pos + 4 * |ids|] == IdFields(ids)
    ensures ReadIds(data, pos, |ids|) == Some((ids, pos + 4 * |ids|))
  {
    if ids != [] {
      var n := |ids| - 1;
      var init := ids[..n];
      var back := pos + 4 * n;
      assert data[pos..back] == IdFields(init) && data[back..back + 4] == U32Field(ids[n]) by {
        SliceParts(data, pos, IdFields(init), U32Field(ids[n]));
      }
      assert ReadIds(data, pos, n) == Some((init, back)) by {
        ReadIdsOf(data, pos, init);
      }
      assert U32At(data, back) == ids[n] by {
        U32AtField(data, back, ids[n]);
      }
      var r := ReadIds(data, pos, |ids|).value.0;
      forall i | 0 <= i < |ids|
        ensures r[i] == ids[i]
      {
        if i < n {
          assert ReadIds(data, pos, n).value.0[i] == init[i];
        }
      }
      assert r == ids;
    }
  }

  /** A record written at pos reads back, and reading stops right after it. */
  lemma ReadRecordOf(data: Bytes, pos: nat, term: Bytes, ids: seq<U32>)
    requires |term| < TWO64 && |ids| < TWO64
    requires pos + |TermRecord(term, ids)| <= |data|
    requires data[pos..pos + |TermRecord(term, ids)|] == TermRecord(term, ids)
    ensures ReadRecord(data, pos) == Some(((term, ids), pos + |TermRecord(term, ids)|))
  {
    var a := SizeField(|term|);
    var c := SizeField(|ids|);
    var d := IdFields(ids);
    var p1 := pos + 8;
    var p2 := p1 + |term|;
    var p3 := p2 + 8;
    assert TermRecord(term, ids) == a + (term + (c + d));
    ReadSizeFront(data, pos, |term|, term + (c + d));
    ReadRawFront(data, p1, term, c + d);
    ReadSizeFront(data, p2, |ids|, d);
    ReadIdsOf(data, p3, ids);
  }

  /** Record k of entries, wherever it lies, reads back. */
  lemma ReadPartOf(data: Bytes, p: nat, entries: seq<(Bytes, seq<U32>)>, k: nat)
    requires Storable(entries) && k < |entries|
    requires p + |RecordParts(entries)[k]| <= |data| && data[p..p + |RecordParts(entries)[k]|] == RecordParts(entries)[k]
    ensures ReadRecord(data, p) == Some((entries[k], p + |RecordParts(entries)[k]|))
  {
    var (term, ids) := entries[k];
    assert RecordParts(entries)[k] == TermRecord(term, ids);
    ReadRecordOf(data, p, term, ids);
  }

  /** Records written one after another from pos read back in order. */
  lemma ReadRecordsAt(data: Bytes, pos: nat, entries: seq<(Bytes, seq<U32>)>)
    requires Storable(entries) && PartsAt(data, pos, RecordParts(entries))
    ensures ReadRecords(data, pos, |entries|) == entries
  {
    RecordsReadBack(data, entries);
    ReadManyAt(ReadRecord, data, pos, RecordParts(entries), entries);
  }

  /** Every record, wherever it lies in data, reads back as its entry. */
  lemma RecordsReadBack(data: Bytes, entries: seq<(Bytes, seq<U32>)>)
    requires Storable(entries)
    ensures ReadsBack(ReadRecord, data, RecordParts(entries), entries)
  {
    var parts := RecordParts(entries);
    forall k, p: nat | 0 <= k < |parts| && p + |parts[k]| <= |data| && data[p..p + |parts[k]|] == parts[k]
      ensures ReadRecord(data, p) == Some((entries[k], p + |parts[k]|))
    {
      ReadPartOf(data, p, entries, k);
    }
    ReadsBackOf(ReadRecord, data, parts, entries);
  }

  /** Round trip: loading what save (or exportToBooleanIndex) wrote gives
      back totalDocs and every record in the order it was written. */
  lemma LoadOfImage(totalDocs: U64, entries: seq<(Bytes, seq<U32>)>, previous: U64)
    requires Storable(entries)
    ensures LoadedTotal(Image(totalDocs, entries), previous) == totalDocs
    ensures LoadedRecords(Image(totalDocs, entries)) == entries
  {
    var data := Image(totalDocs, entries);
    var body := Concat(RecordParts(entries));
    SliceParts(data, 0, SizeField(totalDocs) + SizeField(|entries|), body);
    SliceParts(data, 0, SizeField(totalDocs), SizeField(|entries|));
    ReadSizeField(data, 0, totalDocs);
    ReadSizeField(data, 8, |entries|);
    PartsAtOf(data, 16, RecordParts(entries));
    ReadRecordsAt(data, 16, entries);
  }

  /** Every count save writes for the index m fits in a size_t. */
  ghost predicate StorableMap(m: IdLists) {
    && |m| < TWO64
    && forall t :: t in m ==> |t| < TWO64 && |m[t]| < TWO64
  }

  /** save then load: whatever enumeration order save used, loading its
      image restores totalDocs and exactly the id lists of the index. */
  lemma LoadOfSave(totalDocs: U64, order: seq<(Bytes, seq<U32>)>, m: IdLists, previous: U64)
    requires IsEnumeration(order, m) && StorableMap(m)
    ensures LoadedTotal(Image(totalDocs, order), previous) == totalDocs
    ensures MapOf(LoadedRecords(Image(totalDocs, order))) == m
  {
    EnumerationRebuilds(order, m);
    assert Storable(order) by {
      forall i | 0 <= i < |order|
        ensures |order[i].0| < TWO64 && |order[i].1| < TWO64
      {
        assert order[i].0 in m;
      }
    }
    LoadOfImage(totalDocs, order, previous);
  }

  /** The in.read loop over the ids of one record. */
  method ReadIdList(data: Bytes, pos: nat, count: nat) returns (r: Option<(seq<U32>, nat)>)
    requires pos <= |data|
    ensures r == ReadIds(data, pos, count)
  {
    var ids: seq<U32> := [];
    var p := pos;
    for j := 0 to count
      invariant p == pos + 4 * j <= |data|
      invariant ids == seq(j, i requires 0 <= i < j => U32At(data, pos + 4 * i))
    {
      if p + 4 > |data| {
        return None;
      }
      ids := ids + [U32At(data, p)];
      p := p + 4;
    }
    return Some((ids, p));
  }

  /** One iteration of load's term loop: the fields of one record. */
  method ReadTermRecord(data: Bytes, pos: nat) returns (r: Option<((Bytes, seq<U32>), nat)>)
    ensures r == ReadRecord(data, pos)
  {
    var len := ReadSize(data, pos);
    if len.None? {
      return None;
    }
    var term := ReadRaw(data, len.value.1, len.value.0);
    if term.None? {
      return None;
    }
    var count := ReadSize(data, term.value.1);
    if count.None? {
      return None;
    }
    var ids := ReadIdList(data, count.value.1, count.value.0);
    if ids.None? {
      return None;
    }
    return Some(((term.value.0, ids.value.0), ids.value.1));
  }

  /** The traverse callback of save: one term record. */
  method WriteRecord(term: Bytes, ids: seq<U32>) returns (record: Bytes)
    ensures record == TermRecord(term, ids)
  {
    record := SizeField(|term|) + term + SizeField(|ids|);
    ghost var head := record;
    for j := 0 to |ids|
      invariant record == head + IdFields(ids[..j])
    {
      record := record + U32Field(ids[j]);
      assert ids[..j + 1][..j] == ids[..j];
    }
    assert ids[..|ids|] == ids;
  }

  /** The records of save's traverse, one after another. */
  method WriteRecords(entries: seq<(Bytes, seq<U32>)>) returns (body: Bytes)
    ensures body == Concat(RecordParts(entries))
  {
    body := [];
    ghost var parts := RecordParts(entries);
    for i := 0 to |entries|
      invariant body == Concat(parts[..i])
    {
      var record := WriteRecord(entries[i].0, entries[i].1);
      body := body + record;
      ConcatSnoc(parts, i);
    }
    assert parts[..|entries|] == parts;
  }

  /** The reads of load's term loop: up to count records from start,
      stopping at the first record the data cannot hold. */
  method ReadTermRecords(data: Bytes, start: nat, count: nat) returns (records: seq<(Bytes, seq<U32>)>)
    ensures records == ReadRecords(data, start, count)
  {
    records := [];
    var pos := start;
    var i := 0;
    while i < count
      invariant i <= count
      invariant ReadRecords(data, start, count) == records + ReadRecords(data, pos, count - i)
      decreases count - i
    {
      var record := ReadTermRecord(data, pos);
      if record.None? {
        break;
      }
      var (entry, next) := record.value;
      ReadRecordsStep(data, pos, count - i, entry, next);
      records := records + [entry];
      pos := next;
      i := i + 1;
    }
  }

  /** The index object. The table is the HashMap of the source with
      std::hash<std::string> given as the hash parameter. */
  class BooleanIndex {
    const index: HashMap<Bytes, seq<U32>>
    var totalDocs: U64
    ghost var Repr: set<object>

    ghost predicate Valid()
      reads this, Repr
    {
      && this in Repr && index in Repr && index.Repr <= Repr && this !in index.Repr
      && index.Valid()
    }

    /** The id lists the index stands for. */
    ghost function Terms(): IdLists
      reads this, index
    {
      index.Contents
    }

    /** An empty index: a 1009-bucket table and totalDocs 0. */
    constructor (hash: Bytes -> nat)
      ensures Valid() && fresh(Repr)
      ensures Terms() == map[] && totalDocs == 0
    {
      index := new HashMap(1009, hash);
      totalDocs := 0;
      new;
      Repr := {this} + index.Repr;
    }

    /** addTerm: an unseen term is inserted with [docId]; otherwise docId is
        pushed onto the stored list unless it is already its last id. */
    method AddTerm(term: Bytes, docId: U32)
      requires Valid()
      modifies Repr
      ensures Valid() && fresh(Repr - old(Repr))
      ensures Terms() == AddTermTo(old(Terms()), term, docId)
      ensures totalDocs == old(totalDocs)
    {
      var list := index.Get(term);
      if list.None? {
        index.Insert(term, [docId]);
        Repr := Repr + index.Repr;
      } else if list.value == [] || list.value[|list.value| - 1] != docId {
        index.Put(term, list.value + [docId]);
      }
    }

    /** getDocIds: the stored list, or None (nullptr) for an absent term. */
    method GetDocIds(term: Bytes) returns (r: Option<seq<U32>>)
      requires Valid()
      ensures r == if term in Terms() then Some(Terms()[term]) else None
    {
      r := index.Get(term);
    }

    /** setTotalDocs */
    method SetTotalDocs(docs: U64)
      requires Valid()
      modifies this
      ensures Valid() && Repr == old(Repr)
      ensures totalDocs == docs && Terms() == old(Terms())
    {
      totalDocs := docs;
    }

    /** getTotalDocs */
    function GetTotalDocs(): (r: U64)
      reads this
      ensures r == totalDocs
    {
      totalDocs
    }

    /** save: canOpen says whether the output file opens. If it does not,
        save returns false and writes nothing; otherwise the file is the image
        of the index, with the terms in traverse order, some enumeration of
        the index (order). */
    method Save(canOpen: bool) returns (ok: bool, file: Option<Bytes>, ghost order: seq<(Bytes, seq<U32>)>)
      requires Valid()
      ensures ok == canOpen && (file.Some? <==> canOpen)
      ensures canOpen ==> IsEnumeration(order, Terms()) && |order| == |Terms()|
      ensures canOpen ==> file == Some(Image(totalDocs, order))
    {
      if !canOpen {
        return false, None, [];
      }
      var entries := index.Traverse();
      order := entries;
      var body := WriteRecords(entries);
      ok, file := true, Some(SizeField(totalDocs) + SizeField(|entries|) + body);
    }

    /** load: None stands for a file that cannot be opened, which leaves the
        index as it was. Otherwise the table is cleared, totalDocs read, and
        each record read is inserted, a later record for the same term
        replacing an earlier one. */
    method Load(file: Option<Bytes>) returns (ok: bool)
      requires Valid()
      modifies Repr
      ensures Valid() && fresh(Repr - old(Repr))
      ensures file.None? ==> !ok && Terms() == old(Terms()) && totalDocs == old(totalDocs)
      ensures file.Some? ==> ok && Terms() == MapOf(LoadedRecords(file.value))
      ensures file.Some? ==> totalDocs == LoadedTotal(file.value, old(totalDocs))
    {
      if file.None? {
        return false;
      }
      ok := true;
      var data := file.value;
      index.Clear();
      var total := ReadSize(data, 0);
      if total.None? {
        return;
      }
      totalDocs := total.value.0;
      var termCount := ReadSize(data, 8);
      if termCount.None? {
        return;
      }
      var records := ReadTermRecords(data, 16, termCount.value.0);
      InsertEntries(records);
    }

    /** The index.insert calls of load's term loop, in order. */
    method InsertEntries(entries: seq<(Bytes, seq<U32>)>)
      requires Valid()
      modifies Repr
      ensures Valid() && fresh(Repr - old(Repr))
      ensures Terms() == InsertAll(old(Terms()), entries)
      ensures totalDocs == old(totalDocs)
    {
      for i := 0 to |entries|
        invariant Valid() && fresh(Repr - old(Repr))
        invariant totalDocs == old(totalDocs)
        invariant Terms() == InsertAll(old(Terms()), entries[..i])
      {
        assert entries[..i + 1][..i] == entries[..i];
        index.Insert(entries[i].0, entries[i].1);
        Repr := Repr + index.Repr;
      }
      assert entries[..|entries|] == entries;
    }
  }
}
