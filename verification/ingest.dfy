/** The helpers of main.cpp that the index build uses: the URL table file
    (saveUrls, loadUrls) and the per-document callback that records a
    document's URL and feeds its lemmas to the InvertedIndex. A file is its
    bytes; the HTML cleaner, the tokenizer (with its UTF-8 conversions) and
    the lemmatizer are parameters. */
module Ingestion {
  import opened Common
  import opened InvertedIndexing
  import opened QueryLexing

  /* ---------------- the URL table ---------------- */

  /** One URL as saveUrls writes it: its length, then its bytes. */
  function UrlRecord(url: Bytes): (r: Bytes)
    ensures |r| == 8 + |url|
  {
    SizeField(|url|) + url
  }

  function UrlParts(urls: seq<Bytes>): (r: seq<Bytes>)
    ensures |r| == |urls|
  {
    seq(|urls|, i requires 0 <= i < |urls| => UrlRecord(urls[i]))
  }

  /** The file saveUrls writes: the URL count, then each URL's record. */
  function UrlsImage(urls: seq<Bytes>): Bytes {
    SizeField(|urls|) + Concat(UrlParts(urls))
  }

  /** Reading one URL record at pos. */
  function ReadUrl(data: Bytes, pos: nat): Option<(Bytes, nat)> {
    match ReadSize(data, pos)
    case None => None
    case Some((len, next)) => ReadRaw(data, next, len)
  }

  /** The URLs loadUrls reads from a file's bytes: as many records as the
      count says, stopping where the data ends. */
  function LoadedUrls(data: Bytes): seq<Bytes> {
    match ReadSize(data, 0)
    case None => []
    case Some((count, _)) => ReadMany(ReadUrl, data, 8, count)
  }

  /** Every length saveUrls writes fits in a size_t. */
  ghost predicate StorableUrls(urls: seq<Bytes>) {
    |urls| < TWO64 && forall i :: 0 <= i < |urls| ==> |urls[i]| < TWO64
  }

  /** A URL record, wherever it lies, reads back as its URL. */
  lemma ReadUrlOf(data: Bytes, pos: nat, url: Bytes)
    requires |url| < TWO64
    requires pos + |UrlRecord(url)| <= |data| && data[pos..pos + |UrlRecord(url)|] == UrlRecord(url)
    ensures ReadUrl(data, pos) == Some((url, pos + |UrlRecord(url)|))
  {
    ReadSizeFront(data, pos, |url|, url);
    ReadRawFront(data, pos + 8, url, []);
  }

  /** Round trip: loading what saveUrls wrote gives back the URL vector. */
  lemma LoadOfSavedUrls(urls: seq<Bytes>)
    requires StorableUrls(urls)
    ensures LoadedUrls(UrlsImage(urls)) == urls
  {
    var data := UrlsImage(urls);
    var parts := UrlParts(urls);
    ReadSizeFront(data, 0, |urls|, Concat(parts));
    PartsAtOf(data, 8, parts);
    UrlsReadBack(data, urls);
    ReadManyAt(ReadUrl, data, 8, parts, urls);
  }

  /** Every URL record, wherever it lies in data, reads back as its URL. */
  lemma UrlsReadBack(data: Bytes, urls: seq<Bytes>)
    requires StorableUrls(urls)
    ensures ReadsBack(ReadUrl, data, UrlParts(urls), urls)
  {
    var parts := UrlParts(urls);
    forall k, p: nat | 0 <= k < |parts| && p + |parts[k]| <= |data| && data[p..p + |parts[k]|] == parts[k]
      ensures ReadUrl(data, p) == Some((urls[k], p + |parts[k]|))
    {
      ReadUrlOf(data, p, urls[k]);
    }
    ReadsBackOf(ReadUrl, data, parts, urls);
  }

  /** saveUrls: canOpen says whether the output file opens. If it does
      not, saveUrls returns false and writes nothing; otherwise the file is
      the count, then each URL's length and bytes. */
  method SaveUrls(urls: seq<Bytes>, canOpen: bool) returns (ok: bool, file: Option<Bytes>)
    ensures ok == canOpen
    ensures file == if canOpen then Some(UrlsImage(urls)) else None
  {
    if !canOpen {
      return false, None;
    }
    var out := SizeField(|urls|);
    for i := 0 to |urls|
      invariant out == SizeField(|urls|) + Concat(UrlParts(urls)[..i])
    {
      ConcatSnoc(UrlParts(urls), i);
      out := out + UrlRecord(urls[i]);
    }
    assert UrlParts(urls)[..|urls|] == UrlParts(urls);
    ok, file := true, Some(out);
  }

  /** loadUrls: None stands for a file that cannot be opened, which
      returns false and leaves urls as they were. Otherwise urls is
      cleared and refilled from the file. */
  method LoadUrls(file: Option<Bytes>, urls: seq<Bytes>) returns (ok: bool, loaded: seq<Bytes>)
    ensures file.None? ==> !ok && loaded == urls
    ensures file.Some? ==> ok && loaded == LoadedUrls(file.value)
  {
    if file.None? {
      return false, urls;
    }
    ok := true;
    var data := file.value;
    loaded := [];
    var count := ReadSize(data, 0);
    if count.None? {
      return;
    }
    var n := count.value.0;
    var pos := 8;
    var i := 0;
    while i < n
      invariant i <= n
      invariant ReadMany(ReadUrl, data, 8, n) == loaded + ReadMany(ReadUrl, data, pos, n - i)
      decreases n - i
    {
      var len := ReadSize(data, pos);
      if len.None? {
        break;
      }
      var url := ReadRaw(data, pos + 8, len.value.0);
      if url.None? {
        break;
      }
      loaded := loaded + [url.value.0];
      pos := url.value.1;
      i := i + 1;
    }
    NoMoreUrls(data, pos, n - i, i < n);
  }

  /** Where the loop of loadUrls stops early, nothing more can be read. */
  lemma NoMoreUrls(data: Bytes, pos: nat, left: nat, early: bool)
    requires early ==> ReadUrl(data, pos).None?
    requires !early ==> left == 0
    ensures ReadMany(ReadUrl, data, pos, left) == []
  {
  }

  /* ---------------- the per-document callback ---------------- */

  /** A document from the crawl store. */
  datatype RawDocument = RawDocument(id: U32, mongoId: Bytes, url: Bytes, html: Bytes)

  /** One addTerm call per term, all for docId. */
  function TermCalls(terms: seq<Bytes>, docId: U32): (r: seq<(Bytes, U32)>)
    ensures |r| == |terms|
  {
    seq(|terms|, k requires 0 <= k < |terms| => (terms[k], docId))
  }

  /** docUrls resized, when it is too short, to hold index id, with url
      stored there; every other entry is the old one or empty. The uint32_t
      sum id + 1 wraps to 0 at the largest id, where resize(0) empties the
      vector and the store that follows is out of range (undefined
      behaviour), so that id is excluded. */
  function RecordUrl(docUrls: seq<Bytes>, id: U32, url: Bytes): (r: seq<Bytes>)
    requires id < TWO32 - 1
    ensures |r| == if |docUrls| <= id then id + 1 else |docUrls|
    ensures r[id] == url
    ensures forall k :: 0 <= k < |r| && k != id ==> r[k] == if k < |docUrls| then docUrls[k] else []
  {
    var sized := if |docUrls| <= id then docUrls + seq(id + 1 - |docUrls|, _ => []) else docUrls;
    sized[id := url]
  }

  /** The lemmas a document's HTML yields: the non-empty lemmas of the
      tokens of its clean text. */
  function DocumentTerms(html: Bytes, getCleanText: Bytes -> Bytes, tokenize: Bytes -> seq<Bytes>,
                         lemmatize: Bytes -> Bytes): seq<Bytes>
  {
    Lemmas(tokenize(getCleanText(html)), lemmatize)
  }

  /** totalDocs after a document with these terms: one more in size_t
      arithmetic when it had any. */
  function Counted(totalDocs: U64, terms: seq<Bytes>): U64 {
    if terms == [] then totalDocs else NextCount(totalDocs)
  }

  /** The ingestion callback. docUrls gets doc.url at doc.id; a document
      with HTML has the non-empty lemmas of its text's tokens added in
      order, and is counted once if it had any. */
  method IngestDocument(doc: RawDocument, docUrls: seq<Bytes>, index: InvertedIndex,
                        getCleanText: Bytes -> Bytes, tokenize: Bytes -> seq<Bytes>, lemmatize: Bytes -> Bytes)
    returns (urls: seq<Bytes>)
    requires doc.id < TWO32 - 1
    requires index.Valid()
    modifies index.Repr
    ensures index.Valid() && fresh(index.Repr - old(index.Repr))
    ensures urls == RecordUrl(docUrls, doc.id, doc.url)
    ensures doc.html == [] ==> index.Terms() == old(index.Terms()) && index.totalDocs == old(index.totalDocs)
    ensures doc.html != [] ==>
              && index.Terms() == AddAll(old(index.Terms()), TermCalls(DocumentTerms(doc.html, getCleanText, tokenize, lemmatize), doc.id))
              && index.totalDocs == Counted(old(index.totalDocs), DocumentTerms(doc.html, getCleanText, tokenize, lemmatize))
  {
    urls := RecordUrl(docUrls, doc.id, doc.url);
    if doc.html == [] {
      return;
    }
    var plainText := getCleanText(doc.html);
    var tokens := tokenize(plainText);
    var terms := LemmatizeAll(tokens, lemmatize);
    assert terms == DocumentTerms(doc.html, getCleanText, tokenize, lemmatize);
    IndexTerms(index, terms, doc.id);
  }

  /** A document's lemmas go into the index, and a document with any is
      counted. */
  method IndexTerms(index: InvertedIndex, terms: seq<Bytes>, docId: U32)
    requires index.Valid()
    modifies index.Repr
    ensures index.Valid() && fresh(index.Repr - old(index.Repr))
    ensures index.Terms() == AddAll(old(index.Terms()), TermCalls(terms, docId))
    ensures index.totalDocs == Counted(old(index.totalDocs), terms)
  {
    if terms == [] {
      assert TermCalls(terms, docId) == [];
      return;
    }
    AddTerms(index, terms, docId);
    index.IncrementDocCount();
  }

  /** The addTerm loop of the callback. */
  method AddTerms(index: InvertedIndex, terms: seq<Bytes>, docId: U32)
    requires index.Valid()
    modifies index.Repr
    ensures index.Valid() && fresh(index.Repr - old(index.Repr))
    ensures index.Terms() == AddAll(old(index.Terms()), TermCalls(terms, docId))
    ensures index.totalDocs == old(index.totalDocs)
  {
    for i := 0 to |terms|
      invariant index.Valid() && fresh(index.Repr - old(index.Repr))
      invariant index.Terms() == AddAll(old(index.Terms()), TermCalls(terms[..i], docId))
      invariant index.totalDocs == old(index.totalDocs)
    {
      assert TermCalls(terms[..i + 1], docId)[..i] == TermCalls(terms[..i], docId);
      index.AddTerm(terms[i], docId);
    }
    assert terms[..|terms|] == terms;
  }

  /** No term's last posting is for a document after docId. */
  ghost predicate AllBehind(m: PostingLists, docId: U32) {
    forall t :: t in m && m[t] != [] ==> m[t][|m[t]| - 1].docId <= docId
  }

  /** A document whose id is at least every id already posted keeps
      every postings list strictly increasing, and leaves no id after its
      own: documents ingested in increasing id order build strictly
      increasing postings. */
  lemma {:induction false} DocumentKeepsIncreasing(m: PostingLists, terms: seq<Bytes>, docId: U32)
    requires InvertedIndexing.AllIncreasing(m) && AllBehind(m, docId)
    ensures InvertedIndexing.AllIncreasing(AddAll(m, TermCalls(terms, docId)))
    ensures AllBehind(AddAll(m, TermCalls(terms, docId)), docId)
  {
    if terms != [] {
      var init := terms[..|terms| - 1];
      var calls := TermCalls(terms, docId);
      assert calls[..|calls| - 1] == TermCalls(init, docId);
      DocumentKeepsIncreasing(m, init, docId);
      var before := AddAll(m, TermCalls(init, docId));
      assert AddAll(m, calls) == AddTermTo(before, terms[|terms| - 1], docId);
      BehindStep(before, terms[|terms| - 1], docId);
    }
  }

  /** One addTerm for docId keeps both facts. */
  lemma BehindStep(m: PostingLists, term: Bytes, docId: U32)
    requires InvertedIndexing.AllIncreasing(m) && AllBehind(m, docId)
    ensures InvertedIndexing.AllIncreasing(AddTermTo(m, term, docId))
    ensures AllBehind(AddTermTo(m, term, docId), docId)
  {
    AddTermKeepsIncreasing(m, term, docId);
  }
}
