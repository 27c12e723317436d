/** QueryParser::parseTerms and QueryParser::parseBoolean. The tokenizer
    and the lemmatizer are library code here: they are parameters, a
    tokenize from a segment's bytes to its tokens' bytes and a lemmatize
    that may return the empty string. */
module QueryParsing {
  import opened Common
  import opened QueryOperators
  import opened QueryLexing
  import opened ShuntingYard
  import opened RpnEvaluation
  import opened BooleanIndexing

  /** parseTerms: the non-empty lemmas of the query's tokens, in order. */
  method ParseTerms(query: Bytes, tokenize: Bytes -> seq<Bytes>, lemmatize: Bytes -> Bytes)
    returns (cleanTerms: seq<Bytes>)
    ensures cleanTerms == Lemmas(tokenize(query), lemmatize)
  {
    var rawTokens := tokenize(query);
    cleanTerms := LemmatizeAll(rawTokens, lemmatize);
  }

  /** The docIds parseBoolean returns for query, None when it throws. */
  function BooleanQuery(query: Bytes, tokenize: Bytes -> seq<Bytes>, lemmatize: Bytes -> Bytes,
                        terms: IdLists, totalDocs: nat): Option<seq<U32>>
    requires totalDocs < TWO32
  {
    BooleanResult(Rpn(LexAll(Segments(Preprocess(query)), tokenize, lemmatize)), terms, totalDocs)
  }

  /** The set of docIds the query stands for. */
  function QuerySet(query: Bytes, tokenize: Bytes -> seq<Bytes>, lemmatize: Bytes -> Bytes,
                    terms: IdLists, totalDocs: nat): set<int>
  {
    SetResult(Rpn(LexAll(Segments(Preprocess(query)), tokenize, lemmatize)), terms, totalDocs)
  }

  /** parseBoolean: pad the brackets and "!", split at whitespace, lex,
      convert to RPN and evaluate. On an index of strictly increasing
      lists the answer is strictly increasing and is the set the query
      stands for; when every id is below totalDocs it never throws. */
  method ParseBoolean(query: Bytes, index: BooleanIndex, tokenize: Bytes -> seq<Bytes>, lemmatize: Bytes -> Bytes)
    returns (r: Option<seq<U32>>)
    requires index.Valid() && index.totalDocs < TWO32 && AllIncreasing(index.Terms())
    ensures r == BooleanQuery(query, tokenize, lemmatize, index.Terms(), index.totalDocs)
    ensures r.Some? ==> StrictlySorted(r.value)
    ensures r.Some? ==> Elems(r.value) == QuerySet(query, tokenize, lemmatize, index.Terms(), index.totalDocs)
    ensures ListsBelow(index.Terms(), index.totalDocs) ==> r.Some?
  {
    var processedQuery := PreprocessQuery(query);
    var segments := Segments(processedQuery);
    var tokens := Lex(segments, tokenize, lemmatize);
    var rpn := ToRpn(tokens);
    r := EvalRpn(rpn, index);
    BooleanResultMeaning(rpn, index.Terms(), index.totalDocs);
  }
}
