/** The front half of QueryParser: the lemmas of a token list (shared by
    parseTerms, parseBoolean and the ingestion loop), the padding of the
    symbols "(", ")" and "!", the split into whitespace-separated segments
    and the turning of segments into query tokens. */
module QueryLexing {
  import opened Common
  import opened QueryOperators

  /** The non-empty lemmas of tokens, in order. */
  function Lemmas(tokens: seq<Bytes>, lemmatize: Bytes -> Bytes): (r: seq<Bytes>)
    ensures |r| <= |tokens|
    ensures forall k :: 0 <= k < |r| ==> r[k] != []
  {
    if tokens == [] then []
    else
      var word := lemmatize(tokens[|tokens| - 1]);
      Lemmas(tokens[..|tokens| - 1], lemmatize) + (if word != [] then [word] else [])
  }

  /** Every lemma is the lemma of some token, and when no lemma is empty
      there is exactly one per token. */
  lemma {:induction false} LemmasOfTokens(tokens: seq<Bytes>, lemmatize: Bytes -> Bytes)
    ensures forall l :: l in Lemmas(tokens, lemmatize) ==> exists t :: t in tokens && lemmatize(t) == l
    ensures (forall t :: t in tokens ==> lemmatize(t) != []) ==>
              Lemmas(tokens, lemmatize) == seq(|tokens|, i requires 0 <= i < |tokens| => lemmatize(tokens[i]))
  {
    if tokens != [] {
      var init := tokens[..|tokens| - 1];
      LemmasOfTokens(init, lemmatize);
      forall l | l in Lemmas(tokens, lemmatize)
        ensures exists t :: t in tokens && lemmatize(t) == l
      {
        if l in Lemmas(init, lemmatize) {
          var t :| t in init && lemmatize(t) == l;
          assert t in tokens;
        } else {
          assert tokens[|tokens| - 1] in tokens;
        }
      }
    }
  }

  /** The loop of parseTerms over the tokens, dropping empty lemmas. */
  method LemmatizeAll(rawTokens: seq<Bytes>, lemmatize: Bytes -> Bytes) returns (cleanTerms: seq<Bytes>)
    ensures cleanTerms == Lemmas(rawTokens, lemmatize)
  {
    cleanTerms := [];
    for i := 0 to |rawTokens|
      invariant cleanTerms == Lemmas(rawTokens[..i], lemmatize)
    {
      var word := lemmatize(rawTokens[i]);
      if word != [] {
        cleanTerms := cleanTerms + [word];
      }
      assert rawTokens[..i + 1][..i] == rawTokens[..i];
    }
    assert rawTokens[..|rawTokens|] == rawTokens;
  }

  /* ---------------- padding of "(", ")" and "!" ---------------- */

  const SPACE: Byte := 0x20

  /** The symbols that preprocessing surrounds with spaces. */
  predicate IsPadded(b: Byte) {
    b == OPEN || b == CLOSE || b == BANG
  }

  function Padded(b: Byte, symbol: Byte): Bytes {
    if b == symbol then [SPACE, symbol, SPACE] else [b]
  }

  /** s with every occurrence of symbol replaced by " symbol ". */
  function Spaced(s: Bytes, symbol: Byte): Bytes {
    if s == [] then [] else Spaced(s[..|s| - 1], symbol) + Padded(s[|s| - 1], symbol)
  }

  /** std::string::find of a one-byte needle: the first position at or
      after from that holds c. */
  function Find(s: Bytes, c: Byte, from: nat): (r: Option<nat>)
    ensures r.Some? ==> from <= r.value < |s| && s[r.value] == c
    ensures r.Some? ==> forall k :: from <= k < r.value ==> s[k] != c
    ensures r.None? ==> forall k :: from <= k < |s| ==> s[k] != c
    decreases |s| - from
  {
    if from >= |s| then None
    else if s[from] == c then Some(from)
    else Find(s, c, from + 1)
  }

  /** The find/replace loop of parseBoolean for one symbol: each occurrence
      is replaced by " symbol " and the search resumes after the
      replacement, so no occurrence is missed and none is padded twice. */
  method PadSymbol(query: Bytes, symbol: Byte) returns (r: Bytes)
    ensures r == Spaced(query, symbol)
  {
    r := query;
    var pos := 0;
    ghost var i := 0;
    assert query[..0] == [];
    var found := Find(r, symbol, pos);
    while found.Some?
      invariant i <= |query| && r == Spaced(query[..i], symbol) + query[i..]
      invariant pos == |Spaced(query[..i], symbol)|
      invariant found == Find(r, symbol, pos)
      decreases |query| - i
    {
      var p := found.value;
      i := PadReplace(query, symbol, i, pos, r, p);
      r := r[..p] + [SPACE, symbol, SPACE] + r[p + 1..];
      pos := p + 3;
      found := Find(r, symbol, pos);
    }
    PadRest(query, symbol, i, r, pos);
  }

  /** Padding distributes over concatenation. */
  lemma {:induction false} SpacedAppend(a: Bytes, b: Bytes, symbol: Byte)
    ensures Spaced(a + b, symbol) == Spaced(a, symbol) + Spaced(b, symbol)
    decreases |b|
  {
    if b == [] {
      assert a + b == a;
    } else {
      var init := b[..|b| - 1];
      assert (a + b)[..|a + b| - 1] == a + init;
      SpacedAppend(a, init, symbol);
    }
  }

  /** Text without the symbol is left as it is. */
  lemma {:induction false} SpacedNone(s: Bytes, symbol: Byte)
    requires forall k :: 0 <= k < |s| ==> s[k] != symbol
    ensures Spaced(s, symbol) == s
  {
    if s != [] {
      SpacedNone(s[..|s| - 1], symbol);
    }
  }

  /** One replacement: the occurrence found at p in the partly padded
      string is the next one of the original, at index i'-1. */
  lemma PadReplace(s: Bytes, symbol: Byte, i: nat, pos: nat, r: Bytes, p: nat) returns (i': nat)
    requires i <= |s| && r == Spaced(s[..i], symbol) + s[i..] && pos == |Spaced(s[..i], symbol)|
    requires pos <= p < |r| && r[p] == symbol && forall k :: pos <= k < p ==> r[k] != symbol
    ensures i < i' <= |s|
    ensures r[..p] + [SPACE, symbol, SPACE] + r[p + 1..] == Spaced(s[..i'], symbol) + s[i'..]
    ensures p + 3 == |Spaced(s[..i'], symbol)|
  {
    var d := p - pos;
    i' := i + d + 1;
    var done := Spaced(s[..i], symbol);
    var rest := s[i..];
    var gap := s[i..i + d];
    var tail := s[i'..];
    var pad := [SPACE, symbol, SPACE];
    assert rest[..d] == gap && rest[d + 1..] == tail;
    ReplaceAt(r, done, rest, d, p, pad, gap, tail);
    forall k | i <= k < i + d
      ensures s[k] != symbol
    {
      assert r[pos + (k - i)] == rest[k - i];
    }
    SpacedStep(s, symbol, i, d);
  }

  /** Replacing the byte at |a| + d of a + t by pad. */
  lemma ReplaceAt(r: Bytes, a: Bytes, t: Bytes, d: nat, p: nat, pad: Bytes, gap: Bytes, tail: Bytes)
    requires r == a + t && d < |t| && p == |a| + d && gap == t[..d] && tail == t[d + 1..]
    ensures r[..p] + pad + r[p + 1..] == a + gap + pad + tail
    ensures forall k :: |a| <= k < p ==> r[k] == t[k - |a|]
  {
    assert r[..p] == a + gap;
    assert r[p + 1..] == tail;
  }

  /** The next occurrence after i, d bytes on, extends the padded prefix by
      the gap and the padded symbol. */
  lemma SpacedStep(s: Bytes, symbol: Byte, i: nat, d: nat)
    requires i + d < |s| && s[i + d] == symbol
    requires forall k :: i <= k < i + d ==> s[k] != symbol
    ensures Spaced(s[..i + d + 1], symbol) == Spaced(s[..i], symbol) + s[i..i + d] + [SPACE, symbol, SPACE]
  {
    SpacedGap(s, symbol, i, d);
    SpacedLast(s, symbol, i + d);
  }

  lemma SpacedGap(s: Bytes, symbol: Byte, i: nat, d: nat)
    requires i + d <= |s| && forall k :: i <= k < i + d ==> s[k] != symbol
    ensures Spaced(s[..i + d], symbol) == Spaced(s[..i], symbol) + s[i..i + d]
  {
    var gap := s[i..i + d];
    SpacedNone(gap, symbol);
    assert s[..i] + gap == s[..i + d];
    SpacedAppend(s[..i], gap, symbol);
  }

  lemma SpacedLast(s: Bytes, symbol: Byte, j: nat)
    requires j < |s|
    ensures Spaced(s[..j + 1], symbol) == Spaced(s[..j], symbol) + Padded(s[j], symbol)
  {
    var upTo := s[..j + 1];
    assert upTo[..|upTo| - 1] == s[..j];
  }

  /** No occurrence after pos: the rest of the original is already padded. */
  lemma PadRest(s: Bytes, symbol: Byte, i: nat, r: Bytes, pos: nat)
    requires i <= |s| && r == Spaced(s[..i], symbol) + s[i..] && pos == |Spaced(s[..i], symbol)|
    requires Find(r, symbol, pos).None?
    ensures r == Spaced(s, symbol)
  {
    var rest := s[i..];
    forall k | 0 <= k < |rest|
      ensures rest[k] != symbol
    {
      assert r[pos + k] == rest[k];
    }
    SpacedNone(rest, symbol);
    assert s[..i] + rest == s;
    SpacedAppend(s[..i], rest, symbol);
  }

  /** The query after the three padding passes of parseBoolean. */
  function Preprocess(query: Bytes): Bytes {
    Spaced(Spaced(Spaced(query, OPEN), CLOSE), BANG)
  }

  /** The padding loop over the symbols "(", ")" and "!". */
  method PreprocessQuery(query: Bytes) returns (processedQuery: Bytes)
    ensures processedQuery == Preprocess(query)
    ensures processedQuery == PadAll(query)
  {
    processedQuery := query;
    var symbols := [OPEN, CLOSE, BANG];
    for s := 0 to |symbols|
      invariant s == 0 ==> processedQuery == query
      invariant s == 1 ==> processedQuery == Spaced(query, OPEN)
      invariant s == 2 ==> processedQuery == Spaced(Spaced(query, OPEN), CLOSE)
      invariant s == 3 ==> processedQuery == Preprocess(query)
    {
      processedQuery := PadSymbol(processedQuery, symbols[s]);
    }
    ThreePasses(query);
  }

  /** A byte with every padded symbol surrounded by spaces. */
  function PaddedAll(b: Byte): Bytes {
    if IsPadded(b) then [SPACE, b, SPACE] else [b]
  }

  /** The query with all three symbols padded in a single pass. */
  function PadAll(s: Bytes): Bytes {
    if s == [] then [] else PadAll(s[..|s| - 1]) + PaddedAll(s[|s| - 1])
  }

  /** The three passes do what one pass over all three symbols does: a
      later pass never touches the spaces or the symbol an earlier one
      wrote. */
  lemma {:induction false} ThreePasses(query: Bytes)
    ensures Preprocess(query) == PadAll(query)
  {
    if query != [] {
      var init := query[..|query| - 1];
      var b := query[|query| - 1];
      ThreePasses(init);
      var one := Spaced(query, OPEN);
      assert one == Spaced(init, OPEN) + Padded(b, OPEN);
      SpacedAppend(Spaced(init, OPEN), Padded(b, OPEN), CLOSE);
      var two := Spaced(one, CLOSE);
      SpacedAppend(Spaced(Spaced(init, OPEN), CLOSE), Spaced(Padded(b, OPEN), CLOSE), BANG);
      PaddedThrice(b);
    }
  }

  lemma PaddedThrice(b: Byte)
    ensures Spaced(Spaced(Padded(b, OPEN), CLOSE), BANG) == PaddedAll(b)
  {
    if b == OPEN {
      SpacedNone([SPACE, OPEN, SPACE], CLOSE);
      SpacedNone([SPACE, OPEN, SPACE], BANG);
    } else {
      SpacedOne(b, CLOSE);
      if b == CLOSE {
        SpacedNone([SPACE, CLOSE, SPACE], BANG);
      } else {
        SpacedOne(b, BANG);
      }
    }
  }

  lemma SpacedOne(b: Byte, symbol: Byte)
    ensures Spaced([b], symbol) == Padded(b, symbol)
  {
    assert [b][..0] == [];
  }

  /** Once padded, every "(", ")" and "!" has a space on each side. */
  lemma {:induction false} PadAllIsolates(query: Bytes)
    ensures forall k :: 0 <= k < |PadAll(query)| && IsPadded(PadAll(query)[k]) ==>
              0 < k < |PadAll(query)| - 1 && PadAll(query)[k - 1] == SPACE && PadAll(query)[k + 1] == SPACE
  {
    if query != [] {
      var init := query[..|query| - 1];
      PadAllIsolates(init);
      var front := PadAll(init);
      var piece := PaddedAll(query[|query| - 1]);
      var r := PadAll(query);
      assert r == front + piece;
      forall k | 0 <= k < |r| && IsPadded(r[k])
        ensures 0 < k < |r| - 1 && r[k - 1] == SPACE && r[k + 1] == SPACE
      {
        if k < |front| {
          assert r[k] == front[k];
          assert r[k - 1] == front[k - 1] && r[k + 1] == front[k + 1];
        } else {
          assert r[k] == piece[k - |front|];
        }
      }
    }
  }

  predicate NonSpace(b: Byte) {
    b != SPACE
  }

  /** Padding only inserts spaces: the other bytes stay, in order. */
  lemma {:induction false} PadAllKeepsText(query: Bytes)
    ensures Filter(PadAll(query), NonSpace) == Filter(query, NonSpace)
  {
    if query != [] {
      var init := query[..|query| - 1];
      var b := query[|query| - 1];
      PadAllKeepsText(init);
      FilterAppend(PadAll(init), PaddedAll(b), NonSpace);
      assert query == init + [b];
      FilterAppend(init, [b], NonSpace);
      assert Filter(PaddedAll(b), NonSpace) == Filter([b], NonSpace) by {
        if IsPadded(b) {
          assert PaddedAll(b) == [SPACE] + [b, SPACE];
          assert [b, SPACE] == [b] + [SPACE];
          FilterAppend([b], [SPACE], NonSpace);
        }
      }
    }
  }

  /* ---------------- segments ---------------- */

  /** isspace in the C locale: space, \t, \n, \v, \f and \r. */
  predicate IsSpace(b: Byte) {
    b == SPACE || 0x09 <= b <= 0x0D
  }

  predicate InSegment(b: Byte) {
    !IsSpace(b)
  }

  /** The strings `ss >> segment` extracts: the maximal runs of
      non-whitespace bytes. */
  function Segments(s: Bytes): seq<Bytes> {
    Runs(s, InSegment)
  }

  /** After preprocessing, a segment holding "(", ")" or "!" is that symbol
      alone. */
  lemma PaddedSymbolsStandAlone(query: Bytes)
    ensures forall seg, x :: seg in Segments(Preprocess(query)) && x in seg && IsPadded(x) ==> seg == [x]
  {
    ThreePasses(query);
    PadAllIsolates(query);
    RunsIsolated(PadAll(query), InSegment, IsPadded);
  }

  /* ---------------- tokens ---------------- */

  /** Each lemma as a WORD token of precedence 0. */
  function WordTokens(lemmas: seq<Bytes>): (r: seq<Token>)
    ensures |r| == |lemmas|
  {
    seq(|lemmas|, i requires 0 <= i < |lemmas| => Token(lemmas[i], WORD, 0))
  }

  /** The tokens one segment contributes: itself when it is an operator,
      else a WORD for each non-empty lemma of its tokens. */
  function SegmentTokens(segment: Bytes, tokenize: Bytes -> seq<Bytes>, lemmatize: Bytes -> Bytes): seq<Token> {
    match TryParseOperator(segment)
    case Some((kind, prec)) => [Token(segment, kind, prec)]
    case None => WordTokens(Lemmas(tokenize(segment), lemmatize))
  }

  function LexAll(segments: seq<Bytes>, tokenize: Bytes -> seq<Bytes>, lemmatize: Bytes -> Bytes): seq<Token> {
    if segments == [] then []
    else LexAll(segments[..|segments| - 1], tokenize, lemmatize) + SegmentTokens(segments[|segments| - 1], tokenize, lemmatize)
  }

  /** The tokenization loop of parseBoolean over the segments. */
  method Lex(segments: seq<Bytes>, tokenize: Bytes -> seq<Bytes>, lemmatize: Bytes -> Bytes) returns (tokens: seq<Token>)
    ensures tokens == LexAll(segments, tokenize, lemmatize)
  {
    tokens := [];
    for i := 0 to |segments|
      invariant tokens == LexAll(segments[..i], tokenize, lemmatize)
    {
      var segment := segments[i];
      LexStep(segments, i, tokenize, lemmatize);
      var op := TryParseOperator(segment);
      if op.Some? {
        tokens := tokens + [Token(segment, op.value.0, op.value.1)];
      } else {
        var words := LexWords(tokenize(segment), lemmatize);
        tokens := tokens + words;
      }
    }
    assert segments[..|segments|] == segments;
  }

  /** The inner loop over a segment's tokens: a WORD for each non-empty
      lemma. */
  method LexWords(words: seq<Bytes>, lemmatize: Bytes -> Bytes) returns (tokens: seq<Token>)
    ensures tokens == WordTokens(Lemmas(words, lemmatize))
  {
    tokens := [];
    for j := 0 to |words|
      invariant tokens == WordTokens(Lemmas(words[..j], lemmatize))
    {
      var word := lemmatize(words[j]);
      WordStep(words, j, lemmatize);
      if word != [] {
        tokens := tokens + [Token(word, WORD, 0)];
      }
    }
    assert words[..|words|] == words;
  }

  lemma LexStep(segments: seq<Bytes>, i: nat, tokenize: Bytes -> seq<Bytes>, lemmatize: Bytes -> Bytes)
    requires i < |segments|
    ensures LexAll(segments[..i + 1], tokenize, lemmatize) == LexAll(segments[..i], tokenize, lemmatize) + SegmentTokens(segments[i], tokenize, lemmatize)
  {
    assert segments[..i + 1][..i] == segments[..i];
  }

  lemma WordStep(words: seq<Bytes>, j: nat, lemmatize: Bytes -> Bytes)
    requires j < |words|
    ensures lemmatize(words[j]) == [] ==> WordTokens(Lemmas(words[..j + 1], lemmatize)) == WordTokens(Lemmas(words[..j], lemmatize))
    ensures lemmatize(words[j]) != [] ==>
              WordTokens(Lemmas(words[..j + 1], lemmatize)) == WordTokens(Lemmas(words[..j], lemmatize)) + [Token(lemmatize(words[j]), WORD, 0)]
  {
    assert words[..j + 1][..j] == words[..j];
  }

  /** A token as the lexer makes it: a WORD carries a non-empty lemma and
      precedence 0; any other token is an operator spelled as its value
      spells, with that operator's precedence. */
  predicate WellFormedToken(t: Token) {
    if t.kind == WORD then t.value != [] && t.precedence == 0
    else TryParseOperator(t.value) == Some((t.kind, t.precedence))
  }

  lemma {:induction false} LexedTokensWellFormed(segments: seq<Bytes>, tokenize: Bytes -> seq<Bytes>, lemmatize: Bytes -> Bytes)
    ensures forall t :: t in LexAll(segments, tokenize, lemmatize) ==> WellFormedToken(t)
  {
    if segments != [] {
      LexedTokensWellFormed(segments[..|segments| - 1], tokenize, lemmatize);
      var segment := segments[|segments| - 1];
      var words := Lemmas(tokenize(segment), lemmatize);
      assert forall k :: 0 <= k < |words| ==> words[k] != [];
    }
  }
}
