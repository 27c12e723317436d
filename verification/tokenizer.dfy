/** Tokenizer::tokenize over the code points of its input. The UTF-8
    decoding before the loop and the re-encoding of each token are library
    calls: the method receives the decoder's result, None when decoding
    threw, and returns each token as its code points. */
module Tokenization {
  import opened Common

  /** A wchar_t produced by the UTF-8 decoder. */
  type CodePoint = c: int | 0 <= c < 0x11_0000

  const UPPER_A := 0x41
  const UPPER_Z := 0x5A
  const LOWER_A := 0x61
  const LOWER_Z := 0x7A
  const DIGIT_0 := 0x30
  const DIGIT_9 := 0x39
  const CYRILLIC_UPPER_A := 0x0410
  const CYRILLIC_UPPER_YA := 0x042F
  const CYRILLIC_LOWER_A := 0x0430
  const CYRILLIC_LOWER_YA := 0x044F
  const CYRILLIC_UPPER_YO := 0x0401
  const CYRILLIC_LOWER_YO := 0x0451

  /** The capitals the tokenizer lowers: A-Z, А-Я and Ё. */
  predicate IsUpper(c: CodePoint) {
    (UPPER_A <= c <= UPPER_Z) || (CYRILLIC_UPPER_A <= c <= CYRILLIC_UPPER_YA) || c == CYRILLIC_UPPER_YO
  }

  /** The case folding applied to each code point. */
  function Fold(c: CodePoint): (r: CodePoint)
    ensures !IsUpper(r)
    ensures !IsUpper(c) ==> r == c
  {
    if UPPER_A <= c <= UPPER_Z then c + 32
    else if CYRILLIC_UPPER_A <= c <= CYRILLIC_UPPER_YA then c + 0x20
    else if c == CYRILLIC_UPPER_YO then CYRILLIC_LOWER_YO
    else c
  }

  /** Each capital goes to its own small letter, so folding keeps distinct
      letters apart and never mixes Latin and Cyrillic. */
  lemma FoldPairs(c: CodePoint)
    ensures UPPER_A <= c <= UPPER_Z ==> Fold(c) == c - UPPER_A + LOWER_A
    ensures CYRILLIC_UPPER_A <= c <= CYRILLIC_UPPER_YA ==> Fold(c) == c - CYRILLIC_UPPER_A + CYRILLIC_LOWER_A
    ensures c == CYRILLIC_UPPER_YO ==> Fold(c) == CYRILLIC_LOWER_YO
    ensures Fold(Fold(c)) == Fold(c)
  {
  }

  function FoldAll(s: seq<CodePoint>): (r: seq<CodePoint>)
    ensures |r| == |s|
  {
    if s == [] then [] else [Fold(s[0])] + FoldAll(s[1..])
  }

  lemma {:induction false} FoldAllAt(s: seq<CodePoint>, i: nat)
    requires i < |s|
    ensures FoldAll(s)[i] == Fold(s[i])
  {
    if i > 0 {
      FoldAllAt(s[1..], i - 1);
    }
  }

  /** The characters that make up words once folded: a-z, 0-9, а-я and ё. */
  predicate IsWordChar(c: CodePoint) {
    (LOWER_A <= c <= LOWER_Z) || (DIGIT_0 <= c <= DIGIT_9)
    || (CYRILLIC_LOWER_A <= c <= CYRILLIC_LOWER_YA) || c == CYRILLIC_LOWER_YO
  }

  /** The tokens of a decoded text: the maximal runs of word characters of
      its folding. */
  function Tokens(text: seq<CodePoint>): seq<seq<CodePoint>> {
    Runs(FoldAll(text), IsWordChar)
  }

  /** tokenize: one pass that folds each code point, collects word
      characters and cuts the collected token at every other character. */
  method Tokenize(text: Option<seq<CodePoint>>) returns (tokens: seq<seq<CodePoint>>)
    ensures text.None? ==> tokens == []
    ensures text.Some? ==> tokens == Tokens(text.value)
  {
    if text.None? {
      return [];
    }
    var wtext := text.value;
    ghost var folded := FoldAll(wtext);
    tokens := [];
    var current: seq<CodePoint> := [];
    ScanStart(folded, IsWordChar);
    for i := 0 to |wtext|
      invariant ScanState(folded, i, tokens, current, IsWordChar)
    {
      var wc := Fold(wtext[i]);
      FoldAllAt(wtext, i);
      var isAlpha := IsWordChar(wc);
      if isAlpha {
        ScanJoin(folded, i, tokens, current, IsWordChar);
        current := current + [wc];
      } else if current != [] {
        ScanCut(folded, i, tokens, current, IsWordChar);
        tokens := tokens + [current];
        current := [];
      } else {
        ScanDrop(folded, i, tokens, IsWordChar);
      }
    }
    ScanFinish(folded, tokens, current, IsWordChar);
    if current != [] {
      tokens := tokens + [current];
    }
  }

  /** No token is empty, every token is made of word characters only, and
      so none holds a capital or a separator. */
  lemma TokensAreWords(text: seq<CodePoint>)
    ensures forall t :: t in Tokens(text) ==> t != []
    ensures forall t, c :: t in Tokens(text) && c in t ==> IsWordChar(c) && !IsUpper(c)
  {
    RunsKept(FoldAll(text), IsWordChar);
  }

  /** The tokens joined together are exactly the word characters of the
      folded text, in order: no word character is dropped or invented. */
  lemma TokensKeepWordChars(text: seq<CodePoint>)
    ensures Concat(Tokens(text)) == Filter(FoldAll(text), IsWordChar)
  {
    RunsJoin(FoldAll(text), IsWordChar);
  }

  /** A text without word characters has no tokens. */
  lemma NoWordCharsNoTokens(text: seq<CodePoint>)
    requires forall i :: 0 <= i < |text| ==> !IsWordChar(Fold(text[i]))
    ensures Tokens(text) == []
  {
    forall i | 0 <= i < |text|
      ensures !IsWordChar(FoldAll(text)[i])
    {
      FoldAllAt(text, i);
    }
    RunsNone(FoldAll(text), IsWordChar);
  }

  /** Punctuation splits words: "It's" gives "it" and "s". */
  lemma ApostropheSplits()
    ensures Tokens([0x49, 0x74, 0x27, 0x73]) == [[0x69, 0x74], [0x73]]
  {
    var f := FoldAll([0x49, 0x74, 0x27, 0x73]);
    assert f == [0x69, 0x74, 0x27, 0x73];
    RunsCut<CodePoint>([0x69, 0x74], 0x27, [0x73], IsWordChar);
    assert f == [0x69, 0x74] + [0x27] + [0x73];
    RunsWhole<CodePoint>([0x73], IsWordChar);
  }

  /** Cyrillic capitals and Ё fold and digits stay: "Ёж 2" gives "ёж" and "2". */
  lemma CyrillicAndDigits()
    ensures Tokens([0x0401, 0x0436, 0x20, 0x32]) == [[0x0451, 0x0436], [0x32]]
  {
    var f := FoldAll([0x0401, 0x0436, 0x20, 0x32]);
    assert f == [0x0451, 0x0436, 0x20, 0x32];
    RunsCut<CodePoint>([0x0451, 0x0436], 0x20, [0x32], IsWordChar);
    assert f == [0x0451, 0x0436] + [0x20] + [0x32];
    RunsWhole<CodePoint>([0x32], IsWordChar);
  }
}
