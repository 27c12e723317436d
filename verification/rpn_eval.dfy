/** The last stage of QueryParser::parseBoolean: the stack machine that
    evaluates the RPN token list against a BooleanIndex. Operands are docId
    lists; a missing operand makes an operator a no-op, and a NOT whose
    operand is longer than totalDocs throws std::length_error from
    reserve, which is the None result here. */
module RpnEvaluation {
  import opened Common
  import opened QueryOperators
  import opened BooleanIndexing

  /** The evaluation stack, its top at the end. */
  type Stack = seq<seq<U32>>

  /** The operand a word pushes: its list, or the empty list for a word
      the index does not hold. */
  function LookupIds(terms: IdLists, word: Bytes): seq<U32> {
    if word in terms then terms[word] else []
  }

  /** One token of the evaluation loop with totalDocs n. */
  function EvalStep(stack: Stack, t: Token, terms: IdLists, n: nat): Option<Stack>
    requires n < TWO32
  {
    match t.kind
    case WORD => Some(stack + [LookupIds(terms, t.value)])
    case NOT =>
      if stack == [] then Some(stack)
      else
        var a := stack[|stack| - 1];
        if |a| > n then None
        else Some(stack[..|stack| - 1] + [Complement(a, n)])
    case _ =>
      if |stack| < 2 then Some(stack)
      else
        var b := stack[|stack| - 1];
        var a := stack[|stack| - 2];
        Some(stack[..|stack| - 2] + [if t.kind == AND then Intersect(a, b) else Union(a, b)])
  }

  /** The stack after the whole token list, None once a step has thrown. */
  function Eval(rpn: seq<Token>, terms: IdLists, n: nat): Option<Stack>
    requires n < TWO32
  {
    if rpn == [] then Some([])
    else
      match Eval(rpn[..|rpn| - 1], terms, n)
      case None => None
      case Some(stack) => EvalStep(stack, rpn[|rpn| - 1], terms, n)
  }

  /** What parseBoolean returns: the final top, or the empty list when
      the stack ends empty. */
  function BooleanResult(rpn: seq<Token>, terms: IdLists, n: nat): Option<seq<U32>>
    requires n < TWO32
  {
    match Eval(rpn, terms, n)
    case None => None
    case Some(stack) => Some(if stack == [] then [] else stack[|stack| - 1])
  }

  /* ---------------- the meaning of an evaluation, as sets ---------------- */

  function Elems(s: seq<int>): set<int> {
    set x | x in s
  }

  /** The ids 0 .. n - 1. */
  function IdsBelow(n: nat): (r: set<int>)
    ensures forall x :: x in r <==> 0 <= x < n
  {
    if n == 0 then {} else IdsBelow(n - 1) + {n - 1}
  }

  /** The same machine over sets of ids: NOT is the complement in
      [0, n), AND the intersection, every other operator the union. */
  function SetStep(sets: seq<set<int>>, t: Token, terms: IdLists, n: nat): seq<set<int>> {
    match t.kind
    case WORD => sets + [Elems(LookupIds(terms, t.value))]
    case NOT =>
      if sets == [] then sets
      else sets[..|sets| - 1] + [IdsBelow(n) - sets[|sets| - 1]]
    case _ =>
      if |sets| < 2 then sets
      else
        var b := sets[|sets| - 1];
        var a := sets[|sets| - 2];
        sets[..|sets| - 2] + [if t.kind == AND then a * b else a + b]
  }

  function SetEval(rpn: seq<Token>, terms: IdLists, n: nat): seq<set<int>> {
    if rpn == [] then []
    else SetStep(SetEval(rpn[..|rpn| - 1], terms, n), rpn[|rpn| - 1], terms, n)
  }

  /** The set a query stands for. */
  function SetResult(rpn: seq<Token>, terms: IdLists, n: nat): set<int> {
    var sets := SetEval(rpn, terms, n);
    if sets == [] then {} else sets[|sets| - 1]
  }

  /** Every stack entry is strictly increasing and holds exactly the ids of
      the matching set. */
  ghost predicate Represents(stack: Stack, sets: seq<set<int>>) {
    && |stack| == |sets|
    && forall k :: 0 <= k < |stack| ==> StrictlySorted(stack[k]) && Elems(stack[k]) == sets[k]
  }

  /** Every id of every entry is below n. */
  ghost predicate StackBelow(stack: Stack, n: nat) {
    forall k :: 0 <= k < |stack| ==> AllBelow(stack[k], n)
  }

  /** Every list of the index holds only ids below n. */
  ghost predicate ListsBelow(terms: IdLists, n: nat) {
    forall t :: t in terms ==> AllBelow(terms[t], n)
  }

  /** Replacing the top drop entries by one represented list keeps the
      stack represented. */
  lemma RepresentsPush(stack: Stack, sets: seq<set<int>>, drop: nat, c: seq<U32>, cs: set<int>)
    requires Represents(stack, sets) && drop <= |stack| && StrictlySorted(c) && Elems(c) == cs
    ensures Represents(stack[..|stack| - drop] + [c], sets[..|sets| - drop] + [cs])
  {
  }

  /** Replacing the top drop entries by one list below n keeps the stack
      below n. */
  lemma BelowPush(stack: Stack, n: nat, drop: nat, c: seq<U32>)
    requires StackBelow(stack, n) && drop <= |stack| && AllBelow(c, n)
    ensures StackBelow(stack[..|stack| - drop] + [c], n)
  {
  }

  lemma WordMeaning(stack: Stack, sets: seq<set<int>>, t: Token, terms: IdLists, n: nat)
    requires n < TWO32 && AllIncreasing(terms) && Represents(stack, sets) && t.kind == WORD
    ensures EvalStep(stack, t, terms, n).Some?
    ensures Represents(EvalStep(stack, t, terms, n).value, SetStep(sets, t, terms, n))
    ensures ListsBelow(terms, n) && StackBelow(stack, n) ==> StackBelow(EvalStep(stack, t, terms, n).value, n)
  {
    var c := LookupIds(terms, t.value);
    assert stack[..|stack| - 0] == stack && sets[..|sets| - 0] == sets;
    RepresentsPush(stack, sets, 0, c, Elems(c));
    if ListsBelow(terms, n) && StackBelow(stack, n) {
      BelowPush(stack, n, 0, c);
    }
  }

  lemma NotMeaning(stack: Stack, sets: seq<set<int>>, t: Token, terms: IdLists, n: nat)
    requires n < TWO32 && Represents(stack, sets) && t.kind == NOT
    ensures EvalStep(stack, t, terms, n).Some? ==> Represents(EvalStep(stack, t, terms, n).value, SetStep(sets, t, terms, n))
    ensures StackBelow(stack, n) ==> EvalStep(stack, t, terms, n).Some? && StackBelow(EvalStep(stack, t, terms, n).value, n)
  {
    if stack != [] {
      var a := stack[|stack| - 1];
      if StackBelow(stack, n) {
        StrictlySortedBelowLength(a, n);
      }
      if |a| <= n {
        var c := Complement(a, n);
        assert Elems(c) == IdsBelow(n) - sets[|sets| - 1];
        RepresentsPush(stack, sets, 1, c, IdsBelow(n) - sets[|sets| - 1]);
        if StackBelow(stack, n) {
          BelowPush(stack, n, 1, c);
        }
      }
    }
  }

  /** opAND and opOR of two represented lists. */
  lemma MergeMeaning(a: seq<U32>, b: seq<U32>, and: bool, n: nat)
    requires StrictlySorted(a) && StrictlySorted(b)
    ensures StrictlySorted(if and then Intersect(a, b) else Union(a, b))
    ensures Elems(if and then Intersect(a, b) else Union(a, b)) == if and then Elems(a) * Elems(b) else Elems(a) + Elems(b)
    ensures AllBelow(a, n) && AllBelow(b, n) ==> AllBelow(if and then Intersect(a, b) else Union(a, b), n)
  {
    var c := if and then Intersect(a, b) else Union(a, b);
    if and {
      IntersectSorted(a, b);
    } else {
      UnionSorted(a, b);
    }
    if AllBelow(a, n) && AllBelow(b, n) {
      forall i | 0 <= i < |c|
        ensures 0 <= c[i] < n
      {
        assert c[i] in c;
        var j :| (0 <= j < |a| && a[j] == c[i]) || (0 <= j < |b| && b[j] == c[i]);
      }
    }
  }

  lemma BinaryMeaning(stack: Stack, sets: seq<set<int>>, t: Token, terms: IdLists, n: nat)
    requires n < TWO32 && Represents(stack, sets) && t.kind != WORD && t.kind != NOT
    ensures EvalStep(stack, t, terms, n).Some?
    ensures Represents(EvalStep(stack, t, terms, n).value, SetStep(sets, t, terms, n))
    ensures StackBelow(stack, n) ==> StackBelow(EvalStep(stack, t, terms, n).value, n)
  {
    if |stack| >= 2 {
      var b := stack[|stack| - 1];
      var a := stack[|stack| - 2];
      var and := t.kind == AND;
      var c := if and then Intersect(a, b) else Union(a, b);
      var cs := if and then sets[|sets| - 2] * sets[|sets| - 1] else sets[|sets| - 2] + sets[|sets| - 1];
      assert EvalStep(stack, t, terms, n) == Some(stack[..|stack| - 2] + [c]);
      assert SetStep(sets, t, terms, n) == sets[..|sets| - 2] + [cs];
      assert Elems(a) == sets[|sets| - 2] && Elems(b) == sets[|sets| - 1];
      MergeMeaning(a, b, and, n);
      RepresentsPush(stack, sets, 2, c, cs);
      if StackBelow(stack, n) {
        BelowPush(stack, n, 2, c);
      }
    }
  }

  lemma StepMeaning(stack: Stack, sets: seq<set<int>>, t: Token, terms: IdLists, n: nat)
    requires n < TWO32 && AllIncreasing(terms) && Represents(stack, sets)
    ensures EvalStep(stack, t, terms, n).Some? ==> Represents(EvalStep(stack, t, terms, n).value, SetStep(sets, t, terms, n))
    ensures ListsBelow(terms, n) && StackBelow(stack, n) ==>
              EvalStep(stack, t, terms, n).Some? && StackBelow(EvalStep(stack, t, terms, n).value, n)
  {
    if t.kind == WORD {
      WordMeaning(stack, sets, t, terms, n);
    } else if t.kind == NOT {
      NotMeaning(stack, sets, t, terms, n);
    } else {
      BinaryMeaning(stack, sets, t, terms, n);
    }
  }

  /** On an index of strictly increasing lists, every stack the evaluation
      reaches holds strictly increasing lists that are exactly the sets of
      the set machine; when every list is also below totalDocs, no NOT
      throws and every entry stays below totalDocs. */
  lemma {:induction false} EvalMeaning(rpn: seq<Token>, terms: IdLists, n: nat)
    requires n < TWO32 && AllIncreasing(terms)
    ensures Eval(rpn, terms, n).Some? ==> Represents(Eval(rpn, terms, n).value, SetEval(rpn, terms, n))
    ensures ListsBelow(terms, n) ==> Eval(rpn, terms, n).Some? && StackBelow(Eval(rpn, terms, n).value, n)
  {
    if rpn != [] {
      var init := rpn[..|rpn| - 1];
      EvalMeaning(init, terms, n);
      if Eval(init, terms, n).Some? {
        StepMeaning(Eval(init, terms, n).value, SetEval(init, terms, n), rpn[|rpn| - 1], terms, n);
      }
    }
  }

  /** The result is strictly increasing and holds exactly the ids of the
      query's set; it is always there when every list is below totalDocs. */
  lemma BooleanResultMeaning(rpn: seq<Token>, terms: IdLists, n: nat)
    requires n < TWO32 && AllIncreasing(terms)
    ensures BooleanResult(rpn, terms, n).Some? ==>
              StrictlySorted(BooleanResult(rpn, terms, n).value) &&
              Elems(BooleanResult(rpn, terms, n).value) == SetResult(rpn, terms, n)
    ensures ListsBelow(terms, n) ==> BooleanResult(rpn, terms, n).Some?
  {
    EvalMeaning(rpn, terms, n);
  }

  /** Once a step has thrown, the rest of the query is not evaluated. */
  lemma {:induction false} EvalNoneStays(rpn: seq<Token>, more: seq<Token>, terms: IdLists, n: nat)
    requires n < TWO32 && Eval(rpn, terms, n).None?
    ensures Eval(rpn + more, terms, n).None?
    decreases |more|
  {
    if more != [] {
      var init := more[..|more| - 1];
      EvalNoneStays(rpn, init, terms, n);
      assert (rpn + more)[..|rpn + more| - 1] == rpn + init;
    } else {
      assert rpn + more == rpn;
    }
  }

  /* ---------------- the lenient cases ---------------- */

  /** A NOT with no operand is skipped: "!" alone gives the empty list. */
  lemma NotAloneSkipped(not: Token, terms: IdLists, n: nat)
    requires n < TWO32 && not.kind == NOT
    ensures BooleanResult([not], terms, n) == Some([])
  {
    var none: seq<Token> := [];
    var bottom: Stack := [];
    assert Eval(none, terms, n) == Some(bottom);
    assert EvalStep(bottom, not, terms, n) == Some(bottom);
    EvalSnoc(none, not, terms, n);
    assert none + [not] == [not];
  }

  /** A binary operator with one operand is skipped, leaving the operand. */
  lemma OneOperandSkipped(w: Token, op: Token, terms: IdLists, n: nat)
    requires n < TWO32 && w.kind == WORD && (op.kind == AND || op.kind == OR)
    ensures BooleanResult([w, op], terms, n) == Some(LookupIds(terms, w.value))
  {
    EvalWord(w, terms, n);
    EvalSnoc([w], op, terms, n);
    assert [w] + [op] == [w, op];
  }

  /** Two words with no operator between them leave two operands, and the
      result is the second word's list alone. */
  lemma LastOperandWins(w1: Token, w2: Token, terms: IdLists, n: nat)
    requires n < TWO32 && w1.kind == WORD && w2.kind == WORD
    ensures BooleanResult([w1, w2], terms, n) == Some(LookupIds(terms, w2.value))
  {
    EvalWord(w1, terms, n);
    EvalSnoc([w1], w2, terms, n);
    assert [w1] + [w2] == [w1, w2];
  }

  /** An unmatched "(" flushed into the RPN is evaluated as OR. */
  lemma LeftoverOpenIsUnion(w1: Token, w2: Token, open: Token, terms: IdLists, n: nat)
    requires n < TWO32 && w1.kind == WORD && w2.kind == WORD && open.kind == LPAREN
    ensures BooleanResult([w1, w2, open], terms, n) == Some(Union(LookupIds(terms, w1.value), LookupIds(terms, w2.value)))
  {
    var a: seq<U32>, b: seq<U32> := LookupIds(terms, w1.value), LookupIds(terms, w2.value);
    EvalWord(w1, terms, n);
    EvalSnoc([w1], w2, terms, n);
    assert [w1] + [w2] == [w1, w2];
    assert [a] + [b] == [a, b];
    assert Eval([w1, w2], terms, n) == Some([a, b]);
    EvalSnoc([w1, w2], open, terms, n);
    assert [w1, w2] + [open] == [w1, w2, open];
    var bottom: Stack := [];
    assert [a, b][..0] == bottom;
    assert bottom + [Union(a, b)] == [Union(a, b)];
    assert EvalStep([a, b], open, terms, n) == Some([Union(a, b)]);
  }

  /** An id at totalDocs, which a document counted as empty leaves behind,
      makes a query throw: with y posted at 2 and totalDocs 2, `!(!y | y)`
      unions [0, 1] with [2], and the outer NOT's reserve(2 - 3) fails. */
  lemma IdAtTotalThrows(y: Token, not: Token, or: Token, terms: IdLists)
    requires y.kind == WORD && not.kind == NOT && or.kind == OR
    requires y.value in terms && terms[y.value] == [2]
    ensures BooleanResult([y, not, y, or, not], terms, 2).None?
  {
    var u: seq<U32> := [0, 1, 2];
    IdAtTotalUnion(y, not, or, terms);
    EvalSnoc([y, not, y, or], not, terms, 2);
    assert [y, not, y, or] + [not] == [y, not, y, or, not];
    assert EvalStep([u], not, terms, 2).None?;
  }

  /** The operand of the outer NOT of `!(!y | y)` in IdAtTotalThrows. */
  lemma IdAtTotalUnion(y: Token, not: Token, or: Token, terms: IdLists)
    requires y.kind == WORD && not.kind == NOT && or.kind == OR
    requires y.value in terms && terms[y.value] == [2]
    ensures Eval([y, not, y, or], terms, 2) == Some([[0, 1, 2]])
  {
    var c: seq<U32> := [0, 1];
    var a: seq<U32> := [2];
    var u: seq<U32> := [0, 1, 2];
    IdAtTotalOperands(y, not, terms);
    UnionOfTwo();
    var bottom: Stack := [];
    assert [c, a][..0] == bottom && bottom + [u] == [u];
    assert EvalStep([c, a], or, terms, 2) == Some([u]);
    EvalSnoc([y, not, y], or, terms, 2);
    assert [y, not, y] + [or] == [y, not, y, or];
  }

  /** The two operands of the `|` of `!(!y | y)` in IdAtTotalThrows. */
  lemma IdAtTotalOperands(y: Token, not: Token, terms: IdLists)
    requires y.kind == WORD && not.kind == NOT
    requires y.value in terms && terms[y.value] == [2]
    ensures Eval([y, not, y], terms, 2) == Some([[0, 1], [2]])
  {
    var c: seq<U32> := [0, 1];
    var a: seq<U32> := [2];
    IdAtTotalNot(y, not, terms);
    assert LookupIds(terms, y.value) == a && [c] + [a] == [c, a];
    assert EvalStep([c], y, terms, 2) == Some([c, a]);
    EvalSnoc([y, not], y, terms, 2);
    assert [y, not] + [y] == [y, not, y];
  }

  /** The inner `!y` of `!(!y | y)` in IdAtTotalThrows. */
  lemma IdAtTotalNot(y: Token, not: Token, terms: IdLists)
    requires y.kind == WORD && not.kind == NOT
    requires y.value in terms && terms[y.value] == [2]
    ensures Eval([y, not], terms, 2) == Some([[0, 1]])
  {
    var c: seq<U32> := [0, 1];
    var a: seq<U32> := [2];
    EvalWord(y, terms, 2);
    assert LookupIds(terms, y.value) == a;
    ComplementOfTwo();
    var bottom: Stack := [];
    assert [a][..0] == bottom && bottom + [c] == [c];
    assert EvalStep([a], not, terms, 2) == Some([c]);
    EvalSnoc([y], not, terms, 2);
    assert [y] + [not] == [y, not];
  }

  lemma ComplementOfTwo()
    ensures Complement([2], 2) == [0, 1]
  {
    assert Complement([2], 1) == [0];
  }

  lemma UnionOfTwo()
    ensures Union([0, 1], [2]) == [0, 1, 2]
  {
    assert Union([1], [2]) == [1, 2];
  }

  /** One more token on the right. */
  lemma EvalSnoc(rpn: seq<Token>, t: Token, terms: IdLists, n: nat)
    requires n < TWO32
    ensures Eval(rpn + [t], terms, n) == if Eval(rpn, terms, n).None? then None else EvalStep(Eval(rpn, terms, n).value, t, terms, n)
  {
    assert (rpn + [t])[..|rpn|] == rpn;
  }

  /** A single word evaluates to its list. */
  lemma EvalWord(w: Token, terms: IdLists, n: nat)
    requires n < TWO32 && w.kind == WORD
    ensures Eval([w], terms, n) == Some([LookupIds(terms, w.value)])
  {
    EvalSnoc([], w, terms, n);
    assert [] + [w] == [w];
    var bottom: Stack := [];
    assert bottom + [LookupIds(terms, w.value)] == [LookupIds(terms, w.value)];
  }

  /* ---------------- the loop ---------------- */

  /** The evaluation loop of parseBoolean over rpn. The NOT operands
      are strictly increasing because the index lists are. */
  method EvalRpn(rpn: seq<Token>, index: BooleanIndex) returns (r: Option<seq<U32>>)
    requires index.Valid() && index.totalDocs < TWO32 && AllIncreasing(index.Terms())
    ensures r == BooleanResult(rpn, index.Terms(), index.totalDocs)
  {
    ghost var terms := index.Terms();
    var n := index.GetTotalDocs();
    var evalStack: Stack := [];
    for i := 0 to |rpn|
      invariant Eval(rpn[..i], terms, n) == Some(evalStack)
    {
      var token := rpn[i];
      EvalPrefixStep(rpn, i, terms, n, evalStack);
      ghost var next := EvalStep(evalStack, token, terms, n);
      if token.kind == WORD {
        var ptr := index.GetDocIds(token.value);
        var docs := [];
        if ptr.Some? {
          docs := ptr.value;
        }
        evalStack := evalStack + [docs];
      } else if token.kind == NOT {
        if evalStack == [] {
          continue;
        }
        var a := evalStack[|evalStack| - 1];
        if |a| > n {
          EvalThrows(rpn, i, terms, n);
          return None;
        }
        OperandSorted(rpn[..i], terms, n, evalStack);
        var res := OpNot(a, n);
        evalStack := evalStack[..|evalStack| - 1] + [res];
      } else {
        if |evalStack| < 2 {
          continue;
        }
        var b := evalStack[|evalStack| - 1];
        var a := evalStack[|evalStack| - 2];
        evalStack := evalStack[..|evalStack| - 2];
        if token.kind == AND {
          evalStack := evalStack + [Intersect(a, b)];
        } else {
          evalStack := evalStack + [Union(a, b)];
        }
      }
      assert next == Some(evalStack);
    }
    assert rpn[..|rpn|] == rpn;
    r := Some(if evalStack == [] then [] else evalStack[|evalStack| - 1]);
  }

  /** The evaluation of one more token. */
  lemma EvalPrefixStep(rpn: seq<Token>, i: nat, terms: IdLists, n: nat, stack: Stack)
    requires n < TWO32 && i < |rpn| && Eval(rpn[..i], terms, n) == Some(stack)
    ensures Eval(rpn[..i + 1], terms, n) == EvalStep(stack, rpn[i], terms, n)
  {
    assert rpn[..i + 1][..i] == rpn[..i];
  }

  /** A throwing token ends the whole evaluation with None. */
  lemma EvalThrows(rpn: seq<Token>, i: nat, terms: IdLists, n: nat)
    requires n < TWO32 && i < |rpn| && Eval(rpn[..i + 1], terms, n).None?
    ensures Eval(rpn, terms, n).None?
  {
    EvalNoneStays(rpn[..i + 1], rpn[i + 1..], terms, n);
    assert rpn[..i + 1] + rpn[i + 1..] == rpn;
  }

  /** On an index of increasing lists, the top operand is increasing. */
  lemma OperandSorted(rpn: seq<Token>, terms: IdLists, n: nat, stack: Stack)
    requires n < TWO32 && AllIncreasing(terms) && Eval(rpn, terms, n) == Some(stack) && stack != []
    ensures StrictlySorted(stack[|stack| - 1])
  {
    EvalMeaning(rpn, terms, n);
  }
}
