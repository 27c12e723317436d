/** The shunting-yard pass of parseBoolean: infix query tokens to reverse
    Polish notation, with an operator stack whose top is the last
    element. */
module ShuntingYard {
  import opened Common
  import opened QueryOperators

  /** The output queue and the operator stack. */
  datatype Shunting = Shunting(rpn: seq<Token>, stack: seq<Token>)

  /** Moves the top of the stack to the output. */
  function Move(st: Shunting): Shunting
    requires st.stack != []
  {
    Shunting(st.rpn + [st.stack[|st.stack| - 1]], st.stack[..|st.stack| - 1])
  }

  /** What an incoming operator of precedence prec does first: moves stack
      operators of precedence at least prec to the output, stopping at
      "(". */
  function PopOperators(st: Shunting, prec: int): Shunting
    decreases |st.stack|
  {
    if st.stack != [] && st.stack[|st.stack| - 1].kind != LPAREN && st.stack[|st.stack| - 1].precedence >= prec
    then PopOperators(Move(st), prec)
    else st
  }

  /** Moves stack tokens to the output up to the nearest "(". */
  function PopUntilOpen(st: Shunting): Shunting
    decreases |st.stack|
  {
    if st.stack != [] && st.stack[|st.stack| - 1].kind != LPAREN then PopUntilOpen(Move(st)) else st
  }

  /** What ")" does: pops to the nearest "(" and discards it. */
  function CloseParen(st: Shunting): Shunting {
    var s := PopUntilOpen(st);
    if s.stack != [] then Shunting(s.rpn, s.stack[..|s.stack| - 1]) else s
  }

  /** One token of the conversion loop. */
  function Step(st: Shunting, t: Token): Shunting {
    match t.kind
    case WORD => Shunting(st.rpn + [t], st.stack)
    case LPAREN => Shunting(st.rpn, st.stack + [t])
    case RPAREN => CloseParen(st)
    case _ =>
      var s := PopOperators(st, t.precedence);
      Shunting(s.rpn, s.stack + [t])
  }

  /** The state after the tokens, from an empty output and stack. */
  function Shunt(tokens: seq<Token>): Shunting {
    if tokens == [] then Shunting([], [])
    else Step(Shunt(tokens[..|tokens| - 1]), tokens[|tokens| - 1])
  }

  /** The leftovers, "(" included, moved to the output top first. */
  function Flush(st: Shunting): seq<Token>
    decreases |st.stack|
  {
    if st.stack == [] then st.rpn else Flush(Move(st))
  }

  /** The reverse Polish form of tokens. */
  function Rpn(tokens: seq<Token>): seq<Token> {
    Flush(Shunt(tokens))
  }

  /** The shunting-yard loops of parseBoolean. */
  method ToRpn(tokens: seq<Token>) returns (rpn: seq<Token>)
    ensures rpn == Rpn(tokens)
  {
    rpn := [];
    var opStack: seq<Token> := [];
    for i := 0 to |tokens|
      invariant Shunting(rpn, opStack) == Shunt(tokens[..i])
    {
      var token := tokens[i];
      assert tokens[..i + 1][..i] == tokens[..i];
      if token.kind == WORD {
        rpn := rpn + [token];
      } else if token.kind == LPAREN {
        opStack := opStack + [token];
      } else if token.kind == RPAREN {
        ghost var start := Shunting(rpn, opStack);
        while opStack != [] && opStack[|opStack| - 1].kind != LPAREN
          invariant PopUntilOpen(Shunting(rpn, opStack)) == PopUntilOpen(start)
          decreases |opStack|
        {
          rpn := rpn + [opStack[|opStack| - 1]];
          opStack := opStack[..|opStack| - 1];
        }
        if opStack != [] {
          opStack := opStack[..|opStack| - 1];
        }
      } else {
        ghost var start := Shunting(rpn, opStack);
        while opStack != [] && opStack[|opStack| - 1].kind != LPAREN &&
              opStack[|opStack| - 1].precedence >= token.precedence
          invariant PopOperators(Shunting(rpn, opStack), token.precedence) == PopOperators(start, token.precedence)
          decreases |opStack|
        {
          rpn := rpn + [opStack[|opStack| - 1]];
          opStack := opStack[..|opStack| - 1];
        }
        opStack := opStack + [token];
      }
    }
    assert tokens[..|tokens|] == tokens;
    while opStack != []
      invariant Flush(Shunting(rpn, opStack)) == Rpn(tokens)
      decreases |opStack|
    {
      rpn := rpn + [opStack[|opStack| - 1]];
      opStack := opStack[..|opStack| - 1];
    }
  }

  /* ---------------- what the conversion keeps ---------------- */

  predicate IsWordToken(t: Token) {
    t.kind == WORD
  }

  /** The operators that evaluation applies: AND, OR and NOT. */
  predicate IsOperator(t: Token) {
    t.kind == AND || t.kind == OR || t.kind == NOT
  }

  /** The bookkeeping of a state reached from prefix: the words are output
      in input order, the stack holds only operators and "(", no ")" is
      ever output, and every operator of prefix is either output or on the
      stack, exactly once. */
  ghost predicate Accounted(st: Shunting, prefix: seq<Token>) {
    && Filter(st.rpn, IsWordToken) == Filter(prefix, IsWordToken)
    && (forall k :: 0 <= k < |st.stack| ==> st.stack[k].kind != WORD && st.stack[k].kind != RPAREN)
    && (forall k :: 0 <= k < |st.rpn| ==> st.rpn[k].kind != RPAREN)
    && multiset(Filter(st.rpn, IsOperator)) + multiset(Filter(st.stack, IsOperator)) == multiset(Filter(prefix, IsOperator))
  }

  lemma MoveAccounted(st: Shunting, prefix: seq<Token>)
    requires st.stack != [] && Accounted(st, prefix)
    ensures Accounted(Move(st), prefix)
  {
    var top := st.stack[|st.stack| - 1];
    var init := st.stack[..|st.stack| - 1];
    var x := if IsOperator(top) then [top] else [];
    assert Filter(st.rpn + [top], IsWordToken) == Filter(st.rpn, IsWordToken) by {
      FilterSnoc(st.rpn, top, IsWordToken);
    }
    assert Filter(st.rpn + [top], IsOperator) == Filter(st.rpn, IsOperator) + x by {
      FilterSnoc(st.rpn, top, IsOperator);
    }
    assert Filter(st.stack, IsOperator) == Filter(init, IsOperator) + x by {
      assert st.stack == init + [top];
      FilterSnoc(init, top, IsOperator);
    }
    OperatorsMoved(Filter(st.rpn, IsOperator), Filter(init, IsOperator), Filter(prefix, IsOperator), x);
  }

  /** Moving one token between two operator lists keeps their union. */
  lemma OperatorsMoved(a: seq<Token>, b: seq<Token>, all: seq<Token>, x: seq<Token>)
    requires multiset(a) + multiset(b + x) == multiset(all)
    ensures multiset(a + x) + multiset(b) == multiset(all)
  {
  }

  lemma {:induction false} PopOperatorsAccounted(st: Shunting, prec: int, prefix: seq<Token>)
    requires Accounted(st, prefix)
    ensures Accounted(PopOperators(st, prec), prefix)
    decreases |st.stack|
  {
    if st.stack != [] && st.stack[|st.stack| - 1].kind != LPAREN && st.stack[|st.stack| - 1].precedence >= prec {
      MoveAccounted(st, prefix);
      PopOperatorsAccounted(Move(st), prec, prefix);
    }
  }

  lemma {:induction false} PopUntilOpenAccounted(st: Shunting, prefix: seq<Token>)
    requires Accounted(st, prefix)
    ensures Accounted(PopUntilOpen(st), prefix)
    ensures PopUntilOpen(st).stack != [] ==> PopUntilOpen(st).stack[|PopUntilOpen(st).stack| - 1].kind == LPAREN
    decreases |st.stack|
  {
    if st.stack != [] && st.stack[|st.stack| - 1].kind != LPAREN {
      MoveAccounted(st, prefix);
      PopUntilOpenAccounted(Move(st), prefix);
    }
  }

  /** Each step keeps the bookkeeping, with the step's token added to the
      prefix. */
  lemma StepAccounted(st: Shunting, prefix: seq<Token>, t: Token)
    requires Accounted(st, prefix)
    ensures Accounted(Step(st, t), prefix + [t])
  {
    match t.kind
    case WORD => WordAccounted(st, prefix, t);
    case LPAREN => PushAccounted(st, prefix, t);
    case RPAREN => CloseAccounted(st, prefix, t);
    case _ =>
      PopOperatorsAccounted(st, t.precedence, prefix);
      PushAccounted(PopOperators(st, t.precedence), prefix, t);
  }

  lemma WordAccounted(st: Shunting, prefix: seq<Token>, t: Token)
    requires Accounted(st, prefix) && t.kind == WORD
    ensures Accounted(Shunting(st.rpn + [t], st.stack), prefix + [t])
  {
    assert Filter(st.rpn + [t], IsWordToken) == Filter(st.rpn, IsWordToken) + [t] by {
      FilterSnoc(st.rpn, t, IsWordToken);
    }
    assert Filter(prefix + [t], IsWordToken) == Filter(prefix, IsWordToken) + [t] by {
      FilterSnoc(prefix, t, IsWordToken);
    }
    assert Filter(st.rpn + [t], IsOperator) == Filter(st.rpn, IsOperator) by {
      FilterSnoc(st.rpn, t, IsOperator);
    }
    assert Filter(prefix + [t], IsOperator) == Filter(prefix, IsOperator) by {
      FilterSnoc(prefix, t, IsOperator);
    }
  }

  lemma PushAccounted(st: Shunting, prefix: seq<Token>, t: Token)
    requires Accounted(st, prefix) && t.kind != WORD && t.kind != RPAREN
    ensures Accounted(Shunting(st.rpn, st.stack + [t]), prefix + [t])
  {
    FilterSnoc(prefix, t, IsWordToken);
    FilterSnoc(prefix, t, IsOperator);
    FilterSnoc(st.stack, t, IsOperator);
    var x := if IsOperator(t) then [t] else [];
    OperatorsPushed(Filter(st.rpn, IsOperator), Filter(st.stack, IsOperator), Filter(prefix, IsOperator), x);
  }

  /** A token pushed on the stack and appended to the prefix. */
  lemma OperatorsPushed(a: seq<Token>, b: seq<Token>, all: seq<Token>, x: seq<Token>)
    requires multiset(a) + multiset(b) == multiset(all)
    ensures multiset(a) + multiset(b + x) == multiset(all + x)
  {
  }

  lemma CloseAccounted(st: Shunting, prefix: seq<Token>, t: Token)
    requires Accounted(st, prefix) && t.kind == RPAREN
    ensures Accounted(CloseParen(st), prefix + [t])
  {
    PopUntilOpenAccounted(st, prefix);
    var s := PopUntilOpen(st);
    if s.stack != [] {
      DropOpenAccounted(s, prefix);
    }
    CloseExtends(CloseParen(st), prefix, t);
  }

  /** Discarding the "(" on top keeps the bookkeeping. */
  lemma DropOpenAccounted(s: Shunting, prefix: seq<Token>)
    requires Accounted(s, prefix) && s.stack != [] && s.stack[|s.stack| - 1].kind == LPAREN
    ensures Accounted(Shunting(s.rpn, s.stack[..|s.stack| - 1]), prefix)
  {
    var top := s.stack[|s.stack| - 1];
    var init := s.stack[..|s.stack| - 1];
    assert Filter(s.stack, IsOperator) == Filter(init, IsOperator) by {
      assert s.stack == init + [top];
      FilterSnoc(init, top, IsOperator);
    }
  }

  /** A ")" adds neither a word nor an operator to the prefix. */
  lemma CloseExtends(s: Shunting, prefix: seq<Token>, t: Token)
    requires Accounted(s, prefix) && t.kind == RPAREN
    ensures Accounted(s, prefix + [t])
  {
    FilterSnoc(prefix, t, IsWordToken);
    FilterSnoc(prefix, t, IsOperator);
  }

  lemma {:induction false} ShuntAccounted(tokens: seq<Token>)
    ensures Accounted(Shunt(tokens), tokens)
  {
    if tokens != [] {
      var init := tokens[..|tokens| - 1];
      ShuntAccounted(init);
      StepAccounted(Shunt(init), init, tokens[|tokens| - 1]);
      assert init + [tokens[|tokens| - 1]] == tokens;
    }
  }

  lemma {:induction false} FlushAccounted(st: Shunting, prefix: seq<Token>)
    requires Accounted(st, prefix)
    ensures Accounted(Shunting(Flush(st), []), prefix)
    decreases |st.stack|
  {
    if st.stack != [] {
      MoveAccounted(st, prefix);
      FlushAccounted(Move(st), prefix);
    }
  }

  /** The conversion outputs the words in input order, never outputs ")",
      and outputs every AND, OR and NOT of the input exactly once. */
  lemma RpnAccounts(tokens: seq<Token>)
    ensures Filter(Rpn(tokens), IsWordToken) == Filter(tokens, IsWordToken)
    ensures forall t :: t in Rpn(tokens) ==> t.kind != RPAREN
    ensures multiset(Filter(Rpn(tokens), IsOperator)) == multiset(Filter(tokens, IsOperator))
  {
    ShuntAccounted(tokens);
    FlushAccounted(Shunt(tokens), tokens);
  }

  /** An incoming operator of precedence prec pops the stack down to "(",
      to an operator of lower precedence or to the bottom, and every
      operator it pops has precedence at least prec. */
  lemma {:induction false} PopOperatorsStops(st: Shunting, prec: int)
    ensures |PopOperators(st, prec).stack| <= |st.stack|
    ensures PopOperators(st, prec).stack == st.stack[..|PopOperators(st, prec).stack|]
    ensures forall k :: |PopOperators(st, prec).stack| <= k < |st.stack| ==>
              st.stack[k].kind != LPAREN && st.stack[k].precedence >= prec
    ensures PopOperators(st, prec).stack == [] ||
            PopOperators(st, prec).stack[|PopOperators(st, prec).stack| - 1].kind == LPAREN ||
            PopOperators(st, prec).stack[|PopOperators(st, prec).stack| - 1].precedence < prec
    decreases |st.stack|
  {
    if st.stack != [] && st.stack[|st.stack| - 1].kind != LPAREN && st.stack[|st.stack| - 1].precedence >= prec {
      var m := Move(st);
      assert PopOperators(st, prec) == PopOperators(m, prec);
      PopOperatorsStops(m, prec);
      var n := |PopOperators(m, prec).stack|;
      assert m.stack[..n] == st.stack[..n];
    } else {
      assert st.stack[..|st.stack|] == st.stack;
    }
  }

  /** The popped operators reach the output top first. */
  lemma {:induction false} PopOperatorsOutput(st: Shunting, prec: int)
    ensures |PopOperators(st, prec).stack| <= |st.stack|
    ensures PopOperators(st, prec).rpn == st.rpn + Reversed(st.stack[|PopOperators(st, prec).stack|..])
    decreases |st.stack|
  {
    if st.stack != [] && st.stack[|st.stack| - 1].kind != LPAREN && st.stack[|st.stack| - 1].precedence >= prec {
      var m := Move(st);
      var top := st.stack[|st.stack| - 1];
      assert PopOperators(st, prec) == PopOperators(m, prec);
      PopOperatorsOutput(m, prec);
      var n := |PopOperators(m, prec).stack|;
      assert st.stack[n..] == m.stack[n..] + [top];
      ReversedSnoc(m.stack[n..], top);
      assert m.rpn + Reversed(m.stack[n..]) == st.rpn + ([top] + Reversed(m.stack[n..]));
    } else {
      assert st.stack[|st.stack|..] == [];
      assert st.rpn + [] == st.rpn;
    }
  }

  /** s in reverse order. */
  function Reversed(s: seq<Token>): (r: seq<Token>)
    ensures |r| == |s|
  {
    if s == [] then [] else [s[|s| - 1]] + Reversed(s[..|s| - 1])
  }

  lemma ReversedSnoc(s: seq<Token>, x: Token)
    ensures Reversed(s + [x]) == [x] + Reversed(s)
  {
    assert (s + [x])[..|s|] == s;
  }

  /** One more token is one more step. */
  lemma ShuntSnoc(tokens: seq<Token>, t: Token)
    ensures Shunt(tokens + [t]) == Step(Shunt(tokens), t)
  {
    assert (tokens + [t])[..|tokens|] == tokens;
  }

  /** AND binds tighter than OR: "a | b & c" becomes a b c & |. */
  lemma AndBeforeOr(a: Token, b: Token, c: Token, or: Token, and: Token)
    requires a.kind == WORD && b.kind == WORD && c.kind == WORD
    requires or == Token([BAR], OR, 1) && and == Token([AMPERSAND], AND, 2)
    ensures Rpn([a, or, b, and, c]) == [a, b, c, and, or]
  {
    var t3 := OperandOperand(a, b, or);
    var t4 := t3 + [and];
    var t5 := t4 + [c];
    assert Shunt(t4) == Shunting([a, b], [or, and]) by {
      ShuntSnoc(t3, and);
      assert PopOperators(Shunting([a, b], [or]), 2) == Shunting([a, b], [or]);
      assert [or] + [and] == [or, and];
    }
    assert Shunt(t5) == Shunting([a, b, c], [or, and]) by {
      ShuntSnoc(t4, c);
      assert [a, b] + [c] == [a, b, c];
    }
    assert Flush(Shunting([a, b, c], [or, and])) == [a, b, c, and, or] by {
      assert [or, and][..1] == [or] && [or][..0] == [];
      assert Move(Shunting([a, b, c], [or, and])) == Shunting([a, b, c, and], [or]);
      assert Move(Shunting([a, b, c, and], [or])) == Shunting([a, b, c, and, or], []);
      assert Flush(Shunting([a, b, c, and], [or])) == [a, b, c, and, or];
    }
    assert t5 == [a, or, b, and, c];
  }

  /** "a | b" leaves a b in the output and "|" on the stack. */
  lemma OperandOperand(a: Token, b: Token, or: Token) returns (t3: seq<Token>)
    requires a.kind == WORD && b.kind == WORD && or == Token([BAR], OR, 1)
    ensures t3 == [a, or, b] && Shunt(t3) == Shunting([a, b], [or])
  {
    var t1: seq<Token> := [a];
    var t2 := t1 + [or];
    t3 := t2 + [b];
    assert Shunt(t1) == Shunting([a], []) by {
      ShuntSnoc([], a);
      assert [] + [a] == t1;
    }
    assert Shunt(t2) == Shunting([a], [or]) by {
      ShuntSnoc(t1, or);
      assert [] + [or] == [or];
    }
    ShuntSnoc(t2, b);
    assert [a] + [b] == [a, b];
  }

  /** Parentheses override precedence: "( a | b ) & c" becomes a b | c &. */
  lemma ParensFirst(a: Token, b: Token, c: Token, or: Token, and: Token, open: Token, close: Token)
    requires a.kind == WORD && b.kind == WORD && c.kind == WORD
    requires or == Token([BAR], OR, 1) && and == Token([AMPERSAND], AND, 2)
    requires open == Token([OPEN], LPAREN, 0) && close == Token([CLOSE], RPAREN, 0)
    ensures Rpn([open, a, or, b, close, and, c]) == [a, b, or, c, and]
  {
    var t5: seq<Token> := [open, a, or, b, close];
    ParenGroup(a, b, or, open, close);
    var t6 := t5 + [and];
    var t7 := t6 + [c];
    assert Shunt(t6) == Shunting([a, b, or], [and]) by {
      ShuntSnoc(t5, and);
      assert [] + [and] == [and];
    }
    assert Shunt(t7) == Shunting([a, b, or, c], [and]) by {
      ShuntSnoc(t6, c);
      assert [a, b, or] + [c] == [a, b, or, c];
    }
    assert Flush(Shunting([a, b, or, c], [and])) == [a, b, or, c, and] by {
      assert [and][..0] == [];
      assert Move(Shunting([a, b, or, c], [and])) == Shunting([a, b, or, c, and], []);
    }
    assert t7 == [open, a, or, b, close, and, c];
  }

  /** "( a | b )" outputs a b | and leaves the stack empty. */
  lemma ParenGroup(a: Token, b: Token, or: Token, open: Token, close: Token)
    requires a.kind == WORD && b.kind == WORD
    requires or == Token([BAR], OR, 1)
    requires open == Token([OPEN], LPAREN, 0) && close == Token([CLOSE], RPAREN, 0)
    ensures Shunt([open, a, or, b, close]) == Shunting([a, b, or], [])
  {
    var t4 := InsideGroup(a, b, or, open);
    ShuntSnoc(t4, close);
    var st := Shunting([a, b], [open, or]);
    assert [open, or][..1] == [open] && [open][..0] == [];
    assert Move(st) == Shunting([a, b, or], [open]);
    assert PopUntilOpen(Move(st)) == Move(st);
    assert t4 + [close] == [open, a, or, b, close];
  }

  /** "( a | b" leaves a b in the output and "(" "|" on the stack. */
  lemma InsideGroup(a: Token, b: Token, or: Token, open: Token) returns (t4: seq<Token>)
    requires a.kind == WORD && b.kind == WORD
    requires or == Token([BAR], OR, 1) && open == Token([OPEN], LPAREN, 0)
    ensures t4 == [open, a, or, b] && Shunt(t4) == Shunting([a, b], [open, or])
  {
    var t1: seq<Token> := [open];
    var t2 := t1 + [a];
    var t3 := t2 + [or];
    t4 := t3 + [b];
    assert Shunt(t1) == Shunting([], [open]) by {
      ShuntSnoc([], open);
      assert [] + [open] == t1;
    }
    assert Shunt(t2) == Shunting([a], [open]) by {
      ShuntSnoc(t1, a);
    }
    assert Shunt(t3) == Shunting([a], [open, or]) by {
      ShuntSnoc(t2, or);
      assert PopOperators(Shunting([a], [open]), 1) == Shunting([a], [open]);
      assert [open] + [or] == [open, or];
    }
    ShuntSnoc(t3, b);
    assert [a] + [b] == [a, b];
  }




  /** An unmatched "(" is output with the leftovers: "( a b" becomes a b (. */
  lemma UnmatchedOpenFlushed(a: Token, b: Token, open: Token)
    requires a.kind == WORD && b.kind == WORD && open == Token([OPEN], LPAREN, 0)
    ensures Rpn([open, a, b]) == [a, b, open]
  {
    assert Shunt([open]) == Shunting([], [open]) by {
      ShuntSnoc([], open);
      assert [] + [open] == [open];
    }
    assert Shunt([open, a]) == Shunting([a], [open]) by {
      ShuntSnoc([open], a);
      assert [open] + [a] == [open, a];
    }
    assert Shunt([open, a, b]) == Shunting([a, b], [open]) by {
      ShuntSnoc([open, a], b);
      assert [open, a] + [b] == [open, a, b];
    }
    assert [open][..0] == [];
    assert Move(Shunting([a, b], [open])) == Shunting([a, b, open], []);
    assert Flush(Shunting([a, b], [open])) == [a, b, open];
  }
}
