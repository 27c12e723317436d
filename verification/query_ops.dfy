/** The private helpers of QueryParser: classifying a segment as an
    operator, and the three operations on docId lists that the evaluator
    applies (std::set_intersection, std::set_union and the complement
    loop of opNOT). Strings are the UTF-8 bytes of std::string. */
module QueryOperators {
  import opened Common

  datatype TokenType = WORD | AND | OR | NOT | LPAREN | RPAREN

  /** value, type and precedence of a query token */
  datatype Token = Token(value: Bytes, kind: TokenType, precedence: int)

  /** The binding strength of each operator: NOT binds tighter than AND,
      AND tighter than OR; parentheses have 0. */
  function Precedence(kind: TokenType): int {
    match kind
    case OR => 1
    case AND => 2
    case NOT => 3
    case _ => 0
  }

  // The UTF-8 spellings of the Russian operator words.
  const ILI_UPPER: Bytes := [0xD0, 0x98, 0xD0, 0x9B, 0xD0, 0x98]  // ИЛИ
  const ILI_LOWER: Bytes := [0xD0, 0xB8, 0xD0, 0xBB, 0xD0, 0xB8]  // или
  const I_UPPER: Bytes := [0xD0, 0x98]                            // И
  const I_LOWER: Bytes := [0xD0, 0xB8]                            // и
  const NE_UPPER: Bytes := [0xD0, 0x9D, 0xD0, 0x95]              // НЕ
  const NE_LOWER: Bytes := [0xD0, 0xBD, 0xD0, 0xB5]              // не

  const BAR: Byte := 0x7C        // |
  const AMPERSAND: Byte := 0x26  // &
  const BANG: Byte := 0x21       // !
  const OPEN: Byte := 0x28       // (
  const CLOSE: Byte := 0x29      // )

  /** The spellings of each kind of operator. */
  function Spellings(kind: TokenType): set<Bytes> {
    match kind
    case OR => {ILI_UPPER, ILI_LOWER, [BAR]}
    case AND => {[AMPERSAND], [AMPERSAND, AMPERSAND], I_UPPER, I_LOWER}
    case NOT => {[BANG], NE_UPPER, NE_LOWER}
    case LPAREN => {[OPEN]}
    case RPAREN => {[CLOSE]}
    case WORD => {}
  }

  /** tryParseOperator: the operator a whole segment spells, with its
      precedence, or None for every other segment. */
  function TryParseOperator(raw: Bytes): (r: Option<(TokenType, int)>)
    ensures r.Some? ==> raw in Spellings(r.value.0) && r.value.1 == Precedence(r.value.0)
    ensures r.None? ==> forall kind :: raw !in Spellings(kind)
    ensures r.Some? ==> r.value.0 != WORD
  {
    if raw == ILI_UPPER || raw == ILI_LOWER || raw == [BAR] then Some((OR, 1))
    else if raw == [AMPERSAND] || raw == [AMPERSAND, AMPERSAND] || raw == I_UPPER || raw == I_LOWER then Some((AND, 2))
    else if raw == [BANG] || raw == NE_UPPER || raw == NE_LOWER then Some((NOT, 3))
    else if raw == [OPEN] then Some((LPAREN, 0))
    else if raw == [CLOSE] then Some((RPAREN, 0))
    else
      assert forall kind :: raw !in Spellings(kind);
      None
  }

  /** std::set_intersection on two docId lists: a merge that keeps an
      element of a when b holds an equal one. */
  function Intersect(a: seq<U32>, b: seq<U32>): (r: seq<U32>)
    ensures forall x :: x in r ==> x in a && x in b
    decreases |a| + |b|
  {
    if a == [] || b == [] then []
    else if a[0] < b[0] then Intersect(a[1..], b)
    else if b[0] < a[0] then Intersect(a, b[1..])
    else [a[0]] + Intersect(a[1..], b[1..])
  }

  /** std::set_union on two docId lists: a merge that writes an element
      present in both lists once. */
  function Union(a: seq<U32>, b: seq<U32>): (r: seq<U32>)
    ensures forall x :: x in r <==> x in a || x in b
    decreases |a| + |b|
  {
    if a == [] then b
    else if b == [] then a
    else if b[0] < a[0] then [b[0]] + Union(a, b[1..])
    else if a[0] < b[0] then [a[0]] + Union(a[1..], b)
    else [a[0]] + Union(a[1..], b[1..])
  }

  /** x before a strictly sorted list of larger values keeps it strictly
      sorted. */
  lemma SortedCons(x: int, s: seq<int>)
    requires StrictlySorted(s) && forall y :: y in s ==> x < y
    ensures StrictlySorted([x] + s)
  {
    var r := [x] + s;
    forall i, j | 0 <= i < j < |r|
      ensures r[i] < r[j]
    {
      assert r[j] == s[j - 1];
      if i > 0 {
        assert r[i] == s[i - 1];
      } else {
        assert s[j - 1] in s;
      }
    }
  }

  /** The head of a strictly sorted list is below everything after it. */
  lemma HeadBelowTail(s: seq<int>)
    requires s != [] && StrictlySorted(s)
    ensures StrictlySorted(s[1..]) && forall y :: y in s[1..] ==> s[0] < y
  {
    forall y | y in s[1..]
      ensures s[0] < y
    {
      var j :| 0 <= j < |s[1..]| && s[1..][j] == y;
      assert s[j + 1] == y;
    }
  }

  /** On sorted unique lists the intersection is sorted and unique and holds
      exactly the common ids. */
  lemma {:induction false} IntersectSorted(a: seq<U32>, b: seq<U32>)
    requires StrictlySorted(a) && StrictlySorted(b)
    ensures StrictlySorted(Intersect(a, b))
    ensures forall x :: x in Intersect(a, b) <==> x in a && x in b
    decreases |a| + |b|
  {
    if a != [] && b != [] {
      HeadBelowTail(a);
      HeadBelowTail(b);
      assert a == [a[0]] + a[1..] && b == [b[0]] + b[1..];
      if a[0] < b[0] {
        IntersectSorted(a[1..], b);
      } else if b[0] < a[0] {
        IntersectSorted(a, b[1..]);
      } else {
        IntersectSorted(a[1..], b[1..]);
        SortedCons(a[0], Intersect(a[1..], b[1..]));
      }
    }
  }

  /** On sorted unique lists the union is sorted and unique. */
  lemma {:induction false} UnionSorted(a: seq<U32>, b: seq<U32>)
    requires StrictlySorted(a) && StrictlySorted(b)
    ensures StrictlySorted(Union(a, b))
    decreases |a| + |b|
  {
    if a != [] && b != [] {
      HeadBelowTail(a);
      HeadBelowTail(b);
      if b[0] < a[0] {
        UnionSorted(a, b[1..]);
        SortedCons(b[0], Union(a, b[1..]));
      } else if a[0] < b[0] {
        UnionSorted(a[1..], b);
        SortedCons(a[0], Union(a[1..], b));
      } else {
        UnionSorted(a[1..], b[1..]);
        SortedCons(a[0], Union(a[1..], b[1..]));
      }
    }
  }

  /** The ids in [0, n) that a does not hold, in ascending order. */
  function Complement(a: seq<U32>, n: nat): (r: seq<U32>)
    requires n <= TWO32
    ensures StrictlySorted(r) && AllBelow(r, n)
    ensures forall x :: x in r <==> 0 <= x < n && x !in a
  {
    if n == 0 then []
    else
      var front := Complement(a, n - 1);
      var r := front + (if n - 1 in a then [] else [n - 1]);
      assert forall i :: 0 <= i < |front| ==> front[i] in front;
      r
  }

  /** opNOT: one pass over [0, totalDocs) that skips the ids of a as it
      meets them in order. reserve(totalDocs - a.size()) needs a to be no
      longer than totalDocs, and the uint32_t counter needs totalDocs below
      2^32 for the loop to end. */
  method OpNot(a: seq<U32>, totalDocs: U64) returns (res: seq<U32>)
    requires |a| <= totalDocs && totalDocs < TWO32
    ensures StrictlySorted(res) && AllBelow(res, totalDocs)
    ensures forall x :: 0 <= x < totalDocs && x !in a ==> x in res
    ensures StrictlySorted(a) ==> res == Complement(a, totalDocs)
  {
    res := [];
    var aIdx := 0;
    for docId := 0 to totalDocs
      invariant NotState(a, docId, aIdx, res)
    {
      if aIdx < |a| && a[aIdx] == docId {
        NotSkip(a, docId, aIdx, res);
        aIdx := aIdx + 1;
      } else {
        NotKeep(a, docId, aIdx, res);
        res := res + [docId];
      }
    }
    NotDone(a, totalDocs, aIdx, res);
  }

  /** What the opNOT loop has built once it reaches docId with a_idx at
      aIdx: the ids below docId missing from a, ascending; for a sorted a,
      exactly their Complement, with a_idx past the ids of a below docId. */
  ghost predicate NotState(a: seq<U32>, docId: nat, aIdx: nat, res: seq<int>) {
    && docId <= TWO32
    && aIdx <= |a|
    && StrictlySorted(res) && AllBelow(res, docId)
    && (forall x :: 0 <= x < docId && x !in a ==> x in res)
    && (StrictlySorted(a) ==>
          && res == Complement(a, docId)
          && (forall k :: 0 <= k < aIdx ==> a[k] < docId)
          && (forall k :: aIdx <= k < |a| ==> a[k] >= docId))
  }

  /** The loop step that meets a[a_idx]. */
  lemma NotSkip(a: seq<U32>, docId: nat, aIdx: nat, res: seq<int>)
    requires NotState(a, docId, aIdx, res)
    requires docId < TWO32 && aIdx < |a| && a[aIdx] == docId
    ensures NotState(a, docId + 1, aIdx + 1, res)
  {
    assert a[aIdx] in a;
    if StrictlySorted(a) {
      forall k | aIdx + 1 <= k < |a|
        ensures a[k] >= docId + 1
      {
        assert a[aIdx] < a[k];
      }
      ComplementSkip(a, docId);
    }
  }

  /** The loop step that emits docId. */
  lemma NotKeep(a: seq<U32>, docId: nat, aIdx: nat, res: seq<int>)
    requires NotState(a, docId, aIdx, res)
    requires docId < TWO32 && !(aIdx < |a| && a[aIdx] == docId)
    ensures NotState(a, docId + 1, aIdx, res + [docId])
  {
    SortedSnoc(res, docId);
    if StrictlySorted(a) {
      forall k | 0 <= k < |a|
        ensures a[k] != docId
      {
        if aIdx < k {
          assert a[aIdx] < a[k];
        }
      }
      ComplementKeep(a, docId);
    }
  }

  /** The loop's state at its exit gives what opNOT promises. */
  lemma NotDone(a: seq<U32>, totalDocs: nat, aIdx: nat, res: seq<int>)
    requires NotState(a, totalDocs, aIdx, res)
    ensures StrictlySorted(res) && AllBelow(res, totalDocs)
    ensures forall x :: 0 <= x < totalDocs && x !in a ==> x in res
    ensures StrictlySorted(a) ==> res == Complement(a, totalDocs)
  {
  }

  /** Complement over one more id that a holds is unchanged. */
  lemma ComplementSkip(a: seq<U32>, n: nat)
    requires n < TWO32 && n in a
    ensures Complement(a, n + 1) == Complement(a, n)
  {
  }

  /** Complement over one more id that a lacks ends with that id. */
  lemma ComplementKeep(a: seq<U32>, n: nat)
    requires n < TWO32 && n !in a
    ensures Complement(a, n + 1) == Complement(a, n) + [n]
  {
  }

  /** A value above every element of a strictly sorted list extends it. */
  lemma SortedSnoc(s: seq<int>, x: int)
    requires StrictlySorted(s) && forall i :: 0 <= i < |s| ==> s[i] < x
    ensures StrictlySorted(s + [x])
  {
  }
}
