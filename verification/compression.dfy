/** The var-byte integer codec of include/utils/Compression.hpp: an unsigned
    32-bit number is written in base-128 groups, least significant group
    first, and every byte except the last carries the continuation bit 128.
    This is the byte layout of unsigned LEB128 (DWARF Version 4, section 7.6). */
module Compression {
  import opened Common

  /** The bytes encodeVarByte appends for n. */
  function VarByte(n: nat): (r: Bytes)
    ensures |r| >= 1
    decreases n
  {
    if n < 128 then [n] else [n % 128 + 128] + VarByte(n / 128)
  }

  function Pow128(k: nat): (r: nat)
    ensures r >= 1
  {
    if k == 0 then 1 else 128 * Pow128(k - 1)
  }

  /** Every byte but the last has bit 7 set; the last has it clear. */
  predicate ContinuationShape(bs: Bytes) {
    && |bs| >= 1
    && (forall i :: 0 <= i < |bs| - 1 ==> bs[i] >= 128)
    && bs[|bs| - 1] < 128
  }

  lemma {:induction false} VarByteShape(n: nat)
    ensures ContinuationShape(VarByte(n))
    decreases n
  {
    if n >= 128 {
      VarByteShape(n / 128);
      var r := VarByte(n);
      assert r == [n % 128 + 128] + VarByte(n / 128);
      forall i | 0 <= i < |r| - 1 ensures r[i] >= 128 {
        if i > 0 { assert r[i] == VarByte(n / 128)[i - 1]; }
      }
    }
  }

  /** The encoding of n takes at most k bytes exactly when n < 128^k. */
  lemma {:induction false} VarByteLength(n: nat, k: nat)
    requires k >= 1
    ensures |VarByte(n)| <= k <==> n < Pow128(k)
    decreases n
  {
    if n >= 128 {
      if k == 1 {
        assert Pow128(1) == 128;
      } else {
        VarByteLength(n / 128, k - 1);
        assert n < Pow128(k) <==> n / 128 < Pow128(k - 1);
      }
    } else {
      assert Pow128(k) >= 128 by { Pow128AtLeast(k); }
    }
  }

  lemma {:induction false} Pow128AtLeast(k: nat)
    requires k >= 1
    ensures Pow128(k) >= 128
  {
    if k > 1 { Pow128AtLeast(k - 1); }
  }

  lemma Pow128Values()
    ensures Pow128(1) == 128 && Pow128(2) == 16384 && Pow128(3) == 2097152
    ensures Pow128(4) == 268435456 && Pow128(5) == 34359738368
  {
  }

  /** Every 32-bit number takes one to five bytes; the boundaries are 128,
      16384, 2^21 and 2^28. */
  lemma VarByteLengthBounds(n: U32)
    ensures 1 <= |VarByte(n)| <= 5
    ensures |VarByte(n)| == 1 <==> n < 128
    ensures |VarByte(n)| == 2 <==> 128 <= n < 16384
    ensures |VarByte(n)| == 5 <==> n >= 268435456
  {
    Pow128Values();
    VarByteLength(n, 1);
    VarByteLength(n, 2);
    VarByteLength(n, 4);
    VarByteLength(n, 5);
  }

  lemma VarByteExamples()
    ensures VarByte(5) == [5]
    ensures VarByte(127) == [127]
    ensures VarByte(128) == [0x80, 0x01]
    ensures VarByte(300) == [0xAC, 0x02]
    ensures |VarByte(0xFFFF_FFFF)| == 5
  {
    VarByteLengthBounds(0xFFFF_FFFF);
  }

  /** encodeVarByte: appends the encoding of number to output. */
  method EncodeVarByte(number: U32, output: Bytes) returns (output': Bytes)
    ensures output' == output + VarByte(number)
    ensures output'[..|output|] == output
    ensures |output| + 1 <= |output'| <= |output| + 5
    ensures ContinuationShape(output'[|output|..])
  {
    var n: nat := number;
    output' := output;
    while n >= 128
      invariant output' + VarByte(n) == output + VarByte(number)
    {
      output' := output' + [n % 128 + 128];  // (number & 127) | 128
      n := n / 128;                           // number >>= 7
    }
    output' := output' + [n];
    VarByteLengthBounds(number);
    VarByteShape(number);
    assert output'[|output|..] == VarByte(number);
  }

  /** The var-byte groups that start at pos: the number they spell (before
      any truncation to 32 bits) and the position just after the byte with
      the clear continuation bit; None when the data ends first. */
  function Groups(input: Bytes, pos: nat): (r: Option<(nat, nat)>)
    ensures r.Some? ==> pos < r.value.1 <= |input|
    decreases |input| - pos
  {
    if pos >= |input| then None
    else if input[pos] < 128 then Some((input[pos], pos + 1))
    else match Groups(input, pos + 1)
      case None => None
      case Some((v, end)) => Some((input[pos] - 128 + 128 * v, end))
  }

  /** What decodeVarByte returns and where it leaves the cursor: on overrun
      0, with the cursor unchanged if it started at or past the end and at
      the end otherwise. */
  function DecodeAt(input: Bytes, pos: nat): (r: (U32, nat))
    ensures pos >= |input| ==> r == (0, pos)
    ensures pos < |input| ==> pos < r.1 <= |input|
  {
    match Groups(input, pos)
    case None => (0, if pos >= |input| then pos else |input|)
    case Some((v, end)) => (v % TWO32, end)
  }

  /** decodeVarByte would shift by 35 bits, undefined behaviour in C++,
      on reaching a sixth byte; this excludes that input. */
  predicate NoOverlongGroup(input: Bytes, pos: nat) {
    !(pos + 5 < |input| && forall k | pos <= k < pos + 5 :: input[k] >= 128)
  }

  /** g << k on unbounded numbers: g doubled k times. */
  function Shl(g: nat, k: nat): (r: nat)
    ensures g == 0 ==> r == 0
  {
    if k == 0 then g else 2 * Shl(g, k - 1)
  }

  lemma {:induction false} ShlAdd(a: nat, b: nat, k: nat)
    ensures Shl(a + b, k) == Shl(a, k) + Shl(b, k)
  {
    if k > 0 { ShlAdd(a, b, k - 1); }
  }

  lemma {:induction false} ShlDouble(a: nat, k: nat)
    ensures Shl(2 * a, k) == Shl(a, k + 1)
  {
    if k > 0 { ShlDouble(a, k - 1); }
  }

  /** Shifting a group by 7 more bits is shifting 128 times the group. */
  lemma ShlSeven(v: nat, k: nat)
    ensures Shl(128 * v, k) == Shl(v, k + 7)
  {
    ShlDouble(64 * v, k);
    ShlDouble(32 * v, k + 1);
    ShlDouble(16 * v, k + 2);
    ShlDouble(8 * v, k + 3);
    ShlDouble(4 * v, k + 4);
    ShlDouble(2 * v, k + 5);
    ShlDouble(v, k + 6);
  }

  /** Groups read from p on, placed after `raw` with the first at bit `shift`. */
  function Resume(rest: Option<(nat, nat)>, raw: nat, shift: nat): Option<(nat, nat)> {
    match rest
    case None => None
    case Some((v, end)) => Some((raw + Shl(v, shift), end))
  }

  lemma ModAdd(a: nat, b: nat)
    ensures (a % TWO32 + b) % TWO32 == (a + b) % TWO32
  {
  }

  /** What the rest of decodeVarByte's loop produces from cursor p, having
      accumulated raw so far with the next group going to bit `shift`. */
  function Accumulate(input: Bytes, p: nat, raw: nat, shift: nat): Option<(nat, nat)>
    decreases |input| - p
  {
    if p >= |input| then None
    else if input[p] < 128 then Some((raw + Shl(input[p] % 128, shift), p + 1))
    else Accumulate(input, p + 1, raw + Shl(input[p] % 128, shift), shift + 7)
  }

  /** The loop's accumulation spells the groups: it adds the value of the
      groups from p on, shifted to bit `shift`, to what was read before. */
  lemma {:induction false} AccumulateGroups(input: Bytes, p: nat, raw: nat, shift: nat)
    ensures Accumulate(input, p, raw, shift) == Resume(Groups(input, p), raw, shift)
    decreases |input| - p
  {
    if p < |input| && input[p] >= 128 {
      var group := input[p] % 128;
      AccumulateGroups(input, p + 1, raw + Shl(group, shift), shift + 7);
      var rest := Groups(input, p + 1);
      if rest.Some? {
        var v := rest.value.0;
        assert Groups(input, p) == Some((group + 128 * v, rest.value.1));
        assert Shl(group + 128 * v, shift) == Shl(group, shift) + Shl(v, shift + 7) by {
          ShlAdd(group, 128 * v, shift);
          ShlSeven(v, shift);
        }
      }
    }
  }

  lemma DecodeAtOfGroups(input: Bytes, pos: nat, v: nat, end: nat)
    requires Groups(input, pos) == Some((v, end))
    ensures DecodeAt(input, pos) == (v % TWO32, end)
  {
  }

  /** decodeVarByte: reads one number at pos and moves the cursor past it.
      The source ORs each 7-bit group, shifted into a 32-bit word, into the
      result; the groups occupy disjoint bits, so that OR is the sum below
      taken modulo 2^32. */
  method DecodeVarByte(input: Bytes, pos: nat) returns (number: U32, pos': nat)
    requires NoOverlongGroup(input, pos)
    ensures (number, pos') == DecodeAt(input, pos)
    ensures pos >= |input| ==> number == 0 && pos' == pos
  {
    number := 0;
    var shift: nat := 0;
    pos' := pos;
    ghost var raw: nat := 0;
    while true
      invariant pos <= pos' && shift == 7 * (pos' - pos)
      invariant pos' == pos || pos' <= |input|
      invariant forall k | pos <= k < pos' && k < |input| :: input[k] >= 128
      invariant pos' - pos <= 4 || pos' >= |input|
      invariant number == raw % TWO32
      invariant Accumulate(input, pos, 0, 0) == Accumulate(input, pos', raw, shift)
      decreases |input| - pos'
    {
      if pos' >= |input| {
        AccumulateGroups(input, pos, 0, 0);
        number := 0;
        return;
      }
      var byte := input[pos'];
      assert shift <= 28;  // the shift below stays inside the 32-bit word
      var group := byte % 128;
      var shifted := Shl(group, shift);
      ModAdd(raw, shifted);
      number := (number + shifted) % TWO32;
      raw := raw + shifted;
      pos' := pos' + 1;
      if byte < 128 {
        AccumulateGroups(input, pos, 0, 0);
        DecodeAtOfGroups(input, pos, raw, pos');
        return;
      }
      shift := shift + 7;
    }
  }

  /** The encoding of n, found at pos, spells n and ends where it ends. */
  lemma {:induction false} GroupsOfVarByte(input: Bytes, pos: nat, n: nat)
    requires pos + |VarByte(n)| <= |input| && input[pos..pos + |VarByte(n)|] == VarByte(n)
    ensures Groups(input, pos) == Some((n, pos + |VarByte(n)|))
    decreases n
  {
    var e := VarByte(n);
    assert input[pos] == e[0];
    if n >= 128 {
      var rest := VarByte(n / 128);
      assert input[pos + 1..pos + 1 + |rest|] == rest by {
        assert e[1..] == rest;
        assert input[pos + 1..pos + |e|] == input[pos..pos + |e|][1..];
      }
      GroupsOfVarByte(input, pos + 1, n / 128);
    }
  }

  /** Round trip: wherever the encoding of a 32-bit n sits in the buffer,
      decoding there is defined, returns n and advances by its length. */
  lemma DecodeOfVarByte(input: Bytes, pos: nat, n: U32)
    requires pos + |VarByte(n)| <= |input| && input[pos..pos + |VarByte(n)|] == VarByte(n)
    ensures NoOverlongGroup(input, pos)
    ensures DecodeAt(input, pos) == (n, pos + |VarByte(n)|)
  {
    var e := VarByte(n);
    GroupsOfVarByte(input, pos, n);
    VarByteLengthBounds(n);
    VarByteShape(n);
    assert input[pos + |e| - 1] == e[|e| - 1] < 128;
  }

  /** The in-order concatenation of the encodings of xs. */
  function Encoded(xs: seq<U32>): (r: Bytes)
    ensures |r| >= |xs|
  {
    if xs == [] then [] else Encoded(xs[..|xs| - 1]) + VarByte(xs[|xs| - 1])
  }

  lemma {:induction false} EncodedLength(xs: seq<U32>)
    ensures |Encoded(xs)| <= 5 * |xs|
  {
    if xs != [] {
      EncodedLength(xs[..|xs| - 1]);
      VarByteLengthBounds(xs[|xs| - 1]);
    }
  }

  /** The encoding of a list starts with the encoding of its first element. */
  lemma {:induction false} EncodedCons(xs: seq<U32>)
    requires xs != []
    ensures Encoded(xs) == VarByte(xs[0]) + Encoded(xs[1..])
  {
    if |xs| > 1 {
      var init := xs[..|xs| - 1];
      EncodedCons(init);
      assert init[1..] == xs[1..][..|xs[1..]| - 1];
    } else {
      assert xs[..0] == [];
      assert xs[1..] == [];
    }
  }

  lemma EncodedConsLength(xs: seq<U32>)
    requires xs != []
    ensures |Encoded(xs)| == |VarByte(xs[0])| + |Encoded(xs[1..])|
  {
    EncodedCons(xs);
  }

  lemma {:induction false} EncodedAppend(xs: seq<U32>, ys: seq<U32>)
    ensures Encoded(xs + ys) == Encoded(xs) + Encoded(ys)
    decreases |ys|
  {
    if ys == [] {
      assert xs + ys == xs;
    } else {
      var init := ys[..|ys| - 1];
      assert (xs + ys)[..|xs + ys| - 1] == xs + init;
      EncodedAppend(xs, init);
    }
  }

  /** compressList: the encodings of numbers, one after another. */
  method CompressList(numbers: seq<U32>) returns (compressed: Bytes)
    ensures compressed == Encoded(numbers)
  {
    compressed := [];
    for i := 0 to |numbers|
      invariant compressed == Encoded(numbers[..i])
    {
      compressed := EncodeVarByte(numbers[i], compressed);
      assert numbers[..i + 1][..i] == numbers[..i];
    }
    assert numbers[..|numbers|] == numbers;
  }

  /** Decoding `count` numbers one after another from pos, as a caller
      does with repeated decodeVarByte calls: the values and the final cursor. */
  function DecodeMany(input: Bytes, pos: nat, count: nat): (seq<U32>, nat)
    decreases count
  {
    if count == 0 then ([], pos)
    else
      var (v, next) := DecodeAt(input, pos);
      var (vs, end) := DecodeMany(input, next, count - 1);
      ([v] + vs, end)
  }

  lemma DecodeManyStep(input: Bytes, pos: nat, count: nat, v: U32, next: nat)
    requires count > 0 && DecodeAt(input, pos) == (v, next)
    ensures DecodeMany(input, pos, count)
      == ([v] + DecodeMany(input, next, count - 1).0, DecodeMany(input, next, count - 1).1)
  {
  }

  /** The encodings of xs lie one after another from pos on. */
  predicate EncodedAt(input: Bytes, pos: nat, xs: seq<U32>)
    decreases |xs|
  {
    if xs == [] then pos <= |input|
    else
      var e := VarByte(xs[0]);
      && pos + |e| <= |input| && input[pos..pos + |e|] == e
      && EncodedAt(input, pos + |e|, xs[1..])
  }

  /** The buffer holding Encoded(xs) at pos holds each encoding in turn. */
  lemma {:induction false} EncodedAtOf(input: Bytes, pos: nat, xs: seq<U32>)
    requires pos + |Encoded(xs)| <= |input| && input[pos..pos + |Encoded(xs)|] == Encoded(xs)
    ensures EncodedAt(input, pos, xs)
    decreases |xs|
  {
    if xs != [] {
      var head := VarByte(xs[0]);
      var tail := Encoded(xs[1..]);
      EncodedCons(xs);
      SliceParts(input, pos, head, tail);
      EncodedAtOf(input, pos + |head|, xs[1..]);
    }
  }

  /** The first of the encodings lying in turn decodes to its number, and
      the others follow it. */
  lemma EncodedAtHead(input: Bytes, pos: nat, xs: seq<U32>) returns (next: nat)
    requires xs != [] && EncodedAt(input, pos, xs)
    ensures next == pos + |VarByte(xs[0])| && next + |Encoded(xs[1..])| == pos + |Encoded(xs)|
    ensures NoOverlongGroup(input, pos) && DecodeAt(input, pos) == (xs[0], next)
    ensures EncodedAt(input, next, xs[1..])
  {
    next := pos + |VarByte(xs[0])|;
    DecodeOfVarByte(input, pos, xs[0]);
    EncodedConsLength(xs);
  }

  /** Decoding |xs| numbers where their encodings lie in turn gives xs back
      and stops right after the last encoding. */
  lemma {:induction false} DecodeManyAt(input: Bytes, pos: nat, xs: seq<U32>)
    requires EncodedAt(input, pos, xs)
    ensures DecodeMany(input, pos, |xs|).0 == xs
    ensures DecodeMany(input, pos, |xs|).1 == pos + |Encoded(xs)|
    decreases |xs|
  {
    if xs != [] {
      var x := xs[0];
      var next := pos + |VarByte(x)|;
      var rest := DecodeMany(input, next, |xs| - 1);
      assert DecodeAt(input, pos) == (x, next) by {
        DecodeOfVarByte(input, pos, x);
      }
      assert rest.0 == xs[1..] && rest.1 == next + |Encoded(xs[1..])| by {
        assert |xs[1..]| == |xs| - 1;
        DecodeManyAt(input, next, xs[1..]);
      }
      assert DecodeMany(input, pos, |xs|) == ([x] + rest.0, rest.1) by {
        DecodeManyStep(input, pos, |xs|, x, next);
      }
      assert |Encoded(xs)| == |VarByte(x)| + |Encoded(xs[1..])| by {
        EncodedConsLength(xs);
      }
      assert [x] + xs[1..] == xs;
    }
  }
  /** Pairs the numbers of xs and ys position by position. */
  function Zip(xs: seq<U32>, ys: seq<U32>): (r: seq<(U32, U32)>)
    requires |xs| == |ys|
    ensures |r| == |xs|
  {
    seq(|xs|, i requires 0 <= i < |xs| => (xs[i], ys[i]))
  }

  /** Two buffers decoded in lockstep from posA and posB, one number from
      each per round, until the first buffer is used up. A group that would
      make decodeVarByte shift past 31 bits (undefined behaviour) in either
      buffer ends the decoding. */
  function DecodePairs(a: Bytes, b: Bytes, posA: nat, posB: nat): seq<(U32, U32)>
    decreases |a| - posA
  {
    if posA >= |a| then []
    else if !NoOverlongGroup(a, posA) || !NoOverlongGroup(b, posB) then []
    else
      var (x, nextA) := DecodeAt(a, posA);
      var (y, nextB) := DecodeAt(b, posB);
      [(x, y)] + DecodePairs(a, b, nextA, nextB)
  }

  /** Where the encodings of xs fill the first buffer from posA on and those
      of ys lie in the second from posB on, lockstep decoding pairs them
      back. */
  lemma {:induction false} DecodePairsAt(a: Bytes, b: Bytes, posA: nat, posB: nat, xs: seq<U32>, ys: seq<U32>)
    requires |xs| == |ys|
    requires EncodedAt(a, posA, xs) && posA + |Encoded(xs)| == |a|
    requires EncodedAt(b, posB, ys)
    ensures DecodePairs(a, b, posA, posB) == Zip(xs, ys)
    decreases |xs|
  {
    if xs != [] {
      var nextA := EncodedAtHead(a, posA, xs);
      var nextB := EncodedAtHead(b, posB, ys);
      DecodePairsAt(a, b, nextA, nextB, xs[1..], ys[1..]);
      assert Zip(xs, ys) == [(xs[0], ys[0])] + Zip(xs[1..], ys[1..]);
    } else {
      assert Encoded(xs) == [];
    }
  }


  /** List round trip: decoding |xs| numbers from the start of
      compressList(xs) gives xs back and stops at the end of the buffer. */
  lemma CompressListRoundTrip(xs: seq<U32>)
    ensures DecodeMany(Encoded(xs), 0, |xs|).0 == xs
    ensures DecodeMany(Encoded(xs), 0, |xs|).1 == |Encoded(xs)|
  {
    var c := Encoded(xs);
    assert c[0..|c|] == c;
    EncodedAtOf(c, 0, xs);
    DecodeManyAt(c, 0, xs);
  }
}
