/** Value types shared by every component: optional results, bytes, the
    fixed-width unsigned integers of the C++ code, and the little-endian
    fixed-width fields that the index and URL files are made of. */
module Common {

  /** A lookup that may miss: the model of nullptr or an absent key. */
  datatype Option<+T> = None | Some(value: T)

  type Byte = x: int | 0 <= x < 256
  type Bytes = seq<Byte>

  const TWO32: nat := 0x1_0000_0000
  const TWO64: nat := 0x1_0000_0000_0000_0000

  /** uint32_t */
  type U32 = x: int | 0 <= x < 0x1_0000_0000
  /** size_t on the 64-bit host the files are written on */
  type U64 = x: int | 0 <= x < 0x1_0000_0000_0000_0000

  /** Every element strictly smaller than the next: sorted and unique. */
  predicate StrictlySorted(s: seq<int>) {
    forall i, j :: 0 <= i < j < |s| ==> s[i] < s[j]
  }

  /** Every element no larger than the next. */
  predicate Sorted(s: seq<int>) {
    forall i, j :: 0 <= i < j < |s| ==> s[i] <= s[j]
  }

  predicate AllBelow(s: seq<int>, bound: int) {
    forall i :: 0 <= i < |s| ==> 0 <= s[i] < bound
  }

  function Pow256(k: nat): (r: nat)
    ensures r >= 1
  {
    if k == 0 then 1 else 256 * Pow256(k - 1)
  }

  /** The `width` bytes the host writes for an unsigned field holding n,
      least significant byte first (n is reduced modulo 256^width). */
  function LittleEndian(n: nat, width: nat): (r: Bytes)
    ensures |r| == width
  {
    if width == 0 then [] else [n % 256] + LittleEndian(n / 256, width - 1)
  }

  /** The unsigned value of a little-endian byte string. */
  function FromLittleEndian(bs: Bytes): (n: nat)
    ensures n < Pow256(|bs|)
  {
    if bs == [] then 0 else bs[0] + 256 * FromLittleEndian(bs[1..])
  }

  lemma {:induction false} LittleEndianRoundTrip(n: nat, width: nat)
    requires n < Pow256(width)
    ensures FromLittleEndian(LittleEndian(n, width)) == n
  {
    if width > 0 {
      var r := LittleEndian(n, width);
      assert r[1..] == LittleEndian(n / 256, width - 1);
      LittleEndianRoundTrip(n / 256, width - 1);
    }
  }

  /** A size_t field. */
  function SizeField(n: nat): (r: Bytes)
    ensures |r| == 8
  {
    LittleEndian(n, 8)
  }

  /** A uint32_t field. */
  function U32Field(n: nat): (r: Bytes)
    ensures |r| == 4
  {
    LittleEndian(n, 4)
  }

  /** Reading a size_t field at pos: its value and the position after it,
      or None when the data ends first. */
  function ReadSize(data: Bytes, pos: nat): (r: Option<(U64, nat)>)
    ensures r.Some? ==> r.value.1 == pos + 8 <= |data|
  {
    if pos + 8 <= |data| then
      Pow256Eight();
      Some((FromLittleEndian(data[pos..pos + 8]), pos + 8))
    else None
  }

  /** Reading a uint32_t field at pos. */
  function ReadU32(data: Bytes, pos: nat): (r: Option<(U32, nat)>)
    ensures r.Some? ==> r.value.1 == pos + 4 <= |data|
  {
    if pos + 4 <= |data| then
      Pow256Four();
      Some((FromLittleEndian(data[pos..pos + 4]), pos + 4))
    else None
  }

  /** Reading len raw bytes at pos. */
  function ReadRaw(data: Bytes, pos: nat, len: nat): (r: Option<(Bytes, nat)>)
    ensures r.Some? ==> |r.value.0| == len && r.value.1 == pos + len <= |data|
  {
    if pos + len <= |data| then Some((data[pos..pos + len], pos + len)) else None
  }

  lemma Pow256Eight()
    ensures Pow256(8) == TWO64
  {
    assert Pow256(4) == TWO32 by { Pow256Four(); }
    assert Pow256(8) == 256 * 256 * 256 * 256 * Pow256(4);
  }

  lemma Pow256Four()
    ensures Pow256(4) == TWO32
  {
    assert Pow256(4) == 256 * 256 * 256 * 256 * Pow256(0);
  }

  /** A size_t field written for n reads back as n. */
  lemma {:induction false} ReadSizeField(data: Bytes, pos: nat, n: nat)
    requires n < TWO64
    requires pos + 8 <= |data| && data[pos..pos + 8] == SizeField(n)
    ensures ReadSize(data, pos) == Some((n, pos + 8))
  {
    Pow256Eight();
    LittleEndianRoundTrip(n, 8);
  }

  /** A uint32_t field written for n reads back as n. */
  lemma {:induction false} ReadU32Field(data: Bytes, pos: nat, n: nat)
    requires n < TWO32
    requires pos + 4 <= |data| && data[pos..pos + 4] == U32Field(n)
    ensures ReadU32(data, pos) == Some((n, pos + 4))
  {
    Pow256Four();
    LittleEndianRoundTrip(n, 4);
  }

  /** A size_t field for n in front of back at pos reads back as n, and
      back lies right after it. */
  lemma ReadSizeFront(data: Bytes, pos: nat, n: nat, back: Bytes)
    requires n < TWO64
    requires pos + 8 + |back| <= |data| && data[pos..pos + 8 + |back|] == SizeField(n) + back
    ensures ReadSize(data, pos) == Some((n, pos + 8))
    ensures data[pos + 8..pos + 8 + |back|] == back
  {
    SliceParts(data, pos, SizeField(n), back);
    ReadSizeField(data, pos, n);
  }

  /** Raw bytes x in front of back at pos read back as x, and back lies
      right after them. */
  lemma ReadRawFront(data: Bytes, pos: nat, x: Bytes, back: Bytes)
    requires pos + |x| + |back| <= |data| && data[pos..pos + |x| + |back|] == x + back
    ensures ReadRaw(data, pos, |x|) == Some((x, pos + |x|))
    ensures data[pos + |x|..pos + |x| + |back|] == back
  {
    SliceParts(data, pos, x, back);
  }

  /** Strictly sorted values in [0, bound) are at most bound many. */
  lemma {:induction false} StrictlySortedBelowLength(s: seq<int>, bound: int)
    requires bound >= 0 && StrictlySorted(s) && AllBelow(s, bound)
    ensures |s| <= bound
  {
    if |s| > 0 {
      var last := |s| - 1;
      assert StrictlySorted(s[..last]);
      assert AllBelow(s[..last], s[last]);
      StrictlySortedBelowLength(s[..last], s[last]);
    }
  }

  /** Two byte strings found one after the other are each found in place. */
  lemma SliceParts(data: Bytes, pos: nat, front: Bytes, back: Bytes)
    requires pos + |front| + |back| <= |data|
    requires data[pos..pos + |front| + |back|] == front + back
    ensures data[pos..pos + |front|] == front
    ensures data[pos + |front|..pos + |front| + |back|] == back
  {
    var whole := data[pos..pos + |front| + |back|];
    assert data[pos..pos + |front|] == whole[..|front|];
    assert data[pos + |front|..pos + |front| + |back|] == whole[|front|..];
  }

  /** The byte strings of parts written one after another. */
  function Concat<T>(parts: seq<seq<T>>): (r: seq<T>)
  {
    if parts == [] then [] else Concat(parts[..|parts| - 1]) + parts[|parts| - 1]
  }

  /** Writing one more part appends it. */
  lemma ConcatSnoc<T>(parts: seq<seq<T>>, i: nat)
    requires i < |parts|
    ensures Concat(parts[..i + 1]) == Concat(parts[..i]) + parts[i]
  {
    assert parts[..i + 1][..i] == parts[..i];
  }

  /** A concatenation starts with its first part. */
  lemma {:induction false} ConcatCons<T>(parts: seq<seq<T>>)
    requires parts != []
    ensures Concat(parts) == parts[0] + Concat(parts[1..])
  {
    if |parts| > 1 {
      var init := parts[..|parts| - 1];
      ConcatCons(init);
      assert init[1..] == parts[1..][..|parts[1..]| - 1];
    } else {
      assert parts[..0] == [];
      assert parts[1..] == [];
    }
  }

  /** The parts lie one after another in data from pos on. */
  predicate PartsAt(data: Bytes, pos: nat, parts: seq<Bytes>)
    decreases |parts|
  {
    if parts == [] then pos <= |data|
    else
      && pos + |parts[0]| <= |data| && data[pos..pos + |parts[0]|] == parts[0]
      && PartsAt(data, pos + |parts[0]|, parts[1..])
  }

  /** Where the concatenation lies, each part lies in turn. */
  lemma {:induction false} PartsAtOf(data: Bytes, pos: nat, parts: seq<Bytes>)
    requires pos + |Concat(parts)| <= |data| && data[pos..pos + |Concat(parts)|] == Concat(parts)
    ensures PartsAt(data, pos, parts)
    decreases |parts|
  {
    if parts != [] {
      var rest := Concat(parts[1..]);
      ConcatCons(parts);
      SliceParts(data, pos, parts[0], rest);
      PartsAtOf(data, pos + |parts[0]|, parts[1..]);
    }
  }

  /** Up to count records read one after another from pos with read,
      stopping at the first one the data cannot hold. */
  function ReadMany<T>(read: (Bytes, nat) -> Option<(T, nat)>, data: Bytes, pos: nat, count: nat): seq<T>
    decreases count
  {
    if count == 0 then []
    else match read(data, pos)
      case None => []
      case Some((entry, next)) => [entry] + ReadMany(read, data, next, count - 1)
  }

  /** Records whose encodings lie one after another are read back in
      order, when each encoding, wherever it lies, reads back as its
      record. */
  lemma ReadManyAt<T>(read: (Bytes, nat) -> Option<(T, nat)>, data: Bytes, pos: nat,
                      parts: seq<Bytes>, entries: seq<T>)
    requires |parts| == |entries| && PartsAt(data, pos, parts)
    requires ReadsBack(read, data, parts, entries)
    ensures ReadMany(read, data, pos, |entries|) == entries
  {
    assert parts[0..] == parts && entries[0..] == entries;
    ReadManyFrom(read, data, pos, parts, entries, 0);
  }

  /** Each part, wherever it lies in data, reads back as its entry. */
  ghost predicate ReadsBack<T>(read: (Bytes, nat) -> Option<(T, nat)>, data: Bytes, parts: seq<Bytes>, entries: seq<T>)
    requires |parts| == |entries|
  {
    forall k, p: nat ::
      0 <= k < |parts| && p + |parts[k]| <= |data| && data[p..p + |parts[k]|] == parts[k]
      ==> read(data, p) == Some((entries[k], p + |parts[k]|))
  }

  /** ReadsBack from its instances. */
  lemma ReadsBackOf<T>(read: (Bytes, nat) -> Option<(T, nat)>, data: Bytes, parts: seq<Bytes>, entries: seq<T>)
    requires |parts| == |entries|
    requires forall k, p: nat ::
               0 <= k < |parts| && p + |parts[k]| <= |data| && data[p..p + |parts[k]|] == parts[k]
               ==> read(data, p) == Some((entries[k], p + |parts[k]|))
    ensures ReadsBack(read, data, parts, entries)
  {
  }

  /** The induction behind ReadManyAt, over the index j of the next part,
      which lies at pos. */
  lemma {:induction false} ReadManyFrom<T>(read: (Bytes, nat) -> Option<(T, nat)>, data: Bytes, pos: nat,
                                           parts: seq<Bytes>, entries: seq<T>, j: nat)
    requires |parts| == |entries| && j <= |parts| && PartsAt(data, pos, parts[j..])
    requires ReadsBack(read, data, parts, entries)
    ensures ReadMany(read, data, pos, |entries| - j) == entries[j..]
    decreases |parts| - j
  {
    if j < |parts| {
      var part := parts[j];
      var next := pos + |part|;
      PartsAtNext(data, pos, parts, j);
      assert read(data, pos) == Some((entries[j], next));
      ReadManyCons(read, data, pos, |entries| - j, entries[j], next);
      ReadManyFrom(read, data, next, parts, entries, j + 1);
      assert entries[j..] == [entries[j]] + entries[j + 1..];
    }
  }

  /** The part at index j lies at pos, and the rest follow it. */
  lemma PartsAtNext(data: Bytes, pos: nat, parts: seq<Bytes>, j: nat)
    requires j < |parts| && PartsAt(data, pos, parts[j..])
    ensures pos + |parts[j]| <= |data| && data[pos..pos + |parts[j]|] == parts[j]
    ensures PartsAt(data, pos + |parts[j]|, parts[j + 1..])
  {
    assert parts[j..][0] == parts[j] && parts[j..][1..] == parts[j + 1..];
  }

  /** One record read, then the rest. */
  lemma ReadManyCons<T>(read: (Bytes, nat) -> Option<(T, nat)>, data: Bytes, pos: nat, count: nat, entry: T, next: nat)
    requires count > 0 && read(data, pos) == Some((entry, next))
    ensures ReadMany(read, data, pos, count) == [entry] + ReadMany(read, data, next, count - 1)
  {
  }

  /** The elements of s that satisfy keep, in order. */
  function Filter<T>(s: seq<T>, keep: T -> bool): (r: seq<T>)
    ensures |r| <= |s|
  {
    if s == [] then [] else (if keep(s[0]) then [s[0]] else []) + Filter(s[1..], keep)
  }

  /** The length of the longest prefix of s whose elements all satisfy keep. */
  function LeadLength<T>(s: seq<T>, keep: T -> bool): (n: nat)
    ensures n <= |s|
    ensures forall i :: 0 <= i < n ==> keep(s[i])
    ensures n < |s| ==> !keep(s[n])
  {
    if s == [] || !keep(s[0]) then 0 else 1 + LeadLength(s[1..], keep)
  }

  /** The maximal runs of consecutive elements of s that satisfy keep, in
      order: the pieces a scanner collecting such elements and cutting at
      every other one produces. */
  function Runs<T>(s: seq<T>, keep: T -> bool): seq<seq<T>>
    decreases |s|
  {
    if s == [] then []
    else if !keep(s[0]) then Runs(s[1..], keep)
    else
      var n := LeadLength(s, keep);
      [s[..n]] + Runs(s[n..], keep)
  }

  /** Every run is non-empty and made of elements satisfying keep. */
  lemma {:induction false} RunsKept<T>(s: seq<T>, keep: T -> bool)
    ensures forall r :: r in Runs(s, keep) ==> r != [] && forall x :: x in r ==> keep(x)
    decreases |s|
  {
    if s != [] {
      if !keep(s[0]) {
        RunsKept(s[1..], keep);
      } else {
        var n := LeadLength(s, keep);
        RunsKept(s[n..], keep);
      }
    }
  }

  lemma {:induction false} FilterKeptPrefix<T>(s: seq<T>, keep: T -> bool, n: nat)
    requires n <= |s| && forall i :: 0 <= i < n ==> keep(s[i])
    ensures Filter(s, keep) == s[..n] + Filter(s[n..], keep)
  {
    if n > 0 {
      FilterKeptPrefix(s[1..], keep, n - 1);
      assert s[1..][n - 1..] == s[n..];
      assert s[..n] == [s[0]] + s[1..][..n - 1];
    }
  }

  /** The runs joined together are exactly the elements satisfying keep:
      none is lost, none is added, and the order is kept. */
  lemma {:induction false} RunsJoin<T>(s: seq<T>, keep: T -> bool)
    ensures Concat(Runs(s, keep)) == Filter(s, keep)
    decreases |s|
  {
    if s != [] {
      if !keep(s[0]) {
        RunsJoin(s[1..], keep);
      } else {
        var n := LeadLength(s, keep);
        var runs := Runs(s, keep);
        assert runs == [s[..n]] + Runs(s[n..], keep);
        ConcatCons(runs);
        assert runs[1..] == Runs(s[n..], keep);
        RunsJoin(s[n..], keep);
        FilterKeptPrefix(s, keep, n);
      }
    }
  }

  /** A scanner step: a run w collected so far, cut by an element that
      fails keep, is a run of its own. */
  lemma RunsCut<T>(w: seq<T>, c: T, rest: seq<T>, keep: T -> bool)
    requires w != [] && (forall i :: 0 <= i < |w| ==> keep(w[i])) && !keep(c)
    ensures Runs(w + [c] + rest, keep) == [w] + Runs(rest, keep)
  {
    var s := w + [c] + rest;
    assert LeadLength(s, keep) == |w| by {
      LeadLengthOf(s, keep, |w|);
    }
    assert s[..|w|] == w;
    assert s[|w|..] == [c] + rest;
    assert ([c] + rest)[1..] == rest;
  }

  /** The scanner's state after i elements of s: the runs closed so far
      and the run w still being collected. */
  ghost predicate ScanState<T>(s: seq<T>, i: nat, closed: seq<seq<T>>, w: seq<T>, keep: T -> bool)
    requires i <= |s|
  {
    && (forall k :: 0 <= k < |w| ==> keep(w[k]))
    && Runs(s, keep) == closed + Runs(w + s[i..], keep)
  }

  /** Before the first element nothing is closed or collected. */
  lemma ScanStart<T>(s: seq<T>, keep: T -> bool)
    ensures ScanState(s, 0, [], [], keep)
  {
    assert [] + s[0..] == s;
  }

  /** After the last element, the collected run, if any, is the last run. */
  lemma ScanFinish<T>(s: seq<T>, closed: seq<seq<T>>, w: seq<T>, keep: T -> bool)
    requires ScanState(s, |s|, closed, w, keep)
    ensures Runs(s, keep) == if w == [] then closed else closed + [w]
  {
    assert w + s[|s|..] == w;
    if w != [] {
      RunsWhole(w, keep);
    }
  }

  /** Element s[i] satisfying keep joins the collected run. */
  lemma ScanJoin<T>(s: seq<T>, i: nat, closed: seq<seq<T>>, w: seq<T>, keep: T -> bool)
    requires i < |s| && ScanState(s, i, closed, w, keep) && keep(s[i])
    ensures ScanState(s, i + 1, closed, w + [s[i]], keep)
  {
    assert w + s[i..] == (w + [s[i]]) + s[i + 1..];
  }

  /** Element s[i] failing keep closes a non-empty collected run. */
  lemma ScanCut<T>(s: seq<T>, i: nat, closed: seq<seq<T>>, w: seq<T>, keep: T -> bool)
    requires i < |s| && ScanState(s, i, closed, w, keep) && !keep(s[i]) && w != []
    ensures ScanState(s, i + 1, closed + [w], [], keep)
  {
    assert w + s[i..] == w + [s[i]] + s[i + 1..];
    RunsCut(w, s[i], s[i + 1..], keep);
    assert [] + s[i + 1..] == s[i + 1..];
  }

  /** Element s[i] failing keep, with no run collected, is dropped. */
  lemma ScanDrop<T>(s: seq<T>, i: nat, closed: seq<seq<T>>, keep: T -> bool)
    requires i < |s| && ScanState(s, i, closed, [], keep) && !keep(s[i])
    ensures ScanState(s, i + 1, closed, [], keep)
  {
    assert [] + s[i..] == s[i..] && [] + s[i + 1..] == s[i + 1..];
    assert s[i..][1..] == s[i + 1..];
  }

  /** A sequence with no element satisfying keep has no runs. */
  lemma {:induction false} RunsNone<T>(s: seq<T>, keep: T -> bool)
    requires forall i :: 0 <= i < |s| ==> !keep(s[i])
    ensures Runs(s, keep) == []
  {
    if s != [] {
      RunsNone(s[1..], keep);
    }
  }

  /** A collected run at the end of the input is the last run. */
  lemma RunsWhole<T>(w: seq<T>, keep: T -> bool)
    requires w != [] && forall i :: 0 <= i < |w| ==> keep(w[i])
    ensures Runs(w, keep) == [w]
  {
    assert LeadLength(w, keep) == |w| by {
      LeadLengthOf(w, keep, |w|);
    }
    assert w[..|w|] == w;
  }

  lemma {:induction false} LeadLengthOf<T>(s: seq<T>, keep: T -> bool, n: nat)
    requires n <= |s| && (forall i :: 0 <= i < n ==> keep(s[i])) && (n < |s| ==> !keep(s[n]))
    ensures LeadLength(s, keep) == n
  {
    if n > 0 {
      LeadLengthOf(s[1..], keep, n - 1);
    }
  }

  /** Filtering distributes over concatenation. */
  lemma {:induction false} FilterAppend<T>(a: seq<T>, b: seq<T>, keep: T -> bool)
    ensures Filter(a + b, keep) == Filter(a, keep) + Filter(b, keep)
  {
    if a != [] {
      assert (a + b)[1..] == a[1..] + b;
      FilterAppend(a[1..], b, keep);
    } else {
      assert a + b == b;
    }
  }

  /** One more element is kept or dropped on its own. */
  lemma FilterSnoc<T>(s: seq<T>, x: T, keep: T -> bool)
    ensures Filter(s + [x], keep) == Filter(s, keep) + (if keep(x) then [x] else [])
  {
    FilterAppend(s, [x], keep);
    assert [x][1..] == [];
  }

  /** Elements flagged alone whose neighbours all fail keep form runs of
      their own: a run holding one of them holds nothing else. */
  lemma {:induction false} RunsIsolated<T>(s: seq<T>, keep: T -> bool, alone: T -> bool)
    requires forall k :: 0 <= k < |s| && alone(s[k]) ==>
               (k == 0 || !keep(s[k - 1])) && (k == |s| - 1 || !keep(s[k + 1]))
    ensures forall run, x :: run in Runs(s, keep) && x in run && alone(x) ==> run == [x]
    decreases |s|
  {
    if s != [] {
      if !keep(s[0]) {
        IsolatedSuffix(s, keep, alone, 1);
        RunsIsolated(s[1..], keep, alone);
      } else {
        var n := LeadLength(s, keep);
        IsolatedSuffix(s, keep, alone, n);
        RunsIsolated(s[n..], keep, alone);
        forall i | 0 < i < n
          ensures !alone(s[i])
        {
          assert keep(s[i - 1]);
        }
        if n > 1 {
          assert keep(s[1]);
        }
        assert n > 1 ==> !alone(s[0]);
        assert s[..n] == [s[0]] || forall x :: x in s[..n] ==> !alone(x);
      }
    }
  }

  lemma IsolatedSuffix<T>(s: seq<T>, keep: T -> bool, alone: T -> bool, n: nat)
    requires n <= |s|
    requires forall k :: 0 <= k < |s| && alone(s[k]) ==>
               (k == 0 || !keep(s[k - 1])) && (k == |s| - 1 || !keep(s[k + 1]))
    ensures forall k :: 0 <= k < |s[n..]| && alone(s[n..][k]) ==>
              (k == 0 || !keep(s[n..][k - 1])) && (k == |s[n..]| - 1 || !keep(s[n..][k + 1]))
  {
    forall k | 0 <= k < |s[n..]| && alone(s[n..][k])
      ensures (k == 0 || !keep(s[n..][k - 1])) && (k == |s[n..]| - 1 || !keep(s[n..][k + 1]))
    {
      assert s[n..][k] == s[n + k];
    }
  }
}
