/** Compact blocks: sending a block as short transaction identifiers and rebuilding it (src/blockencodings.h,
    src/blockencodings.cpp). */
module BlockEncodings {
  import opened Options

  const MAX16: nat := 0xFFFF

  // Requests for transactions

  ghost predicate Increasing(s: seq<nat>) { forall i, j | 0 <= i < j < |s| :: s[i] < s[j] }

  ghost predicate Fit16(s: seq<nat>) { forall i | 0 <= i < |s| :: s[i] <= MAX16 }

  /** The gaps between indexes, the first counted from `offset`. */
  function Gaps(indexes: seq<nat>, offset: nat): (d: seq<int>)
    ensures |d| == |indexes|
  {
    if indexes == [] then [] else [indexes[0] - offset] + Gaps(indexes[1..], indexes[0] + 1)
  }

  /** What a reader makes of gaps: every number, every sum and the offset has 16 bits. */
  function Indexes(d: seq<int>, offset: nat): Option<seq<nat>> {
    if d == [] then Some([])
    else if !(0 <= d[0] <= MAX16) || d[0] + offset > MAX16 then None
    else
      var rest := Indexes(d[1..], (d[0] + offset + 1) % (MAX16 + 1));
      if rest.None? then None else Some([d[0] + offset] + rest.value)
  }

  method WriteIndexes(indexes: seq<nat>) returns (d: seq<int>)
    ensures d == Gaps(indexes, 0)
  {
    d := [];
    for i := 0 to |indexes|
      invariant Gaps(indexes, 0) == d + Gaps(indexes[i..], if i == 0 then 0 else indexes[i - 1] + 1)
    {
      var before: int := if i == 0 then 0 else indexes[i - 1] + 1;
      var gap: int := indexes[i];
      d := d + [gap - before];
      assert indexes[i..][1..] == indexes[i + 1..];
    }
    assert indexes[|indexes|..] == [];
  }

  method ReadIndexes(d: seq<int>) returns (r: Option<seq<nat>>)
    ensures r == Indexes(d, 0)
  {
    var indexes: seq<nat> := [];
    var offset: nat := 0;
    assert d[0..] == d;
    JoinedNone(Indexes(d, 0));
    for j := 0 to |d|
      invariant Indexes(d, 0) == Joined(indexes, Indexes(d[j..], offset))
    {
      if !(0 <= d[j] <= MAX16) || d[j] + offset > MAX16 { return None; }
      assert d[j..][1..] == d[j + 1..];
      var index: nat := d[j] + offset;
      JoinedMore(indexes, index, Indexes(d[j + 1..], (index + 1) % (MAX16 + 1)));
      indexes := indexes + [index];
      offset := (index + 1) % (MAX16 + 1);
    }
    assert d[|d|..] == [] && indexes + [] == indexes;
    return Some(indexes);
  }

  ghost function Joined(s: seq<nat>, r: Option<seq<nat>>): Option<seq<nat>> {
    if r.None? then None else Some(s + r.value)
  }

  lemma JoinedNone(r: Option<seq<nat>>)
    ensures Joined([], r) == r
  {
    if r.Some? { assert [] + r.value == r.value; }
  }

  lemma JoinedMore(s: seq<nat>, x: nat, r: Option<seq<nat>>)
    ensures Joined(s, Joined([x], r)) == Joined(s + [x], r)
  {
    if r.Some? { assert s + ([x] + r.value) == s + [x] + r.value; }
  }

  /** Every strictly increasing list of 16-bit indexes is read back from its gaps. */
  lemma {:induction false} RequestRoundTrip(indexes: seq<nat>, offset: nat)
    requires Increasing(indexes) && Fit16(indexes) && (indexes != [] ==> offset <= indexes[0])
    ensures Indexes(Gaps(indexes, offset), offset) == Some(indexes)
  {
    if indexes != [] {
      var x, rest := indexes[0], indexes[1..];
      if rest != [] { assert x < rest[0]; }
      RequestRoundTrip(rest, x + 1);
      assert indexes == [x] + rest;
      RequestStep(x, rest, offset);
    }
  }

  lemma RequestStep(x: nat, rest: seq<nat>, offset: nat)
    requires offset <= x <= MAX16 && Fit16(rest) && (rest != [] ==> x < rest[0])
    requires Indexes(Gaps(rest, x + 1), x + 1) == Some(rest)
    ensures Indexes(Gaps([x] + rest, offset), offset) == Some([x] + rest)
  {
    hide Gaps, Indexes;
    GapsCons(x, rest, offset);
    IndexesCons(x - offset, Gaps(rest, x + 1), offset);
    NoIndexes();
    if rest == [] { assert Gaps(rest, x + 1) == []; } else { assert (x + 1) % (MAX16 + 1) == x + 1; }
  }

  lemma NoIndexes()
    ensures forall offset: nat :: Indexes([], offset) == Some([])
  {
  }

  lemma IndexesCons(gap: nat, d: seq<int>, offset: nat)
    requires gap + offset <= MAX16
    ensures Indexes([gap] + d, offset) == Joined([gap + offset], Indexes(d, (gap + offset + 1) % (MAX16 + 1)))
  {
    assert ([gap] + d)[1..] == d;
  }

  lemma GapsCons(x: nat, rest: seq<nat>, offset: nat)
    ensures Gaps([x] + rest, offset) == [x - offset] + Gaps(rest, x + 1)
  {
    assert ([x] + rest)[1..] == rest;
  }

  function SumOf(d: seq<int>): int { if d == [] then 0 else d[0] + SumOf(d[1..]) }

  lemma {:induction false} AcceptedBounds(d: seq<int>, offset: nat)
    requires Indexes(d, offset).Some?
    ensures var s := Indexes(d, offset).value;
      Fit16(s) && |s| == |d| && SumOf(d) >= 0 && (s != [] ==> s[0] >= offset)
  {
    if d != [] {
      var next := (d[0] + offset + 1) % (MAX16 + 1);
      AcceptedBounds(d[1..], next);
      assert Indexes(d, offset).value == [d[0] + offset] + Indexes(d[1..], next).value;
    }
  }

  /** Of the messages that are accepted, those with room for all indexes are read as strictly increasing lists,
      and no others: the gaps and the number of indexes must not exceed 2^16. */
  lemma {:induction false} IndexesIncreaseIff(d: seq<int>, offset: nat)
    requires Indexes(d, offset).Some?
    ensures Increasing(Indexes(d, offset).value) <==> d == [] || offset + SumOf(d) + |d| <= MAX16 + 1
  {
    if d != [] {
      var x, next := d[0] + offset, (d[0] + offset + 1) % (MAX16 + 1);
      var s, r := Indexes(d, offset).value, Indexes(d[1..], next).value;
      assert s == [x] + r;
      AcceptedBounds(d[1..], next);
      IndexesIncreaseIff(d[1..], next);
      if x == MAX16 && r != [] {
        assert s[1] == r[0] <= MAX16 == s[0];
      } else {
        Ahead(x, r);
      }
    }
  }

  lemma Ahead(x: nat, r: seq<nat>)
    requires r != [] ==> r[0] > x
    ensures Increasing([x] + r) <==> Increasing(r)
  {
    var s := [x] + r;
    assert forall i | 0 <= i < |r| :: s[i + 1] == r[i];
    if Increasing(r) {
      forall i, j | 0 <= i < j < |s| ensures s[i] < s[j] {
        if i == 0 && j > 1 { assert r[0] < r[j - 1]; }
        if i > 0 { assert r[i - 1] < r[j - 1]; }
      }
    }
  }

  /** A message no writer sends, and what the reader takes it for. */
  lemma IndexesWrap()
    ensures Indexes([0xFFFF, 0], 0) == Some([0xFFFF, 0]) && !Increasing([0xFFFF, 0])
  {
    var d: seq<int> := [0xFFFF, 0];
    var t := d[1..];
    assert Indexes(t[1..], 1) == Some([]);
    var last: seq<nat> := [0];
    assert last + [] == last;
    assert Indexes(t, 0) == Some(last);
    var both: seq<nat> := [0xFFFF] + last;
    assert both == [0xFFFF, 0] && both[0] > both[1];
  }
}
