/** The GiST support functions that work on an entry vector: union and picksplit.
    An entry vector is modelled by the keys of its entries, an array of texts. */
module PrefixGist {
  import opened PrefixText

  /** A position in a GiST entry vector. */
  type OffsetNumber = nat

  /** The first valid position of a vector handed to picksplit. */
  const FirstOffsetNumber: OffsetNumber := 1

  /** gprefix_union: with one entry, a copy of that entry; otherwise the longest common
      prefix of all the entries, folded in vector order. */
  method Union(ent: array<Text>) returns (out: Text)
    requires ent.Length >= 1
    ensures out == LcpAll(ent[..])
    ensures forall i :: 0 <= i < ent.Length ==> IsPrefix(out, ent[i])
    ensures ent.Length == 1 ==> out == ent[0]
  {
    var numranges := ent.Length;
    var tmp := ent[0];
    out := tmp;
    if numranges == 1 {
      assert ent[..] == [ent[0]];
      return;
    }
    var i := 1;
    while i < numranges
      invariant 1 <= i <= numranges
      invariant out == LcpAll(ent[..i])
    {
      tmp := ent[i];
      var gp := GreaterPrefix(out, tmp);
      assert ent[..i + 1] == ent[..i] + [tmp];
      LcpAllSnoc(ent[..i], tmp);
      out := gp;
      i := i + 1;
    }
    assert ent[..] == ent[..numranges];
  }

  /** The offsets lo, lo + 1, ..., hi - 1 in increasing order. */
  function Offsets(lo: OffsetNumber, hi: OffsetNumber): (r: seq<OffsetNumber>)
    requires lo <= hi
    ensures |r| == hi - lo
    ensures forall k :: 0 <= k < |r| ==> r[k] == lo + k
  {
    seq(hi - lo, k => lo + k)
  }

  /** Appending hi to Offsets(lo, hi) gives Offsets(lo, hi + 1). */
  lemma OffsetsSnoc(lo: OffsetNumber, hi: OffsetNumber)
    requires lo <= hi
    ensures Offsets(lo, hi) + [hi] == Offsets(lo, hi + 1)
  {
  }

  /** Offsets(lo, mid) followed by Offsets(mid, hi) is Offsets(lo, hi). */
  lemma OffsetsConcat(lo: OffsetNumber, mid: OffsetNumber, hi: OffsetNumber)
    requires lo <= mid <= hi
    ensures Offsets(lo, mid) + Offsets(mid, hi) == Offsets(lo, hi)
  {
  }

  /** Each offset of lo..hi-1 occurs exactly once in Offsets(lo, hi), and no other does. */
  lemma {:induction false} OffsetsOnce(lo: OffsetNumber, hi: OffsetNumber, o: OffsetNumber)
    requires lo <= hi
    ensures multiset(Offsets(lo, hi))[o] == if lo <= o < hi then 1 else 0
    decreases hi - lo
  {
    if lo < hi {
      var init := Offsets(lo, hi - 1);
      assert Offsets(lo, hi) == init + [hi - 1];
      assert multiset(init + [hi - 1]) == multiset(init) + multiset{hi - 1};
      OffsetsOnce(lo, hi - 1, o);
    }
  }

  /** split_at for a vector whose last used offset is maxoff: the midpoint, so that the
      left side gets the lower half and the right side the rest, at most one more. */
  function SplitAt(maxoff: OffsetNumber): (s: OffsetNumber)
    requires maxoff >= FirstOffsetNumber
    ensures FirstOffsetNumber <= s <= maxoff
    ensures s - FirstOffsetNumber <= maxoff + 1 - s <= s - FirstOffsetNumber + 1
  {
    FirstOffsetNumber + (maxoff - FirstOffsetNumber + 1) / 2
  }

  /** The GIST_SPLITVEC that picksplit fills in: the offsets sent to each side with
      their counts, and the summary key of each side. */
  class SplitVec {
    var left: array<OffsetNumber>
    var nLeft: nat
    var right: array<OffsetNumber>
    var nRight: nat
    var lDatum: Text
    var rDatum: Text

    constructor ()
      ensures nLeft == 0 && nRight == 0 && lDatum == [] && rDatum == []
    {
      left := new OffsetNumber[0];
      right := new OffsetNumber[0];
      nLeft, nRight := 0, 0;
      lDatum, rDatum := [], [];
    }
  }

  /** The first loop of gprefix_picksplit: offsets FirstOffsetNumber up to splitAt - 1
      go to the left list in order, and unionL, seeded with the key at offset 2, folds
      in each of their keys. */
  method FillLeft(ent: array<Text>, splitAt: OffsetNumber, listL: array<OffsetNumber>)
    returns (nLeft: nat, unionL: Text)
    requires 3 <= ent.Length && FirstOffsetNumber <= splitAt < ent.Length
    requires splitAt <= listL.Length
    modifies listL
    ensures nLeft == splitAt - FirstOffsetNumber
    ensures listL[..nLeft] == Offsets(FirstOffsetNumber, splitAt)
    ensures unionL == LcpAll([ent[2]] + ent[FirstOffsetNumber..splitAt])
  {
    nLeft := 0;
    unionL := ent[FirstOffsetNumber + 1];
    var i := FirstOffsetNumber;
    while i < splitAt
      invariant FirstOffsetNumber <= i <= splitAt
      invariant nLeft == i - FirstOffsetNumber
      invariant listL[..nLeft] == Offsets(FirstOffsetNumber, i)
      invariant unionL == LcpAll([ent[2]] + ent[FirstOffsetNumber..i])
    {
      var cur := ent[i];
      listL[nLeft] := i;
      assert listL[..nLeft + 1] == listL[..nLeft] + [i];
      OffsetsSnoc(FirstOffsetNumber, i);
      nLeft := nLeft + 1;
      unionL := GreaterPrefix(unionL, cur);
      SeededFoldStep(ent[..], ent[2], FirstOffsetNumber, i);
      i := i + 1;
    }
  }

  /** The second loop of gprefix_picksplit: offsets splitAt up to maxoff go to the right
      list in order, and unionR, seeded with the key at splitAt, folds in each of their
      keys, so it ends as the common prefix of the right keys. */
  method FillRight(ent: array<Text>, splitAt: OffsetNumber, maxoff: OffsetNumber, listR: array<OffsetNumber>)
    returns (nRight: nat, unionR: Text)
    requires FirstOffsetNumber <= splitAt <= maxoff < ent.Length
    requires maxoff < listR.Length
    modifies listR
    ensures nRight == maxoff + 1 - splitAt
    ensures listR[..nRight] == Offsets(splitAt, maxoff + 1)
    ensures unionR == LcpAll(ent[splitAt..maxoff + 1])
  {
    nRight := 0;
    var i := splitAt;
    unionR := ent[i];
    assert [ent[splitAt]] + ent[splitAt..i] == [ent[splitAt]];
    while i <= maxoff
      invariant splitAt <= i <= maxoff + 1
      invariant nRight == i - splitAt
      invariant listR[..nRight] == Offsets(splitAt, i)
      invariant unionR == LcpAll([ent[splitAt]] + ent[splitAt..i])
    {
      var cur := ent[i];
      listR[nRight] := i;
      assert listR[..nRight + 1] == listR[..nRight] + [i];
      OffsetsSnoc(splitAt, i);
      nRight := nRight + 1;
      unionR := GreaterPrefix(unionR, cur);
      SeededFoldStep(ent[..], ent[splitAt], splitAt, i);
      i := i + 1;
    }
    assert ent[splitAt..i] == ent[splitAt..maxoff + 1];
    LcpAllRepeatedHead(ent[splitAt..maxoff + 1]);
  }

  /** The body of gprefix_picksplit once maxoff is fixed: two fresh lists of maxoff + 2
      slots, split_at at the midpoint, the left loop, then the right loop. */
  method SplitAtMidpoint(ent: array<Text>, maxoff: OffsetNumber, v: SplitVec)
    requires 3 <= ent.Length && FirstOffsetNumber <= maxoff < ent.Length
    modifies v
    ensures fresh(v.left) && fresh(v.right) && v.left != v.right
    ensures v.left.Length == maxoff + 2 && v.right.Length == maxoff + 2
    ensures v.nLeft == SplitAt(maxoff) - FirstOffsetNumber
    ensures v.nRight == maxoff + 1 - SplitAt(maxoff)
    ensures v.left[..v.nLeft] == Offsets(FirstOffsetNumber, SplitAt(maxoff))
    ensures v.right[..v.nRight] == Offsets(SplitAt(maxoff), maxoff + 1)
    ensures v.left[..v.nLeft] + v.right[..v.nRight] == Offsets(FirstOffsetNumber, maxoff + 1)
    ensures v.lDatum == LcpAll([ent[2]] + ent[FirstOffsetNumber..SplitAt(maxoff)])
    ensures v.rDatum == LcpAll(ent[SplitAt(maxoff)..maxoff + 1])
  {
    var nbytes := maxoff + 2;
    var listL := new OffsetNumber[nbytes];
    var listR := new OffsetNumber[nbytes];

    var splitAt := FirstOffsetNumber + (maxoff - FirstOffsetNumber + 1) / 2;
    v.nLeft, v.nRight := 0, 0;
    v.left := listL;
    v.right := listR;

    var nLeft, unionL := FillLeft(ent, splitAt, listL);
    var nRight, unionR := FillRight(ent, splitAt, maxoff, listR);
    OffsetsConcat(FirstOffsetNumber, splitAt, maxoff + 1);
    v.nLeft, v.lDatum := nLeft, unionL;
    v.nRight, v.rDatum := nRight, unionR;
  }

  /** gprefix_picksplit as written: maxoff is the vector size minus 2, so the entry at
      the last offset, ent.Length - 1, is put on neither side. */
  method PickSplit(ent: array<Text>, v: SplitVec)
    requires 3 <= ent.Length
    modifies v
    ensures fresh(v.left) && fresh(v.right) && v.left != v.right
    ensures v.left.Length == ent.Length && v.right.Length == ent.Length
    ensures v.nLeft + v.nRight == ent.Length - 2
    ensures v.nLeft <= v.nRight <= v.nLeft + 1
    ensures v.left[..v.nLeft] + v.right[..v.nRight] == Offsets(FirstOffsetNumber, ent.Length - 1)
    ensures v.left[..v.nLeft] == Offsets(FirstOffsetNumber, FirstOffsetNumber + v.nLeft)
    ensures v.lDatum == LcpAll([ent[2]] + ent[FirstOffsetNumber..FirstOffsetNumber + v.nLeft])
    ensures v.rDatum == LcpAll(ent[FirstOffsetNumber + v.nLeft..ent.Length - 1])
  {
    var maxoff := ent.Length - 2;
    SplitAtMidpoint(ent, maxoff, v);
    assert FirstOffsetNumber + v.nLeft == SplitAt(maxoff);
  }

  /** The left summary of picksplit is seeded with the key at offset 2. When split_at
      is above 2 that key is a left key and the seed changes nothing; when split_at is
      2 the seed is a right-side key folded into the left summary; when split_at is 1
      the left side is empty and its summary is that key alone. In every case the
      summary is a prefix of the seed and of every left key. */
  lemma {:induction false} LeftSummarySeed(keys: seq<Text>, s: nat)
    requires 3 <= |keys| && 1 <= s <= |keys|
    ensures s > 2 ==> LcpAll([keys[2]] + keys[1..s]) == LcpAll(keys[1..s])
    ensures s == 2 ==> LcpAll([keys[2]] + keys[1..s]) == Lcp(keys[2], keys[1])
    ensures s == 1 ==> LcpAll([keys[2]] + keys[1..s]) == keys[2]
    ensures IsPrefix(LcpAll([keys[2]] + keys[1..s]), keys[2])
    ensures forall k :: 1 <= k < s ==> IsPrefix(LcpAll([keys[2]] + keys[1..s]), keys[k])
  {
    var seeded := [keys[2]] + keys[1..s];
    assert forall k :: 1 <= k < s ==> seeded[k] == keys[k];
    if s > 2 {
      assert keys[2] == keys[1..s][1];
      LcpAllSameElements(seeded, keys[1..s]);
    } else if s == 2 {
      assert seeded == [keys[2], keys[1]];
      assert seeded[..1] == [keys[2]];
    } else {
      assert seeded == [keys[2]];
    }
  }

  /** As written, picksplit leaves the entry at offset n - 1 of an n-entry vector on
      neither side, while each offset 1..n-2 is placed exactly once. */
  lemma PickSplitOmitsLastEntry(n: nat, o: OffsetNumber)
    requires 3 <= n
    ensures multiset(Offsets(FirstOffsetNumber, n - 1))[n - 1] == 0
    ensures FirstOffsetNumber <= o < n - 1 ==> multiset(Offsets(FirstOffsetNumber, n - 1))[o] == 1
  {
    OffsetsOnce(FirstOffsetNumber, n - 1, n - 1);
    OffsetsOnce(FirstOffsetNumber, n - 1, o);
  }

  /** picksplit with maxoff the last offset of the vector, ent.Length - 1: every entry
      1..ent.Length-1 goes to exactly one side. */
  method PickSplitAllEntries(ent: array<Text>, v: SplitVec)
    requires 3 <= ent.Length
    modifies v
    ensures fresh(v.left) && fresh(v.right) && v.left != v.right
    ensures v.left.Length == ent.Length + 1 && v.right.Length == ent.Length + 1
    ensures v.nLeft + v.nRight == ent.Length - 1
    ensures v.nLeft <= v.nRight <= v.nLeft + 1
    ensures v.left[..v.nLeft] + v.right[..v.nRight] == Offsets(FirstOffsetNumber, ent.Length)
    ensures v.lDatum == LcpAll([ent[2]] + ent[FirstOffsetNumber..FirstOffsetNumber + v.nLeft])
    ensures v.rDatum == LcpAll(ent[FirstOffsetNumber + v.nLeft..ent.Length])
  {
    var maxoff := ent.Length - 1;
    SplitAtMidpoint(ent, maxoff, v);
    assert FirstOffsetNumber + v.nLeft == SplitAt(maxoff);
  }

  /** With maxoff = n - 1 every offset of the vector is placed exactly once. */
  lemma PickSplitAllEntriesCoversVector(n: nat, o: OffsetNumber)
    requires 3 <= n && FirstOffsetNumber <= o < n
    ensures multiset(Offsets(FirstOffsetNumber, n))[o] == 1
  {
    OffsetsOnce(FirstOffsetNumber, n, o);
  }
}
