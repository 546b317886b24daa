/** The operators and the scalar GiST support functions of the prefix operator class:
    containment and its wrappers, consistent, same and penalty. */
module PrefixOps {
  import opened PrefixText

  /** prefix_contains_internal: equal texts answer eqval; otherwise a query shorter than
      the prefix is rejected and a longer one must start with the prefix's bytes. */
  function ContainsInternal(prefix: Text, query: Text, eqval: bool): (r: bool)
    ensures prefix == query ==> r == eqval
    ensures prefix != query ==> (r <==> IsPrefix(prefix, query))
    ensures |query| < |prefix| ==> !r
  {
    if prefix == query then eqval
    else if |query| < |prefix| then false
    else query[..|prefix|] == prefix
  }

  /** The operator prefix @> query: the query starts with the prefix. */
  function Contains(prefix: Text, query: Text): (r: bool)
    ensures r <==> IsPrefix(prefix, query)
  {
    ContainsInternal(prefix, query, true)
  }

  /** The commutator query <@ prefix, evaluated by the same code with its arguments swapped. */
  function ContainedBy(query: Text, prefix: Text): (r: bool)
    ensures r == Contains(prefix, query)
    ensures r <==> IsPrefix(prefix, query)
  {
    ContainsInternal(prefix, query, true)
  }

  /** gprefix_consistent for strategy 1, as written: true when the index key starts
      with the query (the query is passed as the prefix). */
  function Consistent(key: Text, query: Text): (r: bool)
    ensures r <==> IsPrefix(query, key)
    ensures r == ContainedBy(key, query)
  {
    ContainsInternal(query, key, true)
  }

  /** gprefix_same: byte equality of two keys. */
  function Same(v1: Text, v2: Text): (r: bool)
    ensures r <==> |v1| == |v2| && forall i :: 0 <= i < |v1| ==> v1[i] == v2[i]
  {
    v1 == v2
  }

  /** Two keys are the same exactly when each contains the other. */
  lemma SameIffMutualContainment(a: Text, b: Text)
    ensures Same(a, b) <==> Contains(a, b) && Contains(b, a)
  {
    if Contains(a, b) && Contains(b, a) {
      PrefixAntisymmetric(a, b);
    }
  }

  /** Containment with eqval = true is a preorder: transitive. */
  lemma ContainsTransitive(a: Text, b: Text, c: Text)
    requires Contains(a, b) && Contains(b, c)
    ensures Contains(a, c)
  {
    PrefixTransitive(a, b, c);
  }

  /** A C char taken as a signed 8-bit value, as on the x86 platforms the code targets. */
  function SignedChar(c: Byte): (v: int)
    ensures -128 <= v < 128
    ensures v % 256 == c as int % 256
  {
    if c < 128 then c as int else c as int - 256
  }

  function Abs(x: int): (r: nat)
    ensures r == x || r == -x
  {
    if x < 0 then -x else x
  }

  /** gprefix_penalty. When the new key is exactly one byte longer than the common
      prefix, the code compares o[olen] and n[nlen]: the bytes stored just past the end
      of each key's data, which belong to neither key. Those two bytes are the
      parameters origPast and newPast. The result is the integer stored in the float
      penalty slot and may be negative. */
  function Penalty(orig: Text, newKey: Text, origPast: Byte, newPast: Byte): (p: int)
    ensures orig == newKey ==> p == 0
    ensures p >= -|newKey|
    ensures p <= |newKey| + 255
  {
    if orig == newKey then 0
    else
      var nlen := |newKey|;
      var gplen := |Lcp(orig, newKey)|;
      var dist := nlen - gplen;
      var lastcd := if dist == 1 then Abs(SignedChar(origPast) - SignedChar(newPast)) else 0;
      dist + lastcd - gplen
  }

  /** Apart from equal keys, the penalty is (nlen - gplen) + lastcd - gplen, where
      lastcd lies in 0..255 and is 0 unless the new key has exactly one byte past the
      common prefix. */
  lemma PenaltyDecomposes(orig: Text, newKey: Text, origPast: Byte, newPast: Byte)
    requires orig != newKey
    ensures var gplen := |Lcp(orig, newKey)|;
            var lastcd := Penalty(orig, newKey, origPast, newPast) - (|newKey| - gplen) + gplen;
            0 <= lastcd <= 255 && (|newKey| - gplen != 1 ==> lastcd == 0)
  {
  }

  /** A new key that is a strict prefix of orig gets the negative penalty -|newKey|. */
  lemma PenaltyOfStrictPrefix(orig: Text, newKey: Text, origPast: Byte, newPast: Byte)
    requires IsPrefix(newKey, orig) && newKey != orig
    ensures Penalty(orig, newKey, origPast, newPast) == -|newKey|
  {
    LcpCommutes(orig, newKey);
    LcpOfPrefix(newKey, orig);
  }

  /** Routing order: for one new key, outside the one-byte-distance case, a branch
      sharing a strictly longer common prefix gets a strictly lower penalty. */
  lemma PenaltyPrefersLongerCommonPrefix(o1: Text, o2: Text, newKey: Text, origPast: Byte, newPast: Byte)
    requires o1 != newKey && o2 != newKey
    requires |newKey| - |Lcp(o1, newKey)| != 1 && |newKey| - |Lcp(o2, newKey)| != 1
    requires |Lcp(o1, newKey)| > |Lcp(o2, newKey)|
    ensures Penalty(o1, newKey, origPast, newPast) < Penalty(o2, newKey, origPast, newPast)
  {
  }

  /** In the one-byte-distance case the penalty is not a function of the two keys:
      it changes with the bytes stored past their ends. */
  lemma PenaltyDependsOnBytesPastEnd(orig: Text, newKey: Text)
    requires orig != newKey && |newKey| - |Lcp(orig, newKey)| == 1
    ensures Penalty(orig, newKey, 0, 0) != Penalty(orig, newKey, 0, 1)
  {
  }

  // ---------------------------------------------------------------------------
  // The defects listed under "Findings" in README.md, and their corrections.

  /** The corrected gprefix_consistent is the operator of strategy 1 itself, key @> query,
      i.e. Contains(key, query). With it there are no false negatives: whenever a child
      key is consistent with the query, so is the union (the common prefix) stored for
      its parent. */
  lemma {:induction false} ContainsUnionSound(children: seq<Text>, i: nat, query: Text)
    requires i < |children|
    requires Contains(children[i], query)
    ensures Contains(LcpAll(children), query)
  {
    PrefixTransitive(LcpAll(children), children[i], query);
  }

  /** As written, consistent rejects a parent whose child it accepts: the children
      "12" and "13" have the union "1"; the query "12" matches the leaf "12" but not
      the parent key "1", so a search would skip the subtree holding the match. */
  lemma ConsistentPrunesMatchingSubtree()
    ensures var children: seq<Text> := [[49, 50], [49, 51]];
            var query: Text := [49, 50];
            LcpAll(children) == [49] && Consistent(children[0], query)
            && !Consistent(LcpAll(children), query)
  {
    var children: seq<Text> := [[49, 50], [49, 51]];
    LcpUnique(children[0], children[1], [49]);
  }

  /** gprefix_penalty with the past-the-end read corrected and nothing else changed:
      when the new key is one byte longer than the common prefix, compare the two keys'
      bytes at the point where they diverge (0 when orig has no byte there). lastcd is
      still added linearly, as in the code. */
  function PenaltyAtDivergence(orig: Text, newKey: Text): (p: int)
    ensures orig == newKey ==> p == 0
    ensures p >= -|newKey|
  {
    if orig == newKey then 0
    else
      var nlen := |newKey|;
      var gp := Lcp(orig, newKey);
      var gplen := |gp|;
      var dist := nlen - gplen;
      var lastcd := if dist == 1 && gplen < |orig|
                    then Abs(SignedChar(orig[gplen]) - SignedChar(newKey[gplen])) else 0;
      dist + lastcd - gplen
  }

  /** Among branches that share the same common prefix with a key one byte longer than
      it, the corrected penalty prefers the branch whose diverging byte is closer. */
  lemma PenaltyAtDivergencePrefersCloserByte(o1: Text, o2: Text, newKey: Text)
    requires o1 != newKey && o2 != newKey
    requires |Lcp(o1, newKey)| == |Lcp(o2, newKey)| == |newKey| - 1
    requires |newKey| - 1 < |o1| && |newKey| - 1 < |o2|
    requires var g := |newKey| - 1;
             Abs(SignedChar(o1[g]) - SignedChar(newKey[g])) < Abs(SignedChar(o2[g]) - SignedChar(newKey[g]))
    ensures PenaltyAtDivergence(o1, newKey) < PenaltyAtDivergence(o2, newKey)
  {
  }

  /** The example of the comment above gprefix_penalty: the new prefix 125 goes to the
      124 branch rather than to 128, and to 128 rather than to 256. */
  lemma PenaltyAtDivergenceOrdersExample()
    ensures var k124: Text := [49, 50, 52];
            var k128: Text := [49, 50, 56];
            var k256: Text := [50, 53, 54];
            var k125: Text := [49, 50, 53];
            PenaltyAtDivergence(k124, k125) < PenaltyAtDivergence(k128, k125) < PenaltyAtDivergence(k256, k125)
  {
    var k124: Text := [49, 50, 52];
    var k128: Text := [49, 50, 56];
    var k256: Text := [50, 53, 54];
    var k125: Text := [49, 50, 53];
    LcpUnique(k124, k125, [49, 50]);
    LcpUnique(k128, k125, [49, 50]);
    LcpUnique(k256, k125, []);
  }

  /** The byte distance can outweigh a longer common prefix, even with the corrected
      penalty: of a branch o1 sharing all but the last byte of the new key and a branch
      o2 sharing one byte less, o1 costs more exactly when its diverging byte is more
      than 2 away. So "the greater common prefix length, the better" holds only outside
      the one-byte-distance case. */
  lemma PenaltyAtDivergenceDistanceOutweighsPrefix(o1: Text, o2: Text, newKey: Text)
    requires |Lcp(o1, newKey)| == |newKey| - 1 < |o1|
    requires |Lcp(o2, newKey)| + 2 == |newKey|
    ensures var g := |newKey| - 1;
            PenaltyAtDivergence(o1, newKey) > PenaltyAtDivergence(o2, newKey)
            <==> Abs(SignedChar(o1[g]) - SignedChar(newKey[g])) > 2
  {
  }

  /** An instance: the new key "125" costs 3 under the branch "129", which shares "12"
      with it, and 1 under the branch "13", which shares only "1", so it goes to "13". */
  lemma PenaltyAtDivergenceDistanceOutweighsPrefixExample()
    ensures var k129: Text := [49, 50, 57];
            var k13: Text := [49, 51];
            var k125: Text := [49, 50, 53];
            |Lcp(k129, k125)| > |Lcp(k13, k125)|
            && PenaltyAtDivergence(k129, k125) == 3 && PenaltyAtDivergence(k13, k125) == 1
  {
    var k129: Text := [49, 50, 57];
    var k13: Text := [49, 51];
    var k125: Text := [49, 50, 53];
    LcpUnique(k129, k125, [49, 50]);
    LcpUnique(k13, k125, [49]);
  }

  /** As written, the same example can come out the other way round. In one routing
      decision both branches are priced against the same new key "125", so the byte
      past it is the same in both calls (here 0); with byte 100 past "124" and byte 0
      past "128", the 124 branch costs 99 while the 128 branch costs -1. */
  lemma PenaltyPastEndMisordersExample()
    ensures var k124: Text := [49, 50, 52];
            var k128: Text := [49, 50, 56];
            var k125: Text := [49, 50, 53];
            Penalty(k124, k125, 100, 0) == 99 && Penalty(k128, k125, 0, 0) == -1
  {
    var k124: Text := [49, 50, 52];
    var k128: Text := [49, 50, 56];
    var k125: Text := [49, 50, 53];
    LcpUnique(k124, k125, [49, 50]);
    LcpUnique(k128, k125, [49, 50]);
  }
}
