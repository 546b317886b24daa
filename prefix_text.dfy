/** Byte strings, the longest common prefix of two of them (greater_prefix_internal
    in prefix.c) and its left fold over a vector of keys. */
module PrefixText {

  /** One byte of a text value's data. */
  newtype Byte = b: int | 0 <= b < 256

  /** The data of a PostgreSQL text value: its bytes, without the varlena header. */
  type Text = seq<Byte>

  /** s starts with p: every byte of p is found at the same position in s. */
  predicate IsPrefix(p: Text, s: Text)
  {
    |p| <= |s| && forall i :: 0 <= i < |p| ==> p[i] == s[i]
  }

  lemma PrefixTransitive(p: Text, q: Text, s: Text)
    requires IsPrefix(p, q) && IsPrefix(q, s)
    ensures IsPrefix(p, s)
  {
  }

  lemma {:induction false} PrefixAntisymmetric(p: Text, q: Text)
    requires IsPrefix(p, q) && IsPrefix(q, p)
    ensures p == q
  {
    assert |p| == |q|;
    assert forall i :: 0 <= i < |p| ==> p[i] == q[i];
  }

  /** The longest common prefix of a and b: a prefix of both that either exhausts
      one of them or stops where their next bytes differ. */
  function Lcp(a: Text, b: Text): (r: Text)
    ensures IsPrefix(r, a) && IsPrefix(r, b)
    ensures |r| == |a| || |r| == |b| || a[|r|] != b[|r|]
    decreases |a|
  {
    if a == [] || b == [] || a[0] != b[0] then []
    else [a[0]] + Lcp(a[1..], b[1..])
  }

  /** Every common prefix of a and b is a prefix of Lcp(a, b). */
  lemma {:induction false} LcpGreatest(a: Text, b: Text, p: Text)
    requires IsPrefix(p, a) && IsPrefix(p, b)
    ensures IsPrefix(p, Lcp(a, b))
  {
    var r := Lcp(a, b);
    assert |p| <= |r|;
    assert forall i :: 0 <= i < |p| ==> p[i] == a[i] == r[i];
  }

  /** The three conditions of Lcp's contract determine it: a common prefix that
      cannot be extended is the longest common prefix. */
  lemma {:induction false} LcpUnique(a: Text, b: Text, r: Text)
    requires IsPrefix(r, a) && IsPrefix(r, b)
    requires |r| == |a| || |r| == |b| || a[|r|] != b[|r|]
    ensures r == Lcp(a, b)
  {
    var l := Lcp(a, b);
    LcpGreatest(a, b, r);
    assert |l| <= |r|;
    assert forall i :: 0 <= i < |l| ==> l[i] == a[i] == r[i];
    PrefixAntisymmetric(r, l);
  }

  /** The common prefix is empty exactly when either input is empty or their first bytes differ. */
  lemma LcpEmptyIff(a: Text, b: Text)
    ensures Lcp(a, b) == [] <==> (a == [] || b == [] || a[0] != b[0])
  {
  }

  lemma LcpCommutes(a: Text, b: Text)
    ensures Lcp(a, b) == Lcp(b, a)
  {
    LcpUnique(b, a, Lcp(a, b));
  }

  /** When a is a prefix of b (in particular when a == b) their common prefix is a itself. */
  lemma LcpOfPrefix(a: Text, b: Text)
    requires IsPrefix(a, b)
    ensures Lcp(a, b) == a
  {
    LcpUnique(a, b, a);
  }

  /** Folds Lcp over a non-empty vector of keys from left to right, starting with the
      first key: the result is a prefix of every key. */
  function LcpAll(keys: seq<Text>): (r: Text)
    requires |keys| > 0
    ensures forall i :: 0 <= i < |keys| ==> IsPrefix(r, keys[i])
    decreases |keys|
  {
    if |keys| == 1 then keys[0]
    else
      var init := LcpAll(keys[..|keys| - 1]);
      var r := Lcp(init, keys[|keys| - 1]);
      assert forall i :: 0 <= i < |keys| - 1 ==> IsPrefix(init, keys[i]);
      assert forall i :: 0 <= i < |keys| - 1 ==> IsPrefix(r, keys[i]) by {
        forall i | 0 <= i < |keys| - 1 ensures IsPrefix(r, keys[i]) {
          assert keys[..|keys| - 1][i] == keys[i];
          PrefixTransitive(r, init, keys[i]);
        }
      }
      r
  }

  /** One step of the fold: appending a key folds it into the previous result. */
  lemma LcpAllSnoc(keys: seq<Text>, x: Text)
    requires |keys| > 0
    ensures LcpAll(keys + [x]) == Lcp(LcpAll(keys), x)
  {
    assert (keys + [x])[..|keys|] == keys;
  }

  /** One step of a fold seeded with an extra key and running over keys[lo..]. */
  lemma SeededFoldStep(keys: seq<Text>, seed: Text, lo: nat, i: nat)
    requires lo <= i < |keys|
    ensures LcpAll([seed] + keys[lo..i + 1]) == Lcp(LcpAll([seed] + keys[lo..i]), keys[i])
  {
    assert [seed] + keys[lo..i + 1] == ([seed] + keys[lo..i]) + [keys[i]];
    LcpAllSnoc([seed] + keys[lo..i], keys[i]);
  }

  /** Every common prefix of all the keys is a prefix of their fold. */
  lemma {:induction false} LcpAllGreatest(keys: seq<Text>, p: Text)
    requires |keys| > 0
    requires forall i :: 0 <= i < |keys| ==> IsPrefix(p, keys[i])
    ensures IsPrefix(p, LcpAll(keys))
  {
    if |keys| > 1 {
      var init := keys[..|keys| - 1];
      assert forall i :: 0 <= i < |init| ==> init[i] == keys[i];
      LcpAllGreatest(init, p);
      LcpGreatest(LcpAll(init), keys[|keys| - 1], p);
    }
  }

  /** The fold depends only on which keys occur, not on their order or repetition. */
  lemma LcpAllSameElements(s: seq<Text>, t: seq<Text>)
    requires |s| > 0 && |t| > 0
    requires forall x :: x in s ==> x in t
    requires forall x :: x in t ==> x in s
    ensures LcpAll(s) == LcpAll(t)
  {
    var ls, lt := LcpAll(s), LcpAll(t);
    forall i | 0 <= i < |t| ensures IsPrefix(ls, t[i]) {
      assert t[i] in s;
      var j :| 0 <= j < |s| && s[j] == t[i];
      assert IsPrefix(ls, s[j]);
    }
    forall i | 0 <= i < |s| ensures IsPrefix(lt, s[i]) {
      assert s[i] in t;
      var j :| 0 <= j < |t| && t[j] == s[i];
      assert IsPrefix(lt, t[j]);
    }
    LcpAllGreatest(t, ls);
    LcpAllGreatest(s, lt);
    PrefixAntisymmetric(ls, lt);
  }

  /** Folding the first key in once more changes nothing. */
  lemma LcpAllRepeatedHead(keys: seq<Text>)
    requires |keys| > 0
    ensures LcpAll([keys[0]] + keys) == LcpAll(keys)
  {
    LcpAllSameElements([keys[0]] + keys, keys);
  }

  /** greater_prefix_internal: counts the leading bytes a and b share, then returns
      the empty text or the first i bytes of a. */
  method GreaterPrefix(a: Text, b: Text) returns (r: Text)
    ensures r == Lcp(a, b)
  {
    var i := 0;
    while i < |a| && i < |b| && a[i] == b[i]
      invariant i <= |a| && i <= |b|
      invariant a[..i] == b[..i]
    {
      i := i + 1;
    }
    if i == 0 {
      r := [];
    } else {
      r := a[..i];
    }
    assert r == a[..i];
    LcpUnique(a, b, r);
  }
}
