/** Slices of concatenations. */
module Slices {
  lemma SubSlice<T>(s: seq<T>, a: nat, b: nat, i: nat, j: nat)
    requires a <= b <= |s| && i <= j <= b - a
    ensures s[a..b][i..j] == s[a + i..a + j]
  {
    var x, y := s[a..b][i..j], s[a + i..a + j];
    forall k | 0 <= k < j - i ensures x[k] == y[k] {
      assert x[k] == s[a..b][i + k];
    }
    assert x == y;
  }

  /** Finds three parts again in a slice that was put together from five. */
  lemma PartsAt<T>(s: seq<T>, pos: nat, a: seq<T>, b: seq<T>, c: seq<T>, d: seq<T>, e: seq<T>)
    requires pos + |a| + |b| + |c| + |d| + |e| <= |s|
    requires s[pos..pos + |a| + |b| + |c| + |d| + |e|] == a + b + c + d + e
    ensures s[pos..pos + |a|] == a
    ensures s[pos + |a|..pos + |a| + |b|] == b
    ensures s[pos + |a| + |b| + |c|..pos + |a| + |b| + |c| + |d|] == d
  {
    var all := a + b + c + d + e;
    assert all[..|a|] == a;
    assert all[|a|..|a| + |b|] == b;
    assert all[|a| + |b| + |c|..|a| + |b| + |c| + |d|] == d;
    SubSlice(s, pos, pos + |all|, 0, |a|);
    SubSlice(s, pos, pos + |all|, |a|, |a| + |b|);
    SubSlice(s, pos, pos + |all|, |a| + |b| + |c|, |a| + |b| + |c| + |d|);
  }

  function Concat<T>(blocks: seq<seq<T>>): seq<T> {
    if blocks == [] then [] else Concat(blocks[..|blocks| - 1]) + blocks[|blocks| - 1]
  }

  lemma ConcatSnoc<T>(blocks: seq<seq<T>>, i: nat)
    requires i < |blocks|
    ensures Concat(blocks[..i + 1]) == Concat(blocks[..i]) + blocks[i]
  {
    assert blocks[..i + 1][..i] == blocks[..i];
  }

  lemma ConcatEnds<T>(blocks: seq<seq<T>>)
    ensures Concat(blocks[..0]) == [] && Concat(blocks[..|blocks|]) == Concat(blocks)
  {
    assert blocks[..|blocks|] == blocks;
  }

  /** Each block is found after the ones before it. */
  lemma {:induction false} ConcatSlice<T>(blocks: seq<seq<T>>, i: nat)
    requires i < |blocks|
    ensures |Concat(blocks[..i + 1])| == |Concat(blocks[..i])| + |blocks[i]| <= |Concat(blocks)|
    ensures Concat(blocks)[|Concat(blocks[..i])|..|Concat(blocks[..i + 1])|] == blocks[i]
    decreases |blocks|
  {
    var n := |blocks| - 1;
    assert blocks[..i + 1][..i] == blocks[..i];
    if i == n {
      assert blocks[..i + 1] == blocks;
    } else {
      assert blocks[..n][..i] == blocks[..i] && blocks[..n][..i + 1] == blocks[..i + 1];
      ConcatSlice(blocks[..n], i);
    }
  }

  /** Blocks of whole words make whole words. */
  lemma {:induction false} ConcatWords<T>(blocks: seq<seq<T>>)
    requires forall b :: b in blocks ==> |b| % 4 == 0
    ensures |Concat(blocks)| % 4 == 0
    decreases |blocks|
  {
    if blocks != [] {
      ConcatWords(blocks[..|blocks| - 1]);
      SumOfWords(|Concat(blocks[..|blocks| - 1])|, |blocks[|blocks| - 1]|);
    }
  }

  lemma SumOfWords(a: nat, b: nat)
    requires a % 4 == 0 && b % 4 == 0
    ensures (a + b) % 4 == 0
  {
  }

  /** Finds a block again where the concatenation was put at an aligned `base`. */
  lemma BlockAt<T>(s: seq<T>, base: nat, blocks: seq<seq<T>>, i: nat, p: nat, q: nat)
    requires i < |blocks| && p == base + |Concat(blocks[..i])| && q == base + |Concat(blocks[..i + 1])|
    requires base + |Concat(blocks)| <= |s| && s[base..base + |Concat(blocks)|] == Concat(blocks)
    requires base % 4 == 0 && forall b :: b in blocks ==> |b| % 4 == 0
    ensures p % 4 == 0 && q == p + |blocks[i]| <= |s| && s[p..q] == blocks[i]
  {
    ConcatSlice(blocks, i);
    SubSlice(s, base, base + |Concat(blocks)|, p - base, q - base);
    ConcatWords(blocks[..i]);
    SumOfWords(base, |Concat(blocks[..i])|);
  }
}
