/** Where the device trees behind a kernel start. */
module DtbSearch {
  import opened Options
  import opened Bytes

  const MAGIC: Bytes := [0xD0, 0x0D, 0xFE, 0xED]
  const HEADER: nat := 40
  const EMPTY_TREE: nat := 0x48
  const BEGIN_NODE: nat := 1

  function Be32(s: Bytes, i: nat): nat {
    if i + 4 <= |s|
    then s[i] as nat * 0x100_0000 + s[i + 1] as nat * 0x1_0000 + s[i + 2] as nat * 0x100 + s[i + 3] as nat
    else 0
  }

  /** The magic, inside the first `size` bytes. */
  predicate MagicAt(s: Bytes, size: nat, i: nat) { i + 4 <= size <= |s| && s[i..i + 4] == MAGIC }

  /** A device tree: its size and first node lie within the first `size` bytes, and the node begins one. */
  predicate TreeAt(s: Bytes, size: nat, i: nat) {
    MagicAt(s, size, i) && EMPTY_TREE < Be32(s, i + 4) <= size - i &&
    Be32(s, i + 8) <= size - i && Be32(s, i + Be32(s, i + 8)) == BEGIN_NODE
  }

  /** A place the search looks at: a magic that no rejected one reaches over. */
  ghost predicate Visited(s: Bytes, size: nat, i: nat)
    decreases i
  {
    MagicAt(s, size, i) &&
    forall j: nat :: j < i < j + HEADER ==> !Visited(s, size, j)
  }

  /** The first magic from `start` on, or `size`. */
  method FindMagic(s: Bytes, size: nat, start: nat) returns (i: nat)
    requires start <= size <= |s|
    ensures start <= i <= size && (i < size ==> MagicAt(s, size, i))
    ensures forall j: nat :: start <= j < i ==> !MagicAt(s, size, j)
  {
    i := start;
    while i < size && !MagicAt(s, size, i)
      invariant start <= i <= size && forall j: nat :: start <= j < i ==> !MagicAt(s, size, j)
    {
      i := i + 1;
    }
  }

  /** The search finds the first tree among the places it looks at. */
  method FindDtb(s: Bytes, size: nat) returns (r: Option<nat>)
    requires size <= |s|
    ensures r.Some? ==> r.value < size && TreeAt(s, size, r.value) && Visited(s, size, r.value)
    ensures forall i: nat :: Visited(s, size, i) && TreeAt(s, size, i) ==> r.Some? && r.value <= i
  {
    hide TreeAt, MagicAt;
    var curr := 0;
    while curr < size
      invariant forall i: nat :: i < curr && Visited(s, size, i) ==> !TreeAt(s, size, i) && i + HEADER <= curr
      decreases size - curr
    {
      var at := FindMagic(s, size, curr);
      VisitedInside(s, size);
      if at == size {
        return None;
      }
      assert Visited(s, size, at);
      if TreeAt(s, size, at) {
        return Some(at);
      }
      curr := at + HEADER;
    }
    VisitedInside(s, size);
    return None;
  }

  lemma VisitedInside(s: Bytes, size: nat)
    ensures forall i: nat :: Visited(s, size, i) ==> i < size && MagicAt(s, size, i)
  {
  }

  /** A tree is not missed for another one's sake: if no magic stands in the 39 bytes before it, it is looked at. */
  lemma LoneTreeIsFound(s: Bytes, size: nat, i: nat)
    requires TreeAt(s, size, i) && forall j: nat :: j < i < j + 40 ==> !MagicAt(s, size, j)
    ensures Visited(s, size, i)
  {
    VisitedInside(s, size);
  }

  /** A place that was looked at hides every magic in the 39 bytes behind it. */
  lemma HiddenBehindMagic(s: Bytes, size: nat, i: nat, j: nat)
    requires Visited(s, size, j) && j < i < j + 40
    ensures !Visited(s, size, i)
  {
  }

  /* ----- what a tree is, byte by byte ----- */

  predicate MagicBytes(s: Bytes, i: nat) {
    i + 4 <= |s| && s[i] == 0xD0 && s[i + 1] == 0x0D && s[i + 2] == 0xFE && s[i + 3] == 0xED
  }

  /** The number `x` stands at `i`, highest byte first; past the end stands zero. */
  predicate NumberAt(s: Bytes, i: nat, x: nat) {
    if |s| < i + 4 then x == 0
    else x == ((s[i] as nat * 256 + s[i + 1] as nat) * 256 + s[i + 2] as nat) * 256 + s[i + 3] as nat
  }

  lemma Numbers(s: Bytes, i: nat, x: nat)
    ensures NumberAt(s, i, x) <==> Be32(s, i) == x
  {
  }

  lemma MagicIsBytes(s: Bytes, size: nat, i: nat)
    requires size <= |s|
    ensures MagicAt(s, size, i) <==> MagicBytes(s, i) && i + 4 <= size
  {
    if i + 4 <= size {
      var w := s[i..i + 4];
      assert w == [s[i], s[i + 1], s[i + 2], s[i + 3]];
    }
  }

  /** The magic, a total above 72 and a place for the first node, both within the size, and a one at that place. */
  lemma TreeIsBytes(s: Bytes, size: nat, i: nat, total: nat, node: nat)
    requires size <= |s| && NumberAt(s, i + 4, total) && NumberAt(s, i + 8, node)
    ensures TreeAt(s, size, i) <==>
            MagicBytes(s, i) && i + 4 <= size && 72 < total && i + total <= size && i + node <= size &&
            NumberAt(s, i + node, 1)
  {
    hide Be32, NumberAt, MagicAt, MagicBytes;
    MagicIsBytes(s, size, i);
    Numbers(s, i + 4, total);
    Numbers(s, i + 8, node);
    Numbers(s, i + node, 1);
  }
}
