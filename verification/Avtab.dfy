/**
  The access vector table: hash chains of rule nodes, one mask of permissions
  each, and the one update all av rules are made of. A 32-bit mask is the set of
  the (one-based) positions of its bits.
*/
module Avtab {
  import opened Options

  type Perm = x: int | 1 <= x <= 32 witness 1
  type Mask = set<Perm>

  const ALL_BITS: Mask := set p: Perm | 1 <= p <= 32

  datatype Kind = Allowed | AuditAllow | AuditDeny
  datatype Key = Key(source: nat, target: nat, cls: nat, kind: Kind)
  datatype Node = Node(key: Key, data: Mask)
  type Chain = seq<Node>

  /** What a missing node means: nothing is allowed, every denial is audited. */
  function Default(kind: Kind): Mask { if kind.AuditDeny? then ALL_BITS else {} }

  predicate IsRedundant(n: Node) { n.data == Default(n.key.kind) }

  /** The change a rule makes to a mask; without a permission, to all of it. */
  function Update(m: Mask, perm: Option<Perm>, invert: bool): Mask {
    if invert then (if perm.Some? then m - {perm.value} else {})
    else (if perm.Some? then m + {perm.value} else ALL_BITS)
  }

  lemma UpdateTwice(m: Mask, perm: Option<Perm>, invert: bool)
    ensures Update(Update(m, perm, invert), perm, invert) == Update(m, perm, invert)
  {
  }

  /* ----- one chain ----- */

  ghost predicate Distinct(c: Chain) {
    forall i, j :: 0 <= i < j < |c| ==> c[i].key != c[j].key
  }

  ghost predicate NoneRedundant(c: Chain) {
    forall i :: 0 <= i < |c| ==> !IsRedundant(c[i])
  }

  ghost predicate Has(c: Chain, k: Key) { exists i :: 0 <= i < |c| && c[i].key == k }

  /** The mask a chain gives a key. */
  ghost function Look(c: Chain, k: Key): (m: Mask)
    ensures forall i :: 0 <= i < |c| && c[i].key == k && (forall j :: 0 <= j < i ==> c[j].key != k) ==> m == c[i].data
    ensures !Has(c, k) ==> m == Default(k.kind)
  {
    if i :| 0 <= i < |c| && c[i].key == k && (forall j :: 0 <= j < i ==> c[j].key != k) then c[i].data
    else Default(k.kind)
  }

  lemma LookAt(c: Chain, i: nat)
    requires Distinct(c) && i < |c|
    ensures Look(c, c[i].key) == c[i].data
  {
  }

  function Inserted(c: Chain, at: nat, n: Node): Chain
    requires at <= |c|
  {
    c[..at] + [n] + c[at..]
  }

  function Removed(c: Chain, at: nat): Chain
    requires at < |c|
  {
    c[..at] + c[at + 1..]
  }

  /** Where a node of the old chain is after an insertion. */
  lemma InsertKeeps(c: Chain, at: nat, n: Node)
    requires at <= |c| && Distinct(c) && !Has(c, n.key)
    ensures Distinct(Inserted(c, at, n))
    ensures Look(Inserted(c, at, n), n.key) == n.data
    ensures forall k :: k != n.key ==> Look(Inserted(c, at, n), k) == Look(c, k)
  {
    var d := Inserted(c, at, n);
    assert d[at] == n;
    assert forall i :: 0 <= i < |d| && i != at ==> d[i] == c[if i < at then i else i - 1];
    LookAt(d, at);
    forall k | k != n.key ensures Look(d, k) == Look(c, k) {
      if Has(c, k) {
        var i :| 0 <= i < |c| && c[i].key == k;
        LookAt(c, i);
        var j := if i < at then i else i + 1;
        assert d[j] == c[i];
        LookAt(d, j);
      }
    }
  }

  lemma RemoveKeeps(c: Chain, at: nat)
    requires at < |c| && Distinct(c)
    ensures Distinct(Removed(c, at)) && !Has(Removed(c, at), c[at].key)
    ensures NoneRedundant(c) ==> NoneRedundant(Removed(c, at))
    ensures forall k :: k != c[at].key ==> Look(Removed(c, at), k) == Look(c, k)
  {
    var d := Removed(c, at);
    assert forall i :: 0 <= i < |d| ==> d[i] == c[if i < at then i else i + 1];
    forall k | k != c[at].key ensures Look(d, k) == Look(c, k) {
      if Has(c, k) {
        var i :| 0 <= i < |c| && c[i].key == k;
        LookAt(c, i);
        var j := if i < at then i else i - 1;
        assert d[j] == c[i];
        LookAt(d, j);
      }
    }
  }

  lemma SetKeeps(c: Chain, at: nat, m: Mask)
    requires at < |c| && Distinct(c)
    ensures var d := c[at := c[at].(data := m)];
            Distinct(d) && Look(d, c[at].key) == m && forall k :: k != c[at].key ==> Look(d, k) == Look(c, k)
  {
    var d := c[at := c[at].(data := m)];
    LookAt(d, at);
    forall k | k != c[at].key ensures Look(d, k) == Look(c, k) {
      if Has(c, k) {
        var i :| 0 <= i < |c| && c[i].key == k;
        LookAt(c, i);
        LookAt(d, i);
      }
    }
  }
}
