/** What an access vector statement leaves in its chain, bit by bit. */
module PolicyNodes {
  import opened Options
  import opened Avtab
  import opened PolicyDb
  import opened PolicyMeaning

  /** The chain has one node for the key, at `i`. */
  ghost predicate OnlyNode(c: Chain, k: Key, i: nat) {
    i < |c| && c[i].key == k && forall j :: 0 <= j < |c| && c[j].key == k ==> j == i
  }

  /** A bit of the key's mask; a key without a node has no bits, or, for `AuditDeny`, all 32. */
  ghost predicate BitSet(c: Chain, k: Key, q: Perm) {
    (exists i :: 0 <= i < |c| && c[i].key == k && q in c[i].data) ||
    (k.kind.AuditDeny? && forall i :: 0 <= i < |c| ==> c[i].key != k)
  }

  lemma LookIsBits(c: Chain, k: Key, q: Perm)
    requires Distinct(c)
    ensures q in Look(c, k) <==> BitSet(c, k, q)
  {
    if Has(c, k) {
      var i :| 0 <= i < |c| && c[i].key == k;
      LookAt(c, i);
    }
  }

  /** A bit after the statement: the permissions it names, or all of them, are set or cleared. */
  ghost predicate BitAfter(c: Chain, k: Key, perm: Option<Perm>, invert: bool, q: Perm) {
    if perm.None? || perm.value == q then !invert else BitSet(c, k, q)
  }

  lemma UpdateIsBits(c: Chain, k: Key, perm: Option<Perm>, invert: bool, q: Perm)
    requires Distinct(c)
    ensures q in Update(Look(c, k), perm, invert) <==> BitAfter(c, k, perm, invert, q)
  {
    hide Look;
    LookIsBits(c, k, q);
  }

  /** A node would say nothing: no bit set, or, for `AuditDeny`, every bit. */
  lemma RedundantMask(n: Node)
    ensures IsRedundant(n) <==> forall q: Perm :: q in n.data <==> n.key.kind.AuditDeny?
  {
  }

  lemma RewrittenNode(o: Chain, at: nat, m: Mask)
    requires Distinct(o) && at < |o|
    ensures var d := Rewritten(o, at, m);
            if forall q: Perm :: q in m <==> o[at].key.kind.AuditDeny?
            then forall j :: 0 <= j < |d| ==> d[j].key != o[at].key
            else OnlyNode(d, o[at].key, at) && d[at].data == m
  {
    RedundantMask(o[at].(data := m));
    hide IsRedundant;
  }

  /**
    After a statement about one key, its chain has a node for it exactly if some bit
    differs from what a missing node means; it is the only one and holds exactly the
    bits that were set before, but for the permissions of the statement.
  */
  lemma NodeAfter(hash: Key -> nat, a: seq<Chain>, b: seq<Chain>, k: Key, perm: Option<Perm>, invert: bool)
    requires ValidTable(hash, a) && Touched(hash, a, b, k, perm, invert)
    ensures a != [] && |b| == |a|
    ensures var c, d := a[Slot(hash, a, k)], b[Slot(hash, a, k)];
            if forall q: Perm :: BitAfter(c, k, perm, invert, q) <==> k.kind.AuditDeny?
            then forall j :: 0 <= j < |d| ==> d[j].key != k
            else exists i: nat ::
                OnlyNode(d, k, i) && forall q: Perm :: q in d[i].data <==> BitAfter(c, k, perm, invert, q)
  {
    hide Spot, Stepped, Look, BitAfter;
    ValidSlot(hash, a, k);
    var s := Slot(hash, a, k);
    var found: bool, at: nat :| Spot(a[s], found, at, k) && b == a[s := Stepped(a[s], found, at, k, perm, invert)];
    SteppedNode(a[s], found, at, k, perm, invert);
  }

  lemma SteppedNode(c: Chain, found: bool, at: nat, k: Key, perm: Option<Perm>, invert: bool)
    requires Distinct(c) && Spot(c, found, at, k)
    ensures var d := Stepped(c, found, at, k, perm, invert);
            if forall q: Perm :: BitAfter(c, k, perm, invert, q) <==> k.kind.AuditDeny?
            then forall j :: 0 <= j < |d| ==> d[j].key != k
            else OnlyNode(d, k, at) && forall q: Perm :: q in d[at].data <==> BitAfter(c, k, perm, invert, q)
  {
    OpenedKeeps(c, found, at, k);
    var o := Opened(c, found, at, k);
    var m := Update(o[at].data, perm, invert);
    RewrittenNode(o, at, m);
    hide Look, Distinct, Opened, Rewritten, BitAfter, Update, OnlyNode;
    forall q: Perm ensures q in m <==> BitAfter(c, k, perm, invert, q) {
      UpdateIsBits(c, k, perm, invert, q);
    }
  }

  ghost predicate AllBut(m: Mask, p: Perm) { forall q: int :: 1 <= q <= 32 ==> (q in m <==> q != p) }

  lemma FreshBits(c: Chain, k: Key, p: Perm, m: Mask)
    requires k.kind.AuditDeny? && forall i :: 0 <= i < |c| ==> c[i].key != k
    ensures !BitAfter(c, k, Some(p), true, p)
    ensures (forall q: Perm :: q in m <==> BitAfter(c, k, Some(p), true, q)) ==> AllBut(m, p)
  {
    if forall q: Perm :: q in m <==> BitAfter(c, k, Some(p), true, q) {
      forall q: int | 1 <= q <= 32 ensures q in m <==> q != p {
        var r: Perm := q;
        assert BitAfter(c, k, Some(p), true, r) <==> r != p;
      }
    }
  }

  /** `dontaudit` where nothing was said leaves a node with every bit but one. */
  lemma DontAuditNode(hash: Key -> nat, a: seq<Chain>, b: seq<Chain>, k: Key, p: Perm)
    requires ValidTable(hash, a) && Touched(hash, a, b, k, Some(p), true) && k.kind.AuditDeny?
    requires a != [] && forall i :: 0 <= i < |a[Slot(hash, a, k)]| ==> a[Slot(hash, a, k)][i].key != k
    ensures |b| == |a| && exists i: nat :: OnlyNode(b[Slot(hash, a, k)], k, i) && AllBut(b[Slot(hash, a, k)][i].data, p)
  {
    hide BitAfter, Touched, ValidTable, AllBut;
    NodeAfter(hash, a, b, k, Some(p), true);
    var c, d := a[Slot(hash, a, k)], b[Slot(hash, a, k)];
    FreshBits(c, k, p, {});
    var i: nat :| OnlyNode(d, k, i) && forall q: Perm :: q in d[i].data <==> BitAfter(c, k, Some(p), true, q);
    FreshBits(c, k, p, d[i].data);
  }

  /** No node anywhere for a pair of types and a class. */
  ghost predicate Unruled(hash: Key -> nat, table: seq<Chain>, attrs: Attrs, s: nat, t: nat, c: nat, kind: Kind) {
    forall b, i :: 0 <= b < |table| && 0 <= i < |table[b]| ==> !Sees(attrs, s, t, table[b][i].key, c, kind)
  }

  /** Without a rule nothing is granted, and every denial is audited. */
  lemma UnruledMeans(hash: Key -> nat, table: seq<Chain>, attrs: Attrs, s: nat, t: nat, c: nat, p: Perm)
    requires table != []
    ensures Unruled(hash, table, attrs, s, t, c, AuditDeny) ==> Audits(hash, table, attrs, s, t, c, p)
    ensures Unruled(hash, table, attrs, s, t, c, Allowed) ==> !Grants(hash, table, attrs, Allowed, s, t, c, p)
    ensures Unruled(hash, table, attrs, s, t, c, AuditAllow) ==> !Grants(hash, table, attrs, AuditAllow, s, t, c, p)
  {
    forall k, kind | Sees(attrs, s, t, k, c, kind) && Unruled(hash, table, attrs, s, t, c, kind)
      ensures p in Rule(hash, table, k) <==> kind.AuditDeny?
    {
      assert !Has(table[Slot(hash, table, k)], k);
    }
  }

  /** One pair of types or attributes, one class. */
  predicate Single(sc: Scope, s: nat, t: nat, c: nat) { sc.sources == {s} && sc.targets == {t} && sc.classes == {c} }

  /** A type is meant by its own name and by that of each attribute it has. */
  predicate Meant(attrs: Attrs, name: nat, x: nat) { x == name || name in attrs(x) }

  /** `allow s t c p` grants p to exactly the pairs whose types are meant by s and t. */
  lemma AllowOne(hash: Key -> nat, f: seq<Chain>, g: seq<Chain>, sc: Scope, s: nat, t: nat, c: nat, p: Perm,
                 attrs: Attrs, x: nat, y: nat)
    requires f != [] && g != [] && Single(sc, s, t, c) && sc.kind.Allowed? && Applied(f, g, hash, sc, Some(p), false)
    ensures Grants(hash, g, attrs, Allowed, x, y, c, p) <==>
            Grants(hash, f, attrs, Allowed, x, y, c, p) || (Meant(attrs, s, x) && Meant(attrs, t, y))
  {
    hide Grants, Applied;
    AddGrants(hash, f, g, sc, Some(p), attrs, x, y, c, p);
    assert Reaches(sc, attrs, x, y) <==> s in Faces(attrs, x) && t in Faces(attrs, y);
  }

  /** `dontaudit s t c p` silences p for exactly those pairs. */
  lemma DontAuditOne(hash: Key -> nat, f: seq<Chain>, g: seq<Chain>, sc: Scope, s: nat, t: nat, c: nat, p: Perm,
                     attrs: Attrs, x: nat, y: nat)
    requires f != [] && g != [] && Single(sc, s, t, c) && sc.kind.AuditDeny? && Applied(f, g, hash, sc, Some(p), true)
    ensures Audits(hash, g, attrs, x, y, c, p) <==>
            Audits(hash, f, attrs, x, y, c, p) && !(Meant(attrs, s, x) && Meant(attrs, t, y))
  {
    hide Audits, Applied;
    DontAuditSilences(hash, f, g, sc, Some(p), attrs, x, y, c, p);
    assert Reaches(sc, attrs, x, y) <==> s in Faces(attrs, x) && t in Faces(attrs, y);
  }
}
