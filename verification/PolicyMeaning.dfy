/** What statements mean for types, which also get the rules of their attributes. */
module PolicyMeaning {
  import opened Options
  import opened Avtab
  import opened PolicyDb

  type Attrs = nat -> set<nat>

  /** The values whose rules apply to a type: its own and its attributes'. */
  function Faces(attrs: Attrs, t: nat): set<nat> { {t} + attrs(t) }

  ghost predicate Sees(attrs: Attrs, s: nat, t: nat, k: Key, c: nat, kind: Kind) {
    k.source in Faces(attrs, s) && k.target in Faces(attrs, t) && k.cls == c && k.kind == kind
  }

  /** Some rule grants the permission. */
  ghost predicate Grants(hash: Key -> nat, table: seq<Chain>, attrs: Attrs, kind: Kind, s: nat, t: nat, c: nat, p: Perm)
    requires table != []
  {
    exists k :: Sees(attrs, s, t, k, c, kind) && p in Rule(hash, table, k)
  }

  /** No rule silences the audit of a denial. */
  ghost predicate Audits(hash: Key -> nat, table: seq<Chain>, attrs: Attrs, s: nat, t: nat, c: nat, p: Perm)
    requires table != []
  {
    forall k :: Sees(attrs, s, t, k, c, AuditDeny) ==> p in Rule(hash, table, k)
  }

  /** The statement is about this permission of this class. */
  predicate Speaks(sc: Scope, perm: Option<Perm>, c: nat, p: Perm) {
    c in sc.classes && (perm.None? || perm.value == p)
  }

  /** It reaches the type pair through one of its rules. */
  ghost predicate Reaches(sc: Scope, attrs: Attrs, s: nat, t: nat) {
    (exists a :: a in Faces(attrs, s) && a in sc.sources) && (exists b :: b in Faces(attrs, t) && b in sc.targets)
  }

  /** It reaches the type pair through all of its rules. */
  ghost predicate Covers(sc: Scope, attrs: Attrs, s: nat, t: nat) {
    Faces(attrs, s) <= sc.sources && Faces(attrs, t) <= sc.targets
  }

  lemma ReachingKey(sc: Scope, attrs: Attrs, s: nat, t: nat, c: nat) returns (k: Key)
    requires Reaches(sc, attrs, s, t) && c in sc.classes
    ensures Sees(attrs, s, t, k, c, sc.kind) && InScope(sc, k)
  {
    var a :| a in Faces(attrs, s) && a in sc.sources;
    var b :| b in Faces(attrs, t) && b in sc.targets;
    k := Key(a, b, c, sc.kind);
  }

  /** Adding a rule grants exactly what it speaks of, exactly to the pairs it reaches. */
  lemma AddGrants(hash: Key -> nat, f: seq<Chain>, g: seq<Chain>, sc: Scope, perm: Option<Perm>, attrs: Attrs, s: nat,
                  t: nat, c: nat, p: Perm)
    requires f != [] && g != [] && Applied(f, g, hash, sc, perm, false)
    ensures Grants(hash, g, attrs, sc.kind, s, t, c, p) <==>
            Grants(hash, f, attrs, sc.kind, s, t, c, p) || (Speaks(sc, perm, c, p) && Reaches(sc, attrs, s, t))
  {
    hide Rule;
    if Grants(hash, f, attrs, sc.kind, s, t, c, p) {
      var k :| Sees(attrs, s, t, k, c, sc.kind) && p in Rule(hash, f, k);
      assert p in Rule(hash, g, k);
    }
    if Speaks(sc, perm, c, p) && Reaches(sc, attrs, s, t) {
      var k := ReachingKey(sc, attrs, s, t, c);
      assert p in Rule(hash, g, k);
    }
    if Grants(hash, g, attrs, sc.kind, s, t, c, p) {
      var k :| Sees(attrs, s, t, k, c, sc.kind) && p in Rule(hash, g, k);
      if p !in Rule(hash, f, k) {
        assert InScope(sc, k);
      }
    }
  }

  /** Taking a rule away from every rule of a pair leaves exactly what it does not speak of. */
  lemma StripRevokes(hash: Key -> nat, f: seq<Chain>, g: seq<Chain>, sc: Scope, perm: Option<Perm>, attrs: Attrs,
                     s: nat, t: nat, c: nat, p: Perm)
    requires f != [] && g != [] && Applied(f, g, hash, sc, perm, true) && Covers(sc, attrs, s, t)
    ensures Grants(hash, g, attrs, sc.kind, s, t, c, p) <==>
            Grants(hash, f, attrs, sc.kind, s, t, c, p) && !Speaks(sc, perm, c, p)
  {
    hide Rule;
    if Grants(hash, f, attrs, sc.kind, s, t, c, p) && !Speaks(sc, perm, c, p) {
      var k :| Sees(attrs, s, t, k, c, sc.kind) && p in Rule(hash, f, k);
      assert p in Rule(hash, g, k);
    }
    if Grants(hash, g, attrs, sc.kind, s, t, c, p) {
      var k :| Sees(attrs, s, t, k, c, sc.kind) && p in Rule(hash, g, k);
      assert p in Rule(hash, f, k);
    }
  }

  /** A dontaudit rule silences exactly what it speaks of, exactly for the pairs it reaches. */
  lemma DontAuditSilences(hash: Key -> nat, f: seq<Chain>, g: seq<Chain>, sc: Scope, perm: Option<Perm>, attrs: Attrs,
                          s: nat, t: nat, c: nat, p: Perm)
    requires f != [] && g != [] && Applied(f, g, hash, sc, perm, true) && sc.kind.AuditDeny?
    ensures Audits(hash, g, attrs, s, t, c, p) <==>
            Audits(hash, f, attrs, s, t, c, p) && !(Speaks(sc, perm, c, p) && Reaches(sc, attrs, s, t))
  {
    hide Rule;
    if Audits(hash, g, attrs, s, t, c, p) {
      forall k | Sees(attrs, s, t, k, c, AuditDeny) ensures p in Rule(hash, f, k) {
        assert p in Rule(hash, g, k);
      }
      if Speaks(sc, perm, c, p) && Reaches(sc, attrs, s, t) {
        var k := ReachingKey(sc, attrs, s, t, c);
      }
    } else {
      var k :| Sees(attrs, s, t, k, c, AuditDeny) && p !in Rule(hash, g, k);
      if p in Rule(hash, f, k) {
        assert InScope(sc, k);
      }
    }
  }

  lemma AuditRestores(hash: Key -> nat, f: seq<Chain>, g: seq<Chain>, sc: Scope, perm: Option<Perm>, attrs: Attrs,
                      s: nat, t: nat, c: nat, p: Perm)
    requires f != [] && g != [] && Applied(f, g, hash, sc, perm, false) && sc.kind.AuditDeny? && Covers(sc, attrs, s, t)
    ensures Audits(hash, g, attrs, s, t, c, p) <==> Audits(hash, f, attrs, s, t, c, p) || Speaks(sc, perm, c, p)
  {
    hide Rule;
    if Audits(hash, f, attrs, s, t, c, p) || Speaks(sc, perm, c, p) {
      forall k | Sees(attrs, s, t, k, c, AuditDeny) ensures p in Rule(hash, g, k) {
        if !Speaks(sc, perm, c, p) {
          assert p in Rule(hash, f, k);
        }
      }
    } else {
      var k :| Sees(attrs, s, t, k, c, AuditDeny) && p !in Rule(hash, f, k);
      assert p !in Rule(hash, g, k);
    }
  }

  /** Rules of other kinds mean what they meant. */
  lemma OtherKinds(hash: Key -> nat, f: seq<Chain>, g: seq<Chain>, sc: Scope, perm: Option<Perm>, invert: bool,
                   attrs: Attrs, kind: Kind, s: nat, t: nat, c: nat, p: Perm)
    requires f != [] && g != [] && Applied(f, g, hash, sc, perm, invert) && kind != sc.kind
    ensures Grants(hash, g, attrs, kind, s, t, c, p) <==> Grants(hash, f, attrs, kind, s, t, c, p)
    ensures kind.AuditDeny? ==> (Audits(hash, g, attrs, s, t, c, p) <==> Audits(hash, f, attrs, s, t, c, p))
  {
    hide Rule;
    forall k | Sees(attrs, s, t, k, c, kind) ensures Rule(hash, g, k) == Rule(hash, f, k) {
      assert !InScope(sc, k);
    }
  }

  /* ----- wildcards ----- */

  /** The policy knows the type and its attributes, and which of them are attributes. */
  ghost predicate Known(types: seq<TypeDatum>, attrs: Attrs, t: nat) {
    (forall v :: v in Faces(attrs, t) ==> exists i :: 0 <= i < |types| && types[i].value == v) &&
    (forall v :: v in attrs(t) ==> exists i :: 0 <= i < |types| && types[i].value == v && types[i].isAttr) &&
    (t !in attrs(t) ==> forall i :: 0 <= i < |types| && types[i].value == t ==> !types[i].isAttr)
  }

  ghost predicate HasAttribute(attrs: Attrs, t: nat) { attrs(t) != {} }

  /** Through attributes alone, a wildcard reaches exactly the types that have one. */
  lemma WildcardReaches(types: seq<TypeDatum>, attrs: Attrs, t: nat)
    requires Known(types, attrs, t)
    ensures (exists a :: a in Faces(attrs, t) && a in TypeValues(types, None, false)) <==> HasAttribute(attrs, t)
    ensures Faces(attrs, t) <= TypeValues(types, None, true)
  {
    if HasAttribute(attrs, t) {
      var a :| a in attrs(t);
      var i :| 0 <= i < |types| && types[i].value == a && types[i].isAttr;
      assert a in TypeValues(types, None, false);
    }
    forall v | v in Faces(attrs, t) ensures v in TypeValues(types, None, true) {
      var i :| 0 <= i < |types| && types[i].value == v;
    }
  }

  /** `allow * * c p`: granted to every pair of types that both have an attribute; nothing else changes. */
  lemma AllowAll(hash: Key -> nat, f: seq<Chain>, g: seq<Chain>, types: seq<TypeDatum>, classes: seq<nat>,
                 st: Statement, attrs: Attrs, s: nat, t: nat, c: nat, p: Perm)
    requires st.src.None? && st.tgt.None? && st.cls.Some? && st.perm.Some? && !st.invert && !st.kind.AuditDeny?
    requires f != [] && g != [] && Applied(f, g, hash, StatementScope(types, classes, st), st.perm, st.invert)
    requires Known(types, attrs, s) && Known(types, attrs, t)
    ensures forall kind :: Grants(hash, g, attrs, kind, s, t, c, p) <==>
              Grants(hash, f, attrs, kind, s, t, c, p) ||
              (kind == st.kind && c == st.cls.value && p == st.perm.value && HasAttribute(attrs, s) &&
               HasAttribute(attrs, t))
    ensures Audits(hash, g, attrs, s, t, c, p) <==> Audits(hash, f, attrs, s, t, c, p)
  {
    hide Rule, Applied, Grants, Audits, Known, HasAttribute, TypeValues, Faces;
    forall kind | kind != st.kind
      ensures Grants(hash, g, attrs, kind, s, t, c, p) <==> Grants(hash, f, attrs, kind, s, t, c, p)
    {
      OtherKinds(hash, f, g, StatementScope(types, classes, st), st.perm, st.invert, attrs, kind, s, t, c, p);
    }
    OtherKinds(hash, f, g, StatementScope(types, classes, st), st.perm, st.invert, attrs, AuditDeny, s, t, c, p);
    WildcardReaches(types, attrs, s);
    WildcardReaches(types, attrs, t);
    AddGrants(hash, f, g, StatementScope(types, classes, st), st.perm, attrs, s, t, c, p);
  }

  /** `deny * * c p`: nobody is left with it; nothing else changes. */
  lemma DenyAll(hash: Key -> nat, f: seq<Chain>, g: seq<Chain>, types: seq<TypeDatum>, classes: seq<nat>, st: Statement,
                attrs: Attrs, s: nat, t: nat, c: nat, p: Perm)
    requires st.src.None? && st.tgt.None? && st.cls.Some? && st.perm.Some? && st.invert && !st.kind.AuditDeny?
    requires f != [] && g != [] && Applied(f, g, hash, StatementScope(types, classes, st), st.perm, st.invert)
    requires Known(types, attrs, s) && Known(types, attrs, t)
    ensures forall kind :: Grants(hash, g, attrs, kind, s, t, c, p) <==>
              Grants(hash, f, attrs, kind, s, t, c, p) && !(kind == st.kind && c == st.cls.value && p == st.perm.value)
    ensures Audits(hash, g, attrs, s, t, c, p) <==> Audits(hash, f, attrs, s, t, c, p)
  {
    hide Rule, Applied, Grants, Audits, Known, TypeValues, Faces;
    forall kind | kind != st.kind
      ensures Grants(hash, g, attrs, kind, s, t, c, p) <==> Grants(hash, f, attrs, kind, s, t, c, p)
    {
      OtherKinds(hash, f, g, StatementScope(types, classes, st), st.perm, st.invert, attrs, kind, s, t, c, p);
    }
    OtherKinds(hash, f, g, StatementScope(types, classes, st), st.perm, st.invert, attrs, AuditDeny, s, t, c, p);
    WildcardReaches(types, attrs, s);
    WildcardReaches(types, attrs, t);
    StripRevokes(hash, f, g, StatementScope(types, classes, st), st.perm, attrs, s, t, c, p);
  }

  /** `dontaudit * * c p`: silenced for every pair of types that both have an attribute. */
  lemma DontAuditAll(hash: Key -> nat, f: seq<Chain>, g: seq<Chain>, types: seq<TypeDatum>, classes: seq<nat>,
                     st: Statement, attrs: Attrs, s: nat, t: nat, c: nat, p: Perm)
    requires st.src.None? && st.tgt.None? && st.cls.Some? && st.perm.Some? && st.invert && st.kind.AuditDeny?
    requires f != [] && g != [] && Applied(f, g, hash, StatementScope(types, classes, st), st.perm, st.invert)
    requires Known(types, attrs, s) && Known(types, attrs, t)
    ensures Audits(hash, g, attrs, s, t, c, p) <==>
            Audits(hash, f, attrs, s, t, c, p) &&
            !(c == st.cls.value && p == st.perm.value && HasAttribute(attrs, s) && HasAttribute(attrs, t))
    ensures forall kind :: kind != AuditDeny ==>
              (Grants(hash, g, attrs, kind, s, t, c, p) <==> Grants(hash, f, attrs, kind, s, t, c, p))
  {
    hide Rule, Applied, Grants, Audits, Known, HasAttribute, TypeValues, Faces;
    forall kind | kind != AuditDeny
      ensures Grants(hash, g, attrs, kind, s, t, c, p) <==> Grants(hash, f, attrs, kind, s, t, c, p)
    {
      OtherKinds(hash, f, g, StatementScope(types, classes, st), st.perm, st.invert, attrs, kind, s, t, c, p);
    }
    WildcardReaches(types, attrs, s);
    WildcardReaches(types, attrs, t);
    DontAuditSilences(hash, f, g, StatementScope(types, classes, st), st.perm, attrs, s, t, c, p);
  }

  /* ----- a literal rule undone ----- */

  lemma SamePlace(c: Chain, i: nat, j: nat)
    requires Distinct(c) && i < |c| && j < |c| && c[i].key == c[j].key
    ensures i == j
  {
  }

  /** Stepping a chain for a permission and back. */
  lemma StepBack(c: Chain, k: Key, p: Perm, found: bool, at: nat, found': bool, at': nat)
    requires Distinct(c) && NoneRedundant(c) && !k.kind.AuditDeny? && p !in Look(c, k)
    requires Spot(c, found, at, k) && Spot(Stepped(c, found, at, k, Some(p), false), found', at', k)
    ensures Stepped(Stepped(c, found, at, k, Some(p), false), found', at', k, Some(p), true) == c
  {
    hide Look, Distinct;
    OpenedKeeps(c, found, at, k);
    var o := Opened(c, found, at, k);
    var m := o[at].data + {p};
    assert p in m && m != {};
    var d := o[at := o[at].(data := m)];
    assert !IsRedundant(d[at]);
    RewrittenKeeps(o, at, m);
    assert d[at].key == k && Has(d, k);
    SamePlace(d, at, at');
    assert m - {p} == o[at].data;
    assert d[at := d[at].(data := o[at].data)] == o;
    if found {
      assert !IsRedundant(c[at]);
    } else {
      assert Removed(o, at) == c;
    }
  }

  lemma TouchedRule(hash: Key -> nat, a: seq<Chain>, b: seq<Chain>, k: Key, perm: Option<Perm>, invert: bool)
    requires ValidTable(hash, a) && Touched(hash, a, b, k, perm, invert)
    ensures a != [] && b != [] && ValidTable(hash, b) && Rule(hash, b, k) == Update(Rule(hash, a, k), perm, invert)
  {
    hide ValidTable, Stepped, Spot, Rule;
    ValidSlot(hash, a, k);
    var s := Slot(hash, a, k);
    var found: bool, at: nat :| Spot(a[s], found, at, k) && b == a[s := Stepped(a[s], found, at, k, perm, invert)];
    ChainUpdated(hash, a, k, found, at, Stepped(a[s], found, at, k, perm, invert), perm, invert);
  }

  /** Allowing one literal permission and denying it again restores the table exactly, if and only if it was absent. */
  lemma AllowThenDeny(hash: Key -> nat, a: seq<Chain>, b: seq<Chain>, c: seq<Chain>, k: Key, p: Perm)
    requires ValidTable(hash, a) && Tidy(a) && !k.kind.AuditDeny?
    requires Touched(hash, a, b, k, Some(p), false) && Touched(hash, b, c, k, Some(p), true)
    ensures a != [] && (c == a <==> p !in Rule(hash, a, k))
  {
    TouchedRule(hash, a, b, k, Some(p), false);
    TouchedRule(hash, b, c, k, Some(p), true);
    hide Look, Distinct, Stepped, Spot, NoneRedundant;
    ValidSlot(hash, a, k);
    var s := Slot(hash, a, k);
    if p !in Rule(hash, a, k) {
      var found: bool, at: nat :| Spot(a[s], found, at, k) && b == a[s := Stepped(a[s], found, at, k, Some(p), false)];
      var found': bool, at': nat :|
        Spot(b[s], found', at', k) && c == b[s := Stepped(b[s], found', at', k, Some(p), true)];
      StepBack(a[s], k, p, found, at, found', at');
      assert c == a[s := a[s]] == a;
    }
  }
}
