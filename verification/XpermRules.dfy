/** Extended permission statements, with wildcards. */
module XpermRules {
  import opened Options
  import opened PolicyDb
  import opened Xperms

  datatype XStatement = XStatement(src: Option<TypeDatum>, tgt: Option<TypeDatum>, cls: Option<nat>, p: Xperm,
                                   kind: XKind)

  datatype XScope = XScope(sources: set<nat>, targets: set<nat>, classes: set<nat>, kind: XKind)

  predicate InXScope(s: XScope, k: XKey) {
    k.source in s.sources && k.target in s.targets && k.cls in s.classes && k.kind == s.kind
  }

  /** A wildcard source or target stands for the attributes. */
  ghost function XScopeOf(types: seq<TypeDatum>, classes: seq<nat>, st: XStatement): XScope {
    XScope(TypeValues(types, st.src, false), TypeValues(types, st.tgt, false), ClassValues(classes, st.cls), st.kind)
  }

  ghost predicate XApplied(before: Nodes, after: Nodes, s: XScope, p: Xperm) {
    forall k, d: u8, f: u8 :: Allowed(after, k, d, f) <==>
      if InXScope(s, k) then After(p, d, f, Allowed(before, k, d, f)) else Allowed(before, k, d, f)
  }

  lemma XAppliedThen(a: Nodes, b: Nodes, c: Nodes, r: XScope, s: XScope, both: XScope, p: Xperm)
    requires XApplied(a, b, r, p) && XApplied(b, c, s, p)
    requires forall k :: InXScope(both, k) <==> InXScope(r, k) || InXScope(s, k)
    ensures XApplied(a, c, both, p)
  {
    hide Allowed, InXScope, InRange;
  }

  lemma XNothing(a: Nodes, s: XScope, p: Xperm)
    requires s.sources == {} || s.targets == {} || s.classes == {}
    ensures XApplied(a, a, s, p)
  {
  }

  /** One key's nodes changed, so only that key's commands did. */
  lemma OneKey(before: Nodes, after: Nodes, k: XKey, s: XScope, p: Xperm)
    requires OthersKept(before, after, k) && forall l :: InXScope(s, l) <==> l == k
    requires forall d: u8, f: u8 :: Allowed(after, k, d, f) <==> After(p, d, f, Allowed(before, k, d, f))
    ensures XApplied(before, after, s, p)
  {
    hide InXScope;
    forall l, d: u8, f: u8 | l != k ensures Allowed(after, l, d, f) <==> Allowed(before, l, d, f) {
      if Allowed(after, l, d, f) {
        var i :| i in after && NodeAllows(after[i], l, d, f);
        assert i in before && NodeAllows(before[i], l, d, f);
      }
      if Allowed(before, l, d, f) {
        var i :| i in before && NodeAllows(before[i], l, d, f);
        assert i in after && NodeAllows(after[i], l, d, f);
      }
    }
  }

  class XpermPolicy {
    const types: seq<TypeDatum>
    const classes: seq<nat>
    const supported: bool        // the policy version has ioctl extended permissions
    const table: XpermTable

    constructor (types: seq<TypeDatum>, classes: seq<nat>, supported: bool, table: XpermTable)
      ensures this.types == types && this.classes == classes && this.supported == supported && this.table == table
    {
      this.types, this.classes, this.supported, this.table := types, classes, supported, table;
    }

    /** One statement; policies too old for it are left alone. */
    method AddXpermRule(st: XStatement)
      requires Unique(table.nodes)
      modifies table
      ensures Unique(table.nodes)
      ensures supported ==> XApplied(old(table.nodes), table.nodes, XScopeOf(types, classes, st), st.p)
      ensures !supported ==> table.nodes == old(table.nodes)
      decreases (if st.src.None? then 1 else 0) + (if st.tgt.None? then 1 else 0) + (if st.cls.None? then 1 else 0), 1
    {
      hide Unique, OthersKept, Allowed, XApplied, InRange;
      if !supported {
        return;
      }
      if st.src.None? {
        AddForAttributes(st, true);
      } else if st.tgt.None? {
        AddForAttributes(st, false);
      } else if st.cls.None? {
        AddForClasses(st);
      } else {
        var k := XKey(st.src.value.value, st.tgt.value.value, st.cls.value, st.kind);
        table.AddRange(k, st.p);
        OneKey(old(table.nodes), table.nodes, k, XScopeOf(types, classes, st), st.p);
      }
    }

    ghost function PartScope(st: XStatement, source: bool, i: nat): XScope
      requires i <= |types|
    {
      XScope(TypeValues(if source then types[..i] else types, st.src, false),
             TypeValues(if source then types else types[..i], st.tgt, false), ClassValues(classes, st.cls), st.kind)
    }

    method AddForAttributes(st: XStatement, source: bool)
      requires Unique(table.nodes) && supported && if source then st.src.None? else st.src.Some? && st.tgt.None?
      modifies table
      ensures Unique(table.nodes) && XApplied(old(table.nodes), table.nodes, XScopeOf(types, classes, st), st.p)
      decreases (if st.src.None? then 1 else 0) + (if st.tgt.None? then 1 else 0) + (if st.cls.None? then 1 else 0), 0
    {
      hide Unique, Allowed, XApplied, ClassValues, TypeValues;
      var i := 0;
      NoTypeValues(types);
      XNothing(table.nodes, PartScope(st, source, 0), st.p);
      while i < |types|
        invariant i <= |types| && Unique(table.nodes)
        invariant XApplied(old(table.nodes), table.nodes, PartScope(st, source, i), st.p)
      {
        TypeValuesNext(types, false, i);
        ghost var before, r := table.nodes, PartScope(st, source, i);
        if types[i].isAttr {
          ghost var one := if source then st.(src := Some(types[i])) else st.(tgt := Some(types[i]));
          LiteralType(types, types[i]);
          AddXpermRule(if source then st.(src := Some(types[i])) else st.(tgt := Some(types[i])));
          XAppliedThen(old(table.nodes), before, table.nodes, r, XScopeOf(types, classes, one),
                       PartScope(st, source, i + 1), st.p);
        } else {
          assert PartScope(st, source, i + 1) == r;
        }
        i := i + 1;
      }
      assert types[..i] == types;
    }

    method AddForClasses(st: XStatement)
      requires Unique(table.nodes) && supported && st.src.Some? && st.tgt.Some? && st.cls.None?
      modifies table
      ensures Unique(table.nodes) && XApplied(old(table.nodes), table.nodes, XScopeOf(types, classes, st), st.p)
      decreases (if st.src.None? then 1 else 0) + (if st.tgt.None? then 1 else 0) + (if st.cls.None? then 1 else 0), 0
    {
      hide Unique, Allowed, XApplied, ClassValues, TypeValues;
      var i := 0;
      NoClassValues(classes);
      XNothing(table.nodes, XScopeOf(types, classes[..0], st), st.p);
      while i < |classes|
        invariant i <= |classes| && Unique(table.nodes)
        invariant XApplied(old(table.nodes), table.nodes, XScopeOf(types, classes[..i], st), st.p)
      {
        ClassValuesNext(classes, i);
        LiteralClass(classes, classes[i]);
        ghost var before := table.nodes;
        AddXpermRule(st.(cls := Some(classes[i])));
        XAppliedThen(old(table.nodes), before, table.nodes, XScopeOf(types, classes[..i], st),
                     XScopeOf(types, classes, st.(cls := Some(classes[i]))), XScopeOf(types, classes[..i + 1], st),
                     st.p);
        i := i + 1;
      }
      assert classes[..i] == classes;
    }

    /**
      Any run of statements keeps one node per role, and each command follows the
      statements about its key; policies too old for them are left alone.
    */
    method AddXpermRules(sts: seq<XStatement>)
      requires Unique(table.nodes)
      modifies table
      ensures Unique(table.nodes)
      ensures !supported ==> table.nodes == old(table.nodes)
      ensures supported ==> forall k, d: u8, f: u8 :: Allowed(table.nodes, k, d, f) <==>
                XRunOn(types, classes, sts, k, d, f, Allowed(old(table.nodes), k, d, f))
    {
      hide Unique, Allowed, InRange;
      var i := 0;
      while i < |sts|
        invariant i <= |sts| && Unique(table.nodes)
        invariant !supported ==> table.nodes == old(table.nodes)
        invariant supported ==> forall k, d: u8, f: u8 :: Allowed(table.nodes, k, d, f) <==>
                    XRunOn(types, classes, sts[..i], k, d, f, Allowed(old(table.nodes), k, d, f))
      {
        AddXpermRule(sts[i]);
        assert sts[..i + 1][..i] == sts[..i];
        i := i + 1;
      }
      assert sts[..i] == sts;
    }
  }

  ghost function XRunOn(types: seq<TypeDatum>, classes: seq<nat>, sts: seq<XStatement>, k: XKey, d: u8, f: u8,
                        before: bool): bool {
    if sts == [] then before
    else
      var n := |sts| - 1;
      var mid := XRunOn(types, classes, sts[..n], k, d, f, before);
      if InXScope(XScopeOf(types, classes, sts[n]), k) then After(sts[n].p, d, f, mid) else mid
  }

  /** Of two complements for the same keys only the later one counts: `~{a b}` is not the complement of both. */
  lemma LastComplementWins(types: seq<TypeDatum>, classes: seq<nat>, st: XStatement, p: Xperm, q: Xperm, k: XKey, d: u8,
                           f: u8, before: bool)
    requires p.reset && q.reset && InXScope(XScopeOf(types, classes, st), k)
    ensures XRunOn(types, classes, [st.(p := p), st.(p := q)], k, d, f, before) <==> !InRange(q, d, f)
  {
    var sts := [st.(p := p), st.(p := q)];
    assert XScopeOf(types, classes, sts[1]) == XScopeOf(types, classes, st);
  }

  lemma NoTypeValues(types: seq<TypeDatum>)
    ensures TypeValues(types[..0], None, false) == {}
  {
  }

  lemma NoClassValues(classes: seq<nat>)
    ensures ClassValues(classes[..0], None) == {}
  {
  }

  lemma LiteralType(types: seq<TypeDatum>, t: TypeDatum)
    ensures TypeValues(types, Some(t), false) == {t.value}
  {
  }

  lemma LiteralClass(classes: seq<nat>, c: nat)
    ensures ClassValues(classes, Some(c)) == {c}
  {
  }
}
