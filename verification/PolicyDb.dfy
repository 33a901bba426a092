/** Adding and removing access vector rules, with wildcards. */
module PolicyDb {
  import opened Options
  import opened Avtab

  /** A type or attribute. */
  datatype TypeDatum = TypeDatum(value: nat, isAttr: bool)

  /** Negating an auditdeny rule adds to it; for every other rule, negating takes away. */
  predicate StripAv(kind: Kind, invert: bool) { kind.AuditDeny? == !invert }

  /** The type values a source or target stands for: taking away has to reach every type, adding only attributes. */
  function TypeValues(types: seq<TypeDatum>, t: Option<TypeDatum>, strip: bool): set<nat> {
    if t.Some? then {t.value.value}
    else set i | 0 <= i < |types| && (strip || types[i].isAttr) :: types[i].value
  }

  function ClassValues(classes: seq<nat>, c: Option<nat>): set<nat> {
    if c.Some? then {c.value} else set i | 0 <= i < |classes| :: classes[i]
  }

  /** The keys a rule touches. */
  datatype Scope = Scope(sources: set<nat>, targets: set<nat>, classes: set<nat>, kind: Kind)

  predicate InScope(s: Scope, k: Key) {
    k.source in s.sources && k.target in s.targets && k.cls in s.classes && k.kind == s.kind
  }

  datatype Statement = Statement(
    src: Option<TypeDatum>, tgt: Option<TypeDatum>, cls: Option<nat>, perm: Option<Perm>, kind: Kind, invert: bool)

  ghost function StatementScope(types: seq<TypeDatum>, classes: seq<nat>, st: Statement): Scope {
    var strip := StripAv(st.kind, st.invert);
    Scope(TypeValues(types, st.src, strip), TypeValues(types, st.tgt, strip), ClassValues(classes, st.cls), st.kind)
  }

  /** One rule through a run of statements. */
  ghost function RunOn(types: seq<TypeDatum>, classes: seq<nat>, sts: seq<Statement>, k: Key, m: Mask): Mask {
    if sts == [] then m
    else
      var n := |sts| - 1;
      var before := RunOn(types, classes, sts[..n], k, m);
      if InScope(StatementScope(types, classes, sts[n]), k) then Update(before, sts[n].perm, sts[n].invert) else before
  }

  /** What the rules are after a statement: the update on every key in scope, nothing else. */
  ghost predicate Applied(before: seq<Chain>, after: seq<Chain>, hash: Key -> nat, s: Scope, perm: Option<Perm>,
                          invert: bool)
    requires before != [] && after != []
  {
    forall k :: Rule(hash, after, k) ==
      if InScope(s, k) then Update(Rule(hash, before, k), perm, invert) else Rule(hash, before, k)
  }

  function Slot(hash: Key -> nat, table: seq<Chain>, k: Key): nat
    requires table != []
  {
    hash(k) % |table|
  }

  ghost function Rule(hash: Key -> nat, table: seq<Chain>, k: Key): Mask
    requires table != []
  {
    Look(table[Slot(hash, table, k)], k)
  }

  ghost predicate ValidTable(hash: Key -> nat, table: seq<Chain>) {
    table != [] &&
    (forall b :: 0 <= b < |table| ==> Distinct(table[b])) &&
    forall b, i :: 0 <= b < |table| && 0 <= i < |table[b]| ==> Slot(hash, table, table[b][i].key) == b
  }

  ghost predicate Tidy(table: seq<Chain>) {
    forall b :: 0 <= b < |table| ==> NoneRedundant(table[b])
  }

  /** Changing one chain at one key. */
  lemma ChainChanged(hash: Key -> nat, table: seq<Chain>, chain: Chain, k: Key)
    requires ValidTable(hash, table) && Distinct(chain)
    requires var b := Slot(hash, table, k);
             (forall i :: 0 <= i < |chain| ==> Slot(hash, table, chain[i].key) == b) &&
             forall l :: l != k ==> Look(chain, l) == Look(table[b], l)
    ensures var t := table[Slot(hash, table, k) := chain];
            ValidTable(hash, t) && Rule(hash, t, k) == Look(chain, k) &&
            forall l :: l != k ==> Rule(hash, t, l) == Rule(hash, table, l)
  {
    hide Look, Distinct;
    var t := table[Slot(hash, table, k) := chain];
    assert forall l :: Slot(hash, t, l) == Slot(hash, table, l);
  }

  class Policy {
    const hash: Key -> nat
    const types: seq<TypeDatum>
    const classes: seq<nat>
    var htable: seq<Chain>

    constructor (hash: Key -> nat, types: seq<TypeDatum>, classes: seq<nat>, htable: seq<Chain>)
      requires ValidTable(hash, htable)
      ensures Valid() && this.hash == hash && this.types == types && this.classes == classes && this.htable == htable
    {
      this.hash, this.types, this.classes, this.htable := hash, types, classes, htable;
    }

    ghost predicate Valid()
      reads this
    {
      ValidTable(hash, htable)
    }

    /** Finds the node of a key in its chain. */
    method FindNode(k: Key) returns (at: Option<nat>)
      requires Valid()
      ensures var c := htable[Slot(hash, htable, k)];
              if at.Some? then at.value < |c| && c[at.value].key == k else !Has(c, k)
    {
      var c := htable[Slot(hash, htable, k)];
      var i := 0;
      while i < |c|
        invariant i <= |c| && forall j :: 0 <= j < i ==> c[j].key != k
      {
        if c[i].key == k {
          return Some(i);
        }
        i := i + 1;
      }
      return None;
    }

    /** Changes the mask of one key, with a node put in before and taken out again after if it says nothing. */
    method SetRule(k: Key, perm: Option<Perm>, invert: bool)
      requires Valid()
      modifies this
      ensures Valid() && |htable| == |old(htable)| && (old(Tidy(htable)) ==> Tidy(htable))
      ensures Rule(hash, htable, k) == Update(Rule(hash, old(htable), k), perm, invert)
      ensures forall l :: l != k ==> Rule(hash, htable, l) == Rule(hash, old(htable), l)
      ensures Touched(hash, old(htable), htable, k, perm, invert)
    {
      hide Look, Distinct, Rule, ValidTable, Tidy, NoneRedundant;
      ValidSlot(hash, htable, k);
      var b := Slot(hash, htable, k);
      var c := htable[b];
      var found := FindNode(k);
      var at: nat;
      if found.Some? {
        at := found.value;
      } else {
        at :| 0 <= at <= |c|;
        c := Inserted(c, at, Node(k, Default(k.kind)));
      }
      assert c[at].key == k;
      c := c[at := c[at].(data := Update(c[at].data, perm, invert))];
      if IsRedundant(c[at]) {
        c := Removed(c, at);
      }
      ChainUpdated(hash, htable, k, found.Some?, at, c, perm, invert);
      htable := htable[b := c];
    }

    ghost function ScopeOf(st: Statement): Scope {
      StatementScope(types, classes, st)
    }

    /** One statement; an absent source, target or class stands for all of them. */
    method AddRule(st: Statement)
      requires Valid()
      modifies this
      ensures Valid() && |htable| == |old(htable)| && (old(Tidy(htable)) ==> Tidy(htable))
      ensures Applied(old(htable), htable, hash, ScopeOf(st), st.perm, st.invert)
      ensures st.src.Some? && st.tgt.Some? && st.cls.Some? ==>
                Touched(hash, old(htable), htable, Key(st.src.value.value, st.tgt.value.value, st.cls.value, st.kind),
                        st.perm, st.invert)
      decreases (if st.src.None? then 1 else 0) + (if st.tgt.None? then 1 else 0) + (if st.cls.None? then 1 else 0), 1
    {
      hide ValidTable, Tidy, Rule, Touched, TypeValues, ClassValues;
      TableNotEmpty(hash, htable);
      if st.src.None? {
        AddForTypes(st, true);
      } else if st.tgt.None? {
        AddForTypes(st, false);
      } else if st.cls.None? {
        AddForClasses(st);
      } else {
        SetRule(Key(st.src.value.value, st.tgt.value.value, st.cls.value, st.kind), st.perm, st.invert);
        LiteralScope(types, classes, st);
      }
    }

    /** A wildcard source or target: all types when taking away, attributes only when adding. */
    method AddForTypes(st: Statement, source: bool)
      requires Valid() && (if source then st.src.None? else st.src.Some? && st.tgt.None?)
      modifies this
      ensures Valid() && |htable| == |old(htable)| && (old(Tidy(htable)) ==> Tidy(htable))
      ensures Applied(old(htable), htable, hash, ScopeOf(st), st.perm, st.invert)
      decreases (if st.src.None? then 1 else 0) + (if st.tgt.None? then 1 else 0) + (if st.cls.None? then 1 else 0), 0
    {
      hide ValidTable, Tidy, Rule, Touched, TypeValues, ClassValues, Applied;
      TableNotEmpty(hash, htable);
      var i := 0;
      NoTypes(htable, hash, types, classes, st, source);
      while i < |types|
        invariant i <= |types| && Valid() && |htable| == |old(htable)| && (old(Tidy(htable)) ==> Tidy(htable))
        invariant Applied(old(htable), htable, hash, PartScope(types, classes, st, source, i), st.perm, st.invert)
      {
        ghost var before := htable;
        if StripAv(st.kind, st.invert) || types[i].isAttr {
          AddRule(if source then st.(src := Some(types[i])) else st.(tgt := Some(types[i])));
        }
        NextType(old(htable), before, htable, hash, types, classes, st, source, i);
        i := i + 1;
      }
      AllTypes(types, classes, st, source);
    }

    method AddForClasses(st: Statement)
      requires Valid() && st.src.Some? && st.tgt.Some? && st.cls.None?
      modifies this
      ensures Valid() && |htable| == |old(htable)| && (old(Tidy(htable)) ==> Tidy(htable))
      ensures Applied(old(htable), htable, hash, ScopeOf(st), st.perm, st.invert)
      decreases (if st.src.None? then 1 else 0) + (if st.tgt.None? then 1 else 0) + (if st.cls.None? then 1 else 0), 0
    {
      hide ValidTable, Tidy, Rule, Touched, TypeValues, ClassValues, Applied;
      TableNotEmpty(hash, htable);
      var i := 0;
      NoClasses(htable, hash, types, classes, st);
      while i < |classes|
        invariant i <= |classes| && Valid() && |htable| == |old(htable)| && (old(Tidy(htable)) ==> Tidy(htable))
        invariant Applied(old(htable), htable, hash, StatementScope(types, classes[..i], st), st.perm, st.invert)
      {
        ghost var before := htable;
        AddRule(st.(cls := Some(classes[i])));
        NextClass(old(htable), before, htable, hash, types, classes, st, i);
        i := i + 1;
      }
      assert classes[..i] == classes;
    }

    /** Any run of statements. */
    method AddRules(sts: seq<Statement>)
      requires Valid()
      modifies this
      ensures Valid() && |htable| == |old(htable)| && (old(Tidy(htable)) ==> Tidy(htable))
      ensures htable != []
      ensures forall k :: Rule(hash, htable, k) == RunOn(types, classes, sts, k, Rule(hash, old(htable), k))
    {
      hide ValidTable, Tidy, Rule;
      TableNotEmpty(hash, htable);
      var i := 0;
      while i < |sts|
        invariant i <= |sts| && Valid() && |htable| == |old(htable)| && (old(Tidy(htable)) ==> Tidy(htable))
        invariant forall k :: Rule(hash, htable, k) == RunOn(types, classes, sts[..i], k, Rule(hash, old(htable), k))
      {
        AddRule(sts[i]);
        assert sts[..i + 1][..i] == sts[..i];
        i := i + 1;
      }
      assert sts[..i] == sts;
    }
  }

  lemma ValidSlot(hash: Key -> nat, table: seq<Chain>, k: Key)
    requires ValidTable(hash, table)
    ensures table != [] && Distinct(table[Slot(hash, table, k)])
    ensures forall i :: 0 <= i < |table[Slot(hash, table, k)]| ==>
              Slot(hash, table, table[Slot(hash, table, k)][i].key) == Slot(hash, table, k)
  {
  }

  /** The chain after an update: with its node set, or without it if it became redundant. */
  function Rewritten(c: Chain, at: nat, m: Mask): Chain
    requires at < |c|
  {
    var d := c[at := c[at].(data := m)];
    if IsRedundant(d[at]) then Removed(d, at) else d
  }

  /** `at` is the node of the key, or a place for one if it has none. */
  ghost predicate Spot(c: Chain, found: bool, at: nat, k: Key) {
    if found then at < |c| && c[at].key == k else at <= |c| && !Has(c, k)
  }

  /** The chain an update works on: with a fresh node if the key had none. */
  ghost function Opened(c: Chain, found: bool, at: nat, k: Key): (d: Chain)
    requires Spot(c, found, at, k)
    ensures at < |d|
  {
    if found then c else Inserted(c, at, Node(k, Default(k.kind)))
  }

  ghost function Stepped(c: Chain, found: bool, at: nat, k: Key, perm: Option<Perm>, invert: bool): Chain
    requires Spot(c, found, at, k)
  {
    var o := Opened(c, found, at, k);
    Rewritten(o, at, Update(o[at].data, perm, invert))
  }

  /** How the table itself changed: one chain, by one step at the node of the key. */
  ghost predicate Touched(hash: Key -> nat, before: seq<Chain>, after: seq<Chain>, k: Key, perm: Option<Perm>,
                          invert: bool) {
    before != [] &&
    var b := Slot(hash, before, k);
    exists found: bool, at: nat ::
      Spot(before[b], found, at, k) && after == before[b := Stepped(before[b], found, at, k, perm, invert)]
  }

  lemma OpenedKeeps(c: Chain, found: bool, at: nat, k: Key)
    requires Distinct(c) && Spot(c, found, at, k)
    ensures var d := Opened(c, found, at, k);
            Distinct(d) && at < |d| && d[at].key == k && d[at].data == Look(c, k) &&
            forall l :: Look(d, l) == Look(c, l)
  {
    hide Look, Distinct;
    var d := Opened(c, found, at, k);
    if found {
      LookAt(c, at);
    } else {
      assert Look(c, k) == Default(k.kind);
      InsertKeeps(c, at, Node(k, Default(k.kind)));
      assert d[at] == Node(k, Default(k.kind));
    }
  }

  lemma RewrittenKeeps(c: Chain, at: nat, m: Mask)
    requires Distinct(c) && at < |c|
    ensures var d := Rewritten(c, at, m);
            Distinct(d) && Look(d, c[at].key) == m && forall l :: l != c[at].key ==> Look(d, l) == Look(c, l)
  {
    hide Look, Distinct, Has;
    var d := c[at := c[at].(data := m)];
    SetKeeps(c, at, m);
    if IsRedundant(d[at]) {
      RemoveKeeps(d, at);
      assert Look(Removed(d, at), c[at].key) == Default(c[at].key.kind);
    }
  }

  /** Nodes keep their places and only the updated one can be redundant. */
  lemma RewrittenTidy(c: Chain, found: bool, at: nat, k: Key, m: Mask)
    requires Spot(c, found, at, k)
    ensures var d := Rewritten(Opened(c, found, at, k), at, m);
            (NoneRedundant(c) ==> NoneRedundant(d)) &&
            forall i :: 0 <= i < |d| ==> d[i].key == k || exists j :: 0 <= j < |c| && c[j].key == d[i].key
  {
    var o := Opened(c, found, at, k);
    assert forall i :: 0 <= i < |o| && i != at ==> o[i] == c[if found || i < at then i else i - 1];
    var d := Rewritten(o, at, m);
    forall i | 0 <= i < |d|
      ensures NoneRedundant(c) ==> !IsRedundant(d[i])
      ensures d[i].key == k || exists j :: 0 <= j < |c| && c[j].key == d[i].key
    {
      if |d| == |o| && i == at {
      } else {
        var j := if |d| == |o| || i < at then i else i + 1;
        assert d[i] == o[j] && j != at;
        var l := if found || j < at then j else j - 1;
        assert c[l] == d[i];
      }
    }
  }

  lemma ChainUpdated(hash: Key -> nat, table: seq<Chain>, k: Key, found: bool, at: nat, c: Chain, perm: Option<Perm>,
                     invert: bool)
    requires ValidTable(hash, table)
    requires var was := table[Slot(hash, table, k)];
             Spot(was, found, at, k) && c == Stepped(was, found, at, k, perm, invert)
    ensures var t := table[Slot(hash, table, k) := c];
            ValidTable(hash, t) && (Tidy(table) ==> Tidy(t)) &&
            Rule(hash, t, k) == Update(Rule(hash, table, k), perm, invert) &&
            (forall l :: l != k ==> Rule(hash, t, l) == Rule(hash, table, l)) &&
            Touched(hash, table, t, k, perm, invert)
  {
    hide Look, Distinct, Has, NoneRedundant, Rewritten, Opened;
    var was := table[Slot(hash, table, k)];
    ValidSlot(hash, table, k);
    OpenedKeeps(was, found, at, k);
    var o := Opened(was, found, at, k);
    var m := Update(o[at].data, perm, invert);
    RewrittenKeeps(o, at, m);
    RewrittenTidy(was, found, at, k, m);
    ChainChanged(hash, table, c, k);
  }

  /* ----- putting scopes together ----- */

  lemma TableNotEmpty(hash: Key -> nat, table: seq<Chain>)
    requires ValidTable(hash, table)
    ensures table != []
  {
  }

  /** Two updates in a row cover both scopes; a key in both is not changed again. */
  lemma AppliedThen(a: seq<Chain>, b: seq<Chain>, c: seq<Chain>, hash: Key -> nat, r: Scope, s: Scope, both: Scope,
                    perm: Option<Perm>, invert: bool)
    requires a != [] && b != [] && c != []
    requires Applied(a, b, hash, r, perm, invert) && Applied(b, c, hash, s, perm, invert)
    requires forall k :: InScope(both, k) <==> InScope(r, k) || InScope(s, k)
    ensures Applied(a, c, hash, both, perm, invert)
  {
    hide Rule, InScope, Update;
    forall k
      ensures Rule(hash, c, k) == if InScope(both, k) then Update(Rule(hash, a, k), perm, invert) else Rule(hash, a, k)
    {
      UpdateTwice(Rule(hash, a, k), perm, invert);
    }
  }

  /** The scope of a wildcard statement over the first `i` types. */
  ghost function PartScope(types: seq<TypeDatum>, classes: seq<nat>, st: Statement, source: bool, i: nat): Scope
    requires i <= |types|
  {
    var strip := StripAv(st.kind, st.invert);
    Scope(TypeValues(if source then types[..i] else types, st.src, strip),
          TypeValues(if source then types else types[..i], st.tgt, strip), ClassValues(classes, st.cls), st.kind)
  }

  lemma NoTypes(a: seq<Chain>, hash: Key -> nat, types: seq<TypeDatum>, classes: seq<nat>, st: Statement, source: bool)
    requires a != [] && if source then st.src.None? else st.src.Some? && st.tgt.None?
    ensures Applied(a, a, hash, PartScope(types, classes, st, source, 0), st.perm, st.invert)
  {
    hide Rule;
    assert TypeValues(types[..0], None, StripAv(st.kind, st.invert)) == {};
  }

  lemma AllTypes(types: seq<TypeDatum>, classes: seq<nat>, st: Statement, source: bool)
    ensures PartScope(types, classes, st, source, |types|) == StatementScope(types, classes, st)
  {
    assert types[..|types|] == types;
  }

  lemma TypeValuesNext(types: seq<TypeDatum>, strip: bool, i: nat)
    requires i < |types|
    ensures TypeValues(types[..i + 1], None, strip) ==
            TypeValues(types[..i], None, strip) + if strip || types[i].isAttr then {types[i].value} else {}
  {
    var all, part := types[..i + 1], types[..i];
    forall v | v in TypeValues(all, None, strip)
      ensures v in TypeValues(part, None, strip) || ((strip || types[i].isAttr) && v == types[i].value)
    {
      var j :| 0 <= j < |all| && (strip || all[j].isAttr) && all[j].value == v;
      if j < i {
        assert part[j] == all[j];
      }
    }
    forall v | v in TypeValues(part, None, strip) ensures v in TypeValues(all, None, strip) {
      var j :| 0 <= j < |part| && (strip || part[j].isAttr) && part[j].value == v;
      assert all[j] == part[j];
    }
    assert all[i] == types[i];
  }

  /** The statement for one type in place of a wildcard. */
  function OneType(st: Statement, source: bool, t: TypeDatum): Statement {
    if source then st.(src := Some(t)) else st.(tgt := Some(t))
  }

  lemma NextType(a: seq<Chain>, b: seq<Chain>, c: seq<Chain>, hash: Key -> nat, types: seq<TypeDatum>,
                 classes: seq<nat>, st: Statement, source: bool, i: nat)
    requires a != [] && b != [] && c != [] && i < |types|
    requires if source then st.src.None? else st.src.Some? && st.tgt.None?
    requires Applied(a, b, hash, PartScope(types, classes, st, source, i), st.perm, st.invert)
    requires if StripAv(st.kind, st.invert) || types[i].isAttr
             then Applied(b, c, hash, StatementScope(types, classes, OneType(st, source, types[i])), st.perm, st.invert)
             else b == c
    ensures Applied(a, c, hash, PartScope(types, classes, st, source, i + 1), st.perm, st.invert)
  {
    hide Applied, ClassValues;
    var strip := StripAv(st.kind, st.invert);
    TypeValuesNext(types, strip, i);
    var r, both := PartScope(types, classes, st, source, i), PartScope(types, classes, st, source, i + 1);
    if strip || types[i].isAttr {
      var s := StatementScope(types, classes, OneType(st, source, types[i]));
      AppliedThen(a, b, c, hash, r, s, both, st.perm, st.invert);
    } else {
      assert r == both;
    }
  }

  lemma NoClasses(a: seq<Chain>, hash: Key -> nat, types: seq<TypeDatum>, classes: seq<nat>, st: Statement)
    requires a != [] && st.cls.None?
    ensures Applied(a, a, hash, StatementScope(types, classes[..0], st), st.perm, st.invert)
  {
    hide Rule, TypeValues;
    assert ClassValues(classes[..0], None) == {};
  }

  lemma NextClass(a: seq<Chain>, b: seq<Chain>, c: seq<Chain>, hash: Key -> nat, types: seq<TypeDatum>,
                  classes: seq<nat>, st: Statement, i: nat)
    requires a != [] && b != [] && c != [] && i < |classes| && st.cls.None?
    requires Applied(a, b, hash, StatementScope(types, classes[..i], st), st.perm, st.invert)
    requires Applied(b, c, hash, StatementScope(types, classes, st.(cls := Some(classes[i]))), st.perm, st.invert)
    ensures Applied(a, c, hash, StatementScope(types, classes[..i + 1], st), st.perm, st.invert)
  {
    hide Applied, TypeValues;
    assert forall v :: v in ClassValues(classes[..i + 1], None) <==>
           v in ClassValues(classes[..i], None) || v == classes[i] by {
      ClassValuesNext(classes, i);
    }
    AppliedThen(a, b, c, hash, StatementScope(types, classes[..i], st),
                StatementScope(types, classes, st.(cls := Some(classes[i]))),
                StatementScope(types, classes[..i + 1], st), st.perm, st.invert);
  }

  lemma ClassValuesNext(classes: seq<nat>, i: nat)
    requires i < |classes|
    ensures ClassValues(classes[..i + 1], None) == ClassValues(classes[..i], None) + {classes[i]}
  {
    var all, part := classes[..i + 1], classes[..i];
    assert forall j :: 0 <= j < |part| ==> all[j] == part[j];
    assert all[i] == classes[i];
  }

  lemma LiteralScope(types: seq<TypeDatum>, classes: seq<nat>, st: Statement)
    requires st.src.Some? && st.tgt.Some? && st.cls.Some?
    ensures forall k :: InScope(StatementScope(types, classes, st), k) <==>
              k == Key(st.src.value.value, st.tgt.value.value, st.cls.value, st.kind)
  {
  }
}
