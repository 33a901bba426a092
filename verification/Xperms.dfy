/**
  Extended permission rules: for one key, a driver node allowing whole ioctl
  drivers and function nodes allowing single commands of one driver. A 256-bit
  permission array is the set of the positions of its bits.
*/
module Xperms {
  import opened Options

  type u8 = x: int | 0 <= x < 256
  type u16 = x: int | 0 <= x < 0x1_0000
  type Id = nat                      // the identity of an allocated node

  const FULL: set<u8> := set i: u8 | 0 <= i < 256

  datatype XKind = XAllowed | XAuditAllow | XDontAudit
  datatype XKey = XKey(source: nat, target: nat, cls: nat, kind: XKind)
  datatype Specified = IoctlDriver | IoctlFunction | OtherSpecified
  datatype XNode = XNode(key: XKey, specified: Specified, driver: u8, perms: set<u8>)

  /** A range of ioctl commands, or with `reset` everything but that range. */
  datatype Xperm = Xperm(low: u16, high: u16, reset: bool)

  function Driver(x: u16): u8 { x / 256 }
  function Func(x: u16): u8 { x % 256 }

  /** The commands a range stands for: whole drivers when its ends differ in driver. */
  predicate InRange(p: Xperm, d: u8, f: u8) {
    if Driver(p.low) != Driver(p.high) then Driver(p.low) <= d <= Driver(p.high)
    else d == Driver(p.low) && Func(p.low) <= f <= Func(p.high)
  }

  /** A range of one driver stands for exactly its numbers; a wider one for at least them. */
  lemma RangeOfNumbers(p: Xperm, x: u16)
    requires p.low <= p.high
    ensures p.low <= x <= p.high ==> InRange(p, Driver(x), Func(x))
    ensures Driver(p.low) == Driver(p.high) && InRange(p, Driver(x), Func(x)) ==> p.low <= x <= p.high
  {
    assert x == 256 * Driver(x) + Func(x);
    assert p.low == 256 * Driver(p.low) + Func(p.low) && p.high == 256 * Driver(p.high) + Func(p.high);
  }

  type Nodes = map<Id, XNode>
  type NodeList = l: seq<Option<Id>> | |l| == 257 witness seq(257, _ => None)

  predicate NodeAllows(n: XNode, k: XKey, d: u8, f: u8) {
    n.key == k && ((n.specified.IoctlDriver? && d in n.perms) ||
                   (n.specified.IoctlFunction? && n.driver == d && f in n.perms))
  }

  ghost predicate Allowed(ns: Nodes, k: XKey, d: u8, f: u8) {
    exists i :: i in ns && NodeAllows(ns[i], k, d, f)
  }

  /** The same role: the driver node of a key, or its function node of a driver. */
  predicate SameRole(a: XNode, b: XNode) {
    a.key == b.key && ((a.specified.IoctlDriver? && b.specified.IoctlDriver?) ||
                       (a.specified.IoctlFunction? && b.specified.IoctlFunction? && a.driver == b.driver))
  }

  ghost predicate Unique(ns: Nodes) {
    forall i, j :: i in ns && j in ns && i != j ==> !SameRole(ns[i], ns[j])
  }

  /** Nodes of other keys, and nodes that are not about ioctls. */
  ghost predicate OthersKept(before: Nodes, after: Nodes, k: XKey) {
    (forall i :: i in before && (before[i].key != k || before[i].specified.OtherSpecified?) ==>
       i in after && after[i] == before[i]) &&
    (forall i :: i in after && (after[i].key != k || after[i].specified.OtherSpecified?) ==>
       i in before && after[i] == before[i])
  }

  /** The nodes of one key, found by role: function nodes by driver, the driver node last. */
  ghost predicate Listed(ns: Nodes, k: XKey, list: NodeList) {
    (forall d: u8 :: list[d].Some? ==> list[d].value in ns && IsFunc(ns[list[d].value], k, d)) &&
    (list[256].Some? ==> list[256].value in ns && IsDriver(ns[list[256].value], k)) &&
    (forall i :: i in ns && ns[i].key == k && ns[i].specified.IoctlFunction? ==> list[ns[i].driver] == Some(i)) &&
    (forall i :: i in ns && IsDriver(ns[i], k) ==> list[256] == Some(i))
  }

  predicate IsFunc(n: XNode, k: XKey, d: u8) { n.key == k && n.specified.IoctlFunction? && n.driver == d }
  predicate IsDriver(n: XNode, k: XKey) { n.key == k && n.specified.IoctlDriver? }

  ghost function DriverBits(ns: Nodes, k: XKey, list: NodeList): set<u8>
    requires Listed(ns, k, list)
  {
    if list[256].Some? then ns[list[256].value].perms else {}
  }

  ghost function FuncBits(ns: Nodes, k: XKey, list: NodeList, d: u8): set<u8>
    requires Listed(ns, k, list)
  {
    if list[d].Some? then ns[list[d].value].perms else {}
  }

  lemma ListedAllowed(ns: Nodes, k: XKey, list: NodeList, d: u8, f: u8)
    requires Listed(ns, k, list)
    ensures Allowed(ns, k, d, f) <==> d in DriverBits(ns, k, list) || f in FuncBits(ns, k, list, d)
  {
    if Allowed(ns, k, d, f) {
      var i :| i in ns && NodeAllows(ns[i], k, d, f);
    }
    if d in DriverBits(ns, k, list) {
      assert NodeAllows(ns[list[256].value], k, d, f);
    }
    if f in FuncBits(ns, k, list, d) {
      assert NodeAllows(ns[list[d].value], k, d, f);
    }
  }

  /** The bits from `lo` up to, but not including, `end`. */
  function BitsBelow(lo: u8, end: nat): (b: set<u8>)
    requires end <= 256
    ensures forall x: u8 :: x in b <==> lo <= x < end
    decreases end
  {
    if end <= lo then {} else BitsBelow(lo, end - 1) + {end - 1}
  }

  function Bits(lo: u8, hi: u8): set<u8> { BitsBelow(lo, hi + 1) }

  /** What changes of the listed nodes of one key keep. */
  ghost predicate Kept(before: Nodes, after: Nodes, k: XKey, list: NodeList) {
    Unique(after) && OthersKept(before, after, k) && Listed(after, k, list)
  }

  lemma KeptThen(a: Nodes, b: Nodes, c: Nodes, k: XKey, l: NodeList, m: NodeList)
    requires Kept(a, b, k, l) && Kept(b, c, k, m)
    ensures Kept(a, c, k, m)
  {
  }

  lemma SetPerms(ns: Nodes, k: XKey, list: NodeList, i: Id, perms: set<u8>)
    requires Unique(ns) && Listed(ns, k, list) && i in ns && ns[i].key == k && !ns[i].specified.OtherSpecified?
    ensures Kept(ns, ns[i := ns[i].(perms := perms)], k, list)
  {
  }

  lemma SetDriver(ns: Nodes, k: XKey, list: NodeList, i: Id, perms: set<u8>)
    requires Unique(ns) && Listed(ns, k, list) && list[256] == Some(i) && i in ns && IsDriver(ns[i], k)
    ensures var t := ns[i := ns[i].(perms := perms)];
            Kept(ns, t, k, list) && DriverBits(t, k, list) == perms &&
            forall d: u8 :: FuncBits(t, k, list, d) == FuncBits(ns, k, list, d)
  {
    SetPerms(ns, k, list, i, perms);
  }

  lemma SetFunc(ns: Nodes, k: XKey, list: NodeList, d: u8, i: Id, perms: set<u8>)
    requires Unique(ns) && Listed(ns, k, list) && list[d] == Some(i) && i in ns && IsFunc(ns[i], k, d)
    ensures var t := ns[i := ns[i].(perms := perms)];
            Kept(ns, t, k, list) && DriverBits(t, k, list) == DriverBits(ns, k, list) &&
            forall e: u8 :: FuncBits(t, k, list, e) == if e == d then perms else FuncBits(ns, k, list, e)
  {
    SetPerms(ns, k, list, i, perms);
  }

  /** Whether a command is allowed after a range was added, given whether it was before. */
  predicate After(p: Xperm, d: u8, f: u8, before: bool) {
    if p.reset then !InRange(p, d, f) else before || InRange(p, d, f)
  }

  class XpermTable {
    var nodes: Nodes

    constructor (nodes: Nodes)
      requires Unique(nodes)
      ensures this.nodes == nodes
    {
      this.nodes := nodes;
    }

    /** Walks the nodes of a key. */
    method FindAll(k: XKey) returns (list: NodeList)
      requires Unique(nodes)
      ensures Listed(nodes, k, list)
    {
      list := seq(257, _ => None);
      var todo := nodes.Keys;
      while todo != {}
        invariant todo <= nodes.Keys
        invariant forall d: u8 :: list[d].Some? ==> list[d].value in nodes && IsFunc(nodes[list[d].value], k, d)
        invariant list[256].Some? ==> list[256].value in nodes && IsDriver(nodes[list[256].value], k)
        invariant forall i :: i in nodes && i !in todo && nodes[i].key == k && nodes[i].specified.IoctlFunction? ==>
                    list[nodes[i].driver] == Some(i)
        invariant forall i :: i in nodes && i !in todo && IsDriver(nodes[i], k) ==> list[256] == Some(i)
        decreases todo
      {
        var i :| i in todo;
        todo := todo - {i};
        if nodes[i].key == k {
          if nodes[i].specified.IoctlDriver? {
            list := list[256 := Some(i)];
          } else if nodes[i].specified.IoctlFunction? {
            list := list[nodes[i].driver as int := Some(i)];
          }
        }
      }
    }

    /** Adds an empty node in a role that is free. */
    method NewNode(n: XNode) returns (i: Id)
      requires Unique(nodes) && (n.specified.IoctlDriver? || n.specified.IoctlFunction?)
      requires forall j :: j in nodes ==> !SameRole(nodes[j], n)
      modifies this
      ensures i !in old(nodes) && nodes == old(nodes)[i := n] && Unique(nodes)
    {
      i := Fresh(nodes.Keys);
      nodes := nodes[i := n];
    }

    method SetBits(i: Id, lo: u8, hi: u8)
      requires i in nodes
      modifies this
      ensures nodes == old(nodes)[i := old(nodes)[i].(perms := old(nodes)[i].perms + Bits(lo, hi))]
    {
      ghost var was := nodes[i].perms;
      assert was + {} == was && nodes == nodes[i := nodes[i].(perms := was)];
      var x: nat := lo;
      while x <= hi
        invariant lo <= x && (x <= hi + 1 || x == lo)
        invariant i in nodes && nodes == old(nodes)[i := old(nodes)[i].(perms := was + BitsBelow(lo, x))]
      {
        assert was + BitsBelow(lo, x + 1) == (was + BitsBelow(lo, x)) + {x};
        nodes := nodes[i := nodes[i].(perms := nodes[i].perms + {x})];
        x := x + 1;
      }
      assert BitsBelow(lo, x) == Bits(lo, hi);
    }

    method ClearBits(i: Id, lo: u8, hi: u8)
      requires i in nodes
      modifies this
      ensures nodes == old(nodes)[i := old(nodes)[i].(perms := old(nodes)[i].perms - Bits(lo, hi))]
    {
      ghost var was := nodes[i].perms;
      assert was - {} == was && nodes == nodes[i := nodes[i].(perms := was)];
      var x: nat := lo;
      while x <= hi
        invariant lo <= x && (x <= hi + 1 || x == lo)
        invariant i in nodes && nodes == old(nodes)[i := old(nodes)[i].(perms := was - BitsBelow(lo, x))]
      {
        assert was - BitsBelow(lo, x + 1) == (was - BitsBelow(lo, x)) - {x};
        nodes := nodes[i := nodes[i].(perms := nodes[i].perms - {x})];
        x := x + 1;
      }
      assert BitsBelow(lo, x) == Bits(lo, hi);
    }

    /** The driver node of a key, made if it is missing. */
    method DriverNode(k: XKey, list: NodeList) returns (i: Id, list': NodeList)
      requires Unique(nodes) && Listed(nodes, k, list)
      modifies this
      ensures Kept(old(nodes), nodes, k, list') && list' == list[256 := Some(i)]
      ensures i in nodes && IsDriver(nodes[i], k)
      ensures forall j :: j in old(nodes) ==> j in nodes && nodes[j] == old(nodes)[j]
      ensures DriverBits(nodes, k, list') == DriverBits(old(nodes), k, list)
      ensures forall d: u8 :: FuncBits(nodes, k, list', d) == FuncBits(old(nodes), k, list, d)
    {
      if list[256].Some? {
        return list[256].value, list;
      }
      i := NewNode(XNode(k, IoctlDriver, 0, {}));
      list' := list[256 := Some(i)];
    }

    /** The function node of a driver, made with the given bits if it is missing. */
    method FuncNode(k: XKey, list: NodeList, d: u8, initial: set<u8>) returns (i: Id, list': NodeList)
      requires Unique(nodes) && Listed(nodes, k, list)
      modifies this
      ensures Kept(old(nodes), nodes, k, list') && list' == list[d as int := Some(i)]
      ensures i in nodes && IsFunc(nodes[i], k, d)
      ensures forall j :: j in old(nodes) ==> j in nodes && nodes[j] == old(nodes)[j]
      ensures DriverBits(nodes, k, list') == DriverBits(old(nodes), k, list)
      ensures forall e: u8 :: FuncBits(nodes, k, list', e) ==
                if e == d && list[d].None? then initial else FuncBits(old(nodes), k, list, e)
    {
      if list[d].Some? {
        return list[d].value, list;
      }
      i := NewNode(XNode(k, IoctlFunction, d, initial));
      list' := list[d as int := Some(i)];
    }

    /** Drops every function node of a key. */
    method RemoveFuncs(k: XKey, list: NodeList) returns (list': NodeList)
      requires Unique(nodes) && Listed(nodes, k, list)
      modifies this
      ensures Kept(old(nodes), nodes, k, list') && list'[256] == list[256]
      ensures forall d: u8 :: list'[d].None?
    {
      list' := list;
      var x := 0;
      while x < 256
        invariant x <= 256 && Kept(old(nodes), nodes, k, list') && list'[256] == list[256]
        invariant forall d: u8 :: d < x ==> list'[d].None?
      {
        if list'[x].Some? {
          nodes := nodes - {list'[x].value};
          list' := list'[x := None];
        }
        x := x + 1;
      }
    }

    /** One range for one key. */
    method AddRange(k: XKey, p: Xperm)
      requires Unique(nodes)
      modifies this
      ensures Unique(nodes) && OthersKept(old(nodes), nodes, k)
      ensures forall d: u8, f: u8 :: Allowed(nodes, k, d, f) <==> After(p, d, f, Allowed(old(nodes), k, d, f))
    {
      hide Unique, OthersKept, Listed, Allowed, DriverBits, FuncBits;
      var list := FindAll(k);
      forall d: u8, f: u8 { ListedAllowed(nodes, k, list, d, f); }
      if p.reset {
        list := Reset(k, p, list);
      } else {
        list := Extend(k, p, list);
      }
      forall d: u8, f: u8 { ListedAllowed(nodes, k, list, d, f); }
    }

    method Extend(k: XKey, p: Xperm, list: NodeList) returns (list': NodeList)
      requires Unique(nodes) && Listed(nodes, k, list) && !p.reset
      modifies this
      ensures Kept(old(nodes), nodes, k, list')
      ensures forall d: u8, f: u8 :: d in DriverBits(nodes, k, list') || f in FuncBits(nodes, k, list', d) <==>
                d in DriverBits(old(nodes), k, list) || f in FuncBits(old(nodes), k, list, d) || InRange(p, d, f)
    {
      hide Unique, OthersKept, Listed, BitsBelow;
      var i;
      if Driver(p.low) != Driver(p.high) {
        i, list' := DriverNode(k, list);
        ghost var mid := nodes;
        SetDriver(nodes, k, list', i, nodes[i].perms + Bits(Driver(p.low), Driver(p.high)));
        SetBits(i, Driver(p.low), Driver(p.high));
        KeptThen(old(nodes), mid, nodes, k, list', list');
      } else {
        i, list' := FuncNode(k, list, Driver(p.low), {});
        ghost var mid := nodes;
        SetFunc(nodes, k, list', Driver(p.low), i, nodes[i].perms + Bits(Func(p.low), Func(p.high)));
        SetBits(i, Func(p.low), Func(p.high));
        KeptThen(old(nodes), mid, nodes, k, list', list');
      }
    }

    method Reset(k: XKey, p: Xperm, list: NodeList) returns (list': NodeList)
      requires Unique(nodes) && Listed(nodes, k, list) && p.reset
      modifies this
      ensures Kept(old(nodes), nodes, k, list')
      ensures forall d: u8, f: u8 :: d in DriverBits(nodes, k, list') || f in FuncBits(nodes, k, list', d) <==>
              !InRange(p, d, f)
    {
      hide Unique, OthersKept, Listed, BitsBelow;
      list' := Refill(k, list);
      ghost var mid, l := nodes, list';
      var i := list'[256].value;
      if Driver(p.low) != Driver(p.high) {
        SetDriver(nodes, k, list', i, FULL - Bits(Driver(p.low), Driver(p.high)));
        ClearBits(i, Driver(p.low), Driver(p.high));
      } else {
        var d := Driver(p.low);
        var j;
        j, list' := FuncNode(k, list', d, FULL);
        ghost var grown := nodes;
        SetDriver(nodes, k, list', i, FULL - {d});
        nodes := nodes[i := nodes[i].(perms := nodes[i].perms - {d})];
        KeptThen(mid, grown, nodes, k, list', list');
        ghost var cleared := nodes;
        assert FuncBits(cleared, k, list', d) == FULL;
        assert cleared[j].perms == FULL;
        SetFunc(nodes, k, list', d, j, FULL - Bits(Func(p.low), Func(p.high)));
        ClearBits(j, Func(p.low), Func(p.high));
        KeptThen(mid, cleared, nodes, k, list', list');
      }
      KeptThen(old(nodes), mid, nodes, k, l, list');
      assert forall x: u8 :: x in FULL;
    }

    /** Drops the function nodes and allows every driver. */
    method Refill(k: XKey, list: NodeList) returns (list': NodeList)
      requires Unique(nodes) && Listed(nodes, k, list)
      modifies this
      ensures Kept(old(nodes), nodes, k, list') && list'[256].Some?
      ensures list'[256].value in nodes && IsDriver(nodes[list'[256].value], k) && DriverBits(nodes, k, list') == FULL
      ensures forall d: u8 :: list'[d].None? && FuncBits(nodes, k, list', d) == {}
    {
      hide Unique, OthersKept, Listed;
      list' := RemoveFuncs(k, list);
      ghost var cleared, l := nodes, list';
      var i;
      i, list' := DriverNode(k, list');
      ghost var grown := nodes;
      KeptThen(old(nodes), cleared, nodes, k, l, list');
      SetDriver(nodes, k, list', i, FULL);
      nodes := nodes[i := nodes[i].(perms := FULL)];
      KeptThen(old(nodes), grown, nodes, k, list', list');
    }

    static method Fresh(ids: set<Id>) returns (i: Id)
      ensures i !in ids
    {
      i := 0;
      var rest := ids;
      while i in ids
        invariant rest == set x | x in ids && x >= i
        decreases |rest|
      {
        rest := rest - {i};
        i := i + 1;
      }
    }
  }
}
