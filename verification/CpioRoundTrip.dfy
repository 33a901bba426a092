/** Loading undoes dumping, for one archive and for any number of them in a row. */
module CpioRoundTrip {
  import opened Bytes
  import opened Slices
  import opened CpioFormat
  import opened CpioParser

  /** A loop follows its rounds. */
  lemma {:induction false} FoldRounds(round: (nat, Entries) -> Step, size: nat, at: seq<nat>, accs: seq<Entries>)
    requires Advances(round) && |at| == |accs| > 0
    requires forall i :: 0 <= i < |at| - 1 ==> at[i] < size && round(at[i], accs[i]) == Next(at[i + 1], accs[i + 1])
    ensures Loop(round, size, at[0], accs[0]) == Loop(round, size, at[|at| - 1], accs[|at| - 1])
    decreases |at|
  {
    var n := |at| - 1;
    if n > 0 {
      FoldRounds(round, size, at[..n], accs[..n]);
      assert round(at[n - 1], accs[n - 1]) == Next(at[n], accs[n]);
    }
  }

  ghost function Added(acc: Entries, names: seq<Bytes>, es: seq<Entry>): Entries
    requires |names| == |es|
  {
    if names == [] then acc
    else Added(acc, names[..|names| - 1], es[..|es| - 1])[names[|names| - 1] := es[|es| - 1]]
  }

  lemma ParseAt(s: Bytes, p: nat, q: nat, header: Bytes, name: Bytes, e: Entry, m: Entries)
    requires ValidName(name) && |name| + 1 < U32 && |e.data| < U32 && ReadsAs(header, Announced(name, e))
    requires p % 4 == 0 && q == p + |MemberBytes(header, name, e.data)| <= |s| &&
             s[p..q] == MemberBytes(header, name, e.data)
    ensures ParseOne(s, p, m) == Next(q, m[name := e])
  {
    MemberIsLaidOut(s, p, header, name, e.data);
    ParseMember(s, p, header, name, e, q, m);
  }

  ghost function Printed(names: seq<Bytes>, a: Entries): seq<Bytes>
    requires forall n :: n in names ==> n in a
  {
    Members(EntryHeaders(names, a), names, a)
  }

  lemma HeadersRead(names: seq<Bytes>, a: Entries, i: nat)
    requires (forall n :: n in names ==> n in a) && i < |names| && |names[i]| + 1 < U32 && |a[names[i]].data| < U32
    ensures ReadsAs(EntryHeaders(names, a)[i], Announced(names[i], a[names[i]]))
  {
    hide *;
    HeaderAt(names, a, i);
    EntryHeaderReads(FIRST_INODE + i, names[i], a[names[i]]);
  }

  lemma BlockParses(s: Bytes, base: nat, blocks: seq<Bytes>, i: nat, p: nat, q: nat, header: Bytes, name: Bytes,
                    e: Entry, m: Entries)
    requires i < |blocks| && p == base + |Concat(blocks[..i])| && q == base + |Concat(blocks[..i + 1])|
    requires Placed(s, base, blocks) && forall b :: b in blocks ==> |b| % 4 == 0
    requires ValidName(name) && |name| + 1 < U32 && |e.data| < U32 && ReadsAs(header, Announced(name, e))
    requires blocks[i] == MemberBytes(header, name, e.data)
    ensures p < |s| && ParseOne(s, p, m) == Next(q, m[name := e])
  {
    BlockAt(s, base, blocks, i, p, q);
    ParseAt(s, p, q, header, name, e, m);
  }

  ghost function EntriesOf(names: seq<Bytes>, a: Entries): (es: seq<Entry>)
    requires forall n :: n in names ==> n in a
    ensures |es| == |names| && forall i :: 0 <= i < |es| ==> es[i] == a[names[i]]
  {
    seq(|names|, i requires 0 <= i < |names| => a[names[i]])
  }

  ghost predicate Placed(s: Bytes, base: nat, blocks: seq<Bytes>) {
    base % 4 == 0 && base + |Concat(blocks)| <= |s| && s[base..base + |Concat(blocks)|] == Concat(blocks)
  }

  lemma EntryParses(s: Bytes, base: nat, names: seq<Bytes>, a: Entries, i: nat, p: nat, q: nat, m: Entries)
    requires (forall n :: n in names ==> n in a) && Placed(s, base, Printed(names, a)) && i < |names|
    requires ValidName(names[i]) && |names[i]| + 1 < U32 && |a[names[i]].data| < U32
    requires p == base + |Concat(Printed(names, a)[..i])| && q == base + |Concat(Printed(names, a)[..i + 1])|
    ensures p < |s| && ParseOne(s, p, m) == Next(q, m[names[i] := a[names[i]]])
  {
    HeadersRead(names, a, i);
    BlockParses(s, base, Printed(names, a), i, p, q, EntryHeaders(names, a)[i], names[i], a[names[i]], m);
  }

  ghost function Positions(base: nat, blocks: seq<Bytes>): (at: seq<nat>)
    ensures |at| == |blocks| + 1
    ensures at[0] == base && at[|blocks|] == base + |Concat(blocks)|
    ensures forall i :: 0 <= i < |at| ==> at[i] == base + |Concat(blocks[..i])|
  {
    assert blocks[..0] == [] && blocks[..|blocks|] == blocks;
    seq(|blocks| + 1, i requires 0 <= i <= |blocks| => base + |Concat(blocks[..i])|)
  }

  ghost function Accumulated(acc: Entries, names: seq<Bytes>, es: seq<Entry>): (accs: seq<Entries>)
    requires |names| == |es|
    ensures |accs| == |names| + 1
    ensures accs[0] == acc && accs[|names|] == Added(acc, names, es)
    ensures forall i :: 0 <= i < |names| ==> accs[i + 1] == accs[i][names[i] := es[i]]
  {
    assert names[..|names|] == names && es[..|names|] == es;
    assert forall i :: 0 <= i < |names| ==> names[..i + 1][..i] == names[..i] && es[..i + 1][..i] == es[..i];
    seq(|names| + 1, i requires 0 <= i <= |names| => Added(acc, names[..i], es[..i]))
  }

  /** The rounds lead from each position to the next. */
  ghost predicate Leads(s: Bytes, at: seq<nat>, accs: seq<Entries>, i: nat)
    requires i + 1 < |at| == |accs|
  {
    at[i] < |s| && ParseOne(s, at[i], accs[i]) == Next(at[i + 1], accs[i + 1])
  }

  lemma FoldParses(s: Bytes, at: seq<nat>, accs: seq<Entries>)
    requires |at| == |accs| > 0 && forall i :: 0 <= i < |at| - 1 ==> Leads(s, at, accs, i)
    ensures LoadFrom(s, at[0], accs[0]) == LoadFrom(s, at[|at| - 1], accs[|at| - 1])
  {
    var round := Rounds(s);
    forall i | 0 <= i < |at| - 1 ensures at[i] < |s| && round(at[i], accs[i]) == Next(at[i + 1], accs[i + 1]) {
      assert Leads(s, at, accs, i);
    }
    FoldRounds(round, |s|, at, accs);
  }

  lemma RunLeads(s: Bytes, base: nat, names: seq<Bytes>, a: Entries, at: seq<nat>, accs: seq<Entries>, i: nat)
    requires (forall n :: n in names ==> n in a) && Placed(s, base, Printed(names, a)) && i < |names|
    requires Fits(a) && ValidNames(a)
    requires at == Positions(base, Printed(names, a)) && |accs| == |at| &&
             accs[i + 1] == accs[i][names[i] := a[names[i]]]
    ensures Leads(s, at, accs, i)
  {
    hide Printed, Concat, Placed, Positions, ParseOne, Fits, ValidNames, ValidName;
    PrintedLength(names, a);
    MemberFits(a, names[i]);
    EntryParses(s, base, names, a, i, at[i], at[i + 1], accs[i]);
  }

  /** Reading a run of printed members adds them all. */
  lemma LoadRun(s: Bytes, base: nat, names: seq<Bytes>, a: Entries, acc: Entries)
    requires (forall n :: n in names ==> n in a) && Fits(a) && ValidNames(a) && Placed(s, base, Printed(names, a))
    ensures LoadFrom(s, base, acc) == LoadFrom(s, base + |Concat(Printed(names, a))|,
                                               Added(acc, names, EntriesOf(names, a)))
  {
    hide *;
    PrintedLength(names, a);
    var at := Positions(base, Printed(names, a));
    var accs := Accumulated(acc, names, EntriesOf(names, a));
    forall i | 0 <= i < |names| ensures Leads(s, at, accs, i) {
      RunLeads(s, base, names, a, at, accs, i);
    }
    FoldParses(s, at, accs);
  }

  lemma MemberFits(a: Entries, n: Bytes)
    requires Fits(a) && ValidNames(a) && n in a
    ensures ValidName(n) && |n| + 1 < U32 && |a[n].data| < U32
  {
  }

  lemma PrintedLength(names: seq<Bytes>, a: Entries)
    requires forall n :: n in names ==> n in a
    ensures |Printed(names, a)| == |names|
  {
  }

  /** Adding the entries of all names of a map overrides with the map. */
  lemma {:induction false} AddedIsUnion(acc: Entries, names: seq<Bytes>, es: seq<Entry>, a: Entries)
    requires |names| == |es| && forall i :: 0 <= i < |names| ==> names[i] in a && es[i] == a[names[i]]
    ensures Added(acc, names, es).Keys == acc.Keys + set n | n in names
    ensures forall n :: n in names ==> Added(acc, names, es)[n] == a[n]
    ensures forall n :: n in acc && n !in names ==> Added(acc, names, es)[n] == acc[n]
    decreases |names|
  {
    if names != [] {
      var n := |names| - 1;
      AddedIsUnion(acc, names[..n], es[..n], a);
      assert names == names[..n] + [names[n]];
    }
  }
}
