/** Entry names: normalising them, and removing entries by name. */
module CpioPaths {
  import opened Bytes
  import opened CpioFormat

  const SLASH: byte := 0x2F

  /** The text up to the first slash, and what follows it. */
  function UpTo(p: Bytes, sep: byte): (n: nat)
    ensures n <= |p| && sep !in p[..n] && (n < |p| ==> p[n] == sep)
  {
    if p == [] || p[0] == sep then 0
    else
      var n := 1 + UpTo(p[1..], sep);
      assert p[..n] == [p[0]] + p[1..][..n - 1];
      n
  }

  /** All pieces between separators, empty ones included. */
  function Split(p: Bytes, sep: byte): seq<Bytes>
    decreases |p|
  {
    var n := UpTo(p, sep);
    if n == |p| then [p] else [p[..n]] + Split(p[n + 1..], sep)
  }

  function NonEmpty(parts: seq<Bytes>): seq<Bytes> {
    if parts == [] then []
    else if parts[0] == [] then NonEmpty(parts[1..])
    else [parts[0]] + NonEmpty(parts[1..])
  }

  function Join(parts: seq<Bytes>): Bytes {
    if parts == [] then []
    else if |parts| == 1 then parts[0]
    else parts[0] + [SLASH] + Join(parts[1..])
  }

  function NormPath(p: Bytes): Bytes { Join(NonEmpty(Split(p, SLASH))) }

  predicate Normal(p: Bytes) { NormPath(p) == p }

  /** Non-empty pieces without a separator. */
  ghost predicate Components(parts: seq<Bytes>, sep: byte) {
    forall i :: 0 <= i < |parts| ==> parts[i] != [] && sep !in parts[i]
  }

  lemma {:induction false} UpToFound(a: Bytes, sep: byte, rest: Bytes)
    requires sep !in a
    ensures UpTo(a + [sep] + rest, sep) == |a| && UpTo(a, sep) == |a|
    decreases |a|
  {
    if a != [] {
      assert (a + [sep] + rest)[1..] == a[1..] + [sep] + rest;
      UpToFound(a[1..], sep, rest);
    }
  }

  lemma SplitAtSeparator(a: Bytes, sep: byte, rest: Bytes)
    requires sep !in a
    ensures Split(a + [sep] + rest, sep) == [a] + Split(rest, sep)
    ensures Split(a, sep) == [a]
  {
    UpToFound(a, sep, rest);
    var p := a + [sep] + rest;
    assert p[..|a|] == a && p[|a| + 1..] == rest;
  }

  lemma {:induction false} SplitJoin(parts: seq<Bytes>)
    requires Components(parts, SLASH)
    ensures NonEmpty(Split(Join(parts), SLASH)) == parts
    decreases |parts|
  {
    if parts == [] {
      assert Split([], SLASH) == [[]];
      assert NonEmpty([[]]) == NonEmpty([[]][1..]);
    } else {
      if |parts| == 1 {
        SplitAtSeparator(parts[0], SLASH, []);
        assert NonEmpty([parts[0]]) == [parts[0]] + NonEmpty([parts[0]][1..]);
      } else {
        SplitAtSeparator(parts[0], SLASH, Join(parts[1..]));
        SplitJoin(parts[1..]);
        var tail := Split(Join(parts[1..]), SLASH);
        assert ([parts[0]] + tail)[1..] == tail;
      }
    }
  }

  lemma {:induction false} SplitComponents(p: Bytes, sep: byte)
    ensures Components(NonEmpty(Split(p, sep)), sep)
    decreases |p|
  {
    var n := UpTo(p, sep);
    if n == |p| {
      assert p[..n] == p;
      assert NonEmpty([p]) == if p == [] then NonEmpty([p][1..]) else [p] + NonEmpty([p][1..]);
    } else {
      SplitComponents(p[n + 1..], sep);
      var tail := Split(p[n + 1..], sep);
      assert ([p[..n]] + tail)[1..] == tail;
    }
  }

  /** Normalising twice is normalising once, so every name the commands store is normal. */
  lemma NormPathIdempotent(p: Bytes)
    ensures Normal(NormPath(p))
  {
    SplitComponents(p, SLASH);
    SplitJoin(NonEmpty(Split(p, SLASH)));
  }

  lemma PlainIsNormal(p: Bytes)
    requires p != [] && SLASH !in p
    ensures Normal(p)
  {
    SplitAtSeparator(p, SLASH, []);
    assert NonEmpty([p]) == [p] + NonEmpty([p][1..]);
  }

  /** `rm`: removes the entry and, recursively, everything below it. */
  function Rm(a: Entries, path: Bytes, recursive: bool): Entries {
    var name := NormPath(path);
    if recursive then map n | n in a && n != name && !(name + [SLASH] <= n) :: a[n]
    else a - {name}
  }
}
