/** Which text the filter for mount flags removes, said of the text itself. */
module FlagWords {
  import opened Bytes
  import opened Options
  import opened FlagPatch

  ghost predicate Spells(p: Bytes, s: string) { |p| == |s| && forall i :: 0 <= i < |p| ==> p[i] as int == s[i] as int }

  /** A small letter or an underscore. */
  predicate Letter(c: byte) { c == 0x5F || 0x61 <= c <= 0x7A }

  /** A space, a line feed or a zero. */
  predicate Gap(c: byte) { c == 0x20 || c == 0x0A || c == 0 }

  predicate Lettered(p: Bytes) { p != [] && forall i :: 0 <= i < |p| ==> Letter(p[i]) }

  ghost predicate AllLettered(ps: Patterns) { forall p :: p in ps ==> Lettered(p) }

  /** No word of the list begins at a place in `a` when `s` follows it. */
  ghost predicate Quiet(ps: Patterns, a: Bytes, s: Bytes) {
    forall i, p :: 0 <= i < |a| && p in ps ==>
      !(p <= (a + s)[i..]) && (a[i] == 0x2C ==> !(p <= (a + s)[i + 1..]))
  }

  /* ----- the words ----- */

  lemma VerityNames()
    ensures |VERITY| == 6
    ensures Spells(VERITY[0], "verifyatboot") && Spells(VERITY[1], "verify") && Spells(VERITY[2], "avb_keys")
    ensures Spells(VERITY[3], "avb") && Spells(VERITY[4], "support_scfs") && Spells(VERITY[5], "fsverity")
  {
  }

  lemma EncryptionNames()
    ensures |ENCRYPTION| == 3
    ensures Spells(ENCRYPTION[0], "forceencrypt") && Spells(ENCRYPTION[1], "forcefdeorfbe")
    ensures Spells(ENCRYPTION[2], "fileencryption")
  {
  }

  lemma VerityLettered()
    ensures AllLettered(VERITY)
  {
    assert Lettered(VERIFYATBOOT) && Lettered(VERIFY) && Lettered(AVB_KEYS) && Lettered(AVB);
    assert Lettered(SUPPORT_SCFS) && Lettered(FSVERITY);
  }

  lemma EncryptionLettered()
    ensures AllLettered(ENCRYPTION)
  {
    assert Lettered(FORCEENCRYPT) && Lettered(FORCEFDEORFBE) && Lettered(FILEENCRYPTION);
  }

  /* ----- a flag and its value ----- */

  lemma InsideWord(p: Bytes, w: Bytes, t: Bytes)
    requires Lettered(p) && p <= w + t && (t == [] || !Letter(t[0]))
    ensures p <= w
  {
    assert t != [] ==> (w + t)[|w|] == t[0];
    assert |p| <= |w|;
  }

  /** A word of the list followed by anything but a letter is taken as it is. */
  lemma {:induction false} FirstIsWord(ps: Patterns, w: Bytes, t: Bytes)
    requires Usable(ps) && AllLettered(ps) && w in ps && (t == [] || !Letter(t[0]))
    ensures FirstOf(ps, w + t) == Some(w)
    decreases |ps|
  {
    hide Lettered, Letter;
    if ps[0] == w {
      assert w <= w + t;
    } else {
      var j :| 0 < j < |ps| && ps[j] == w;
      assert ps[0] in ps && ps[1..][j - 1] == w;
      if ps[0] <= w + t {
        InsideWord(ps[0], w, t);
        assert false;
      }
      RestUsable(ps);
      FirstIsWord(ps[1..], w, t);
    }
  }

  lemma MatchIs(ps: Patterns, s: Bytes, l: nat, w: Bytes)
    requires l == Lead(s) <= |s| && FirstOf(ps, s[l..]) == Some(w) && w != []
    ensures l + |w| <= |s|
    ensures Match(ps, s) ==
            Some(l + |w| + if s[l + |w|..] != [] && s[l + |w|..][0] == 0x3D then WordLength(s[l + |w|..]) else 0)
  {
    hide FirstOf, WordLength;
  }

  lemma FlagParts(lead: Bytes, w: Bytes, t: Bytes)
    requires w != [] && w[0] != COMMA && (lead == [] || lead == [0x2C])
    ensures var s := lead + w + t;
            Lead(s) == |lead| && s[|lead|..] == w + t && s[|lead| + |w|..] == t
  {
    assert (lead + w + t)[|lead|..] == w + t;
  }

  lemma MatchOfFlag(ps: Patterns, lead: Bytes, w: Bytes, t: Bytes)
    requires Usable(ps) && AllLettered(ps) && w in ps && (t == [] || !Letter(t[0])) && (lead == [] || lead == [0x2C])
    ensures Match(ps, lead + w + t) == Some(|lead| + |w| + if t != [] && t[0] == 0x3D then WordLength(t) else 0)
  {
    hide FirstOf, WordLength, Usable, AllLettered, Match, Lead;
    FirstIsWord(ps, w, t);
    WordStarts(ps, w);
    FlagParts(lead, w, t);
    MatchIs(ps, lead + w + t, |lead|, w);
  }

  lemma WordStarts(ps: Patterns, w: Bytes)
    requires AllLettered(ps) && w in ps
    ensures w != [] && w[0] != COMMA
  {
    assert Lettered(w) && Letter(w[0]);
  }

  lemma {:induction false} ValueLength(x: Bytes, rest: Bytes)
    requires (forall i :: 0 <= i < |x| ==> !Gap(x[i])) && (rest == [] || Gap(rest[0]))
    ensures WordLength(x + rest) == |x|
    decreases |x|
  {
    if x == [] {
      assert x + rest == rest;
    } else {
      assert (x + rest)[1..] == x[1..] + rest;
      ValueLength(x[1..], rest);
    }
  }

  /** A flag with a value goes, with its comma and everything up to the next gap. */
  lemma ValueGoes(ps: Patterns, lead: Bytes, w: Bytes, x: Bytes, rest: Bytes)
    requires Usable(ps) && AllLettered(ps) && w in ps && (lead == [] || lead == [0x2C])
    requires (forall i :: 0 <= i < |x| ==> !Gap(x[i])) && (rest == [] || Gap(rest[0]))
    ensures Filter(ps, lead + w + ([0x3D] + x) + rest) == Filter(ps, rest)
  {
    hide Match, Filter, Usable, AllLettered, WordLength;
    var v := [0x3D] + x;
    var s := lead + w + v + rest;
    assert s == lead + w + (v + rest) && (v + rest)[0] == 0x3D;
    ValueLength(v, rest);
    MatchOfFlag(ps, lead, w, v + rest);
    FilterMatch(ps, s);
    assert s[|lead| + |w| + |v|..] == rest;
  }

  /** A flag without a value goes, with its comma, and what follows stays. */
  lemma FlagGoes(ps: Patterns, lead: Bytes, w: Bytes, rest: Bytes)
    requires Usable(ps) && AllLettered(ps) && w in ps && (lead == [] || lead == [0x2C])
    requires rest == [] || (!Letter(rest[0]) && rest[0] != 0x3D)
    ensures Filter(ps, lead + w + rest) == Filter(ps, rest)
  {
    hide Match, Filter, Usable, AllLettered, WordLength;
    MatchOfFlag(ps, lead, w, rest);
    WordStarts(ps, w);
    FilterMatch(ps, lead + w + rest);
    assert (lead + w + rest)[|lead| + |w|..] == rest;
  }

  /** Text with no flag in it stays. */
  lemma {:induction false} QuietStays(ps: Patterns, a: Bytes, s: Bytes)
    requires Usable(ps) && Quiet(ps, a, s)
    ensures Filter(ps, a + s) == a + Filter(ps, s)
    decreases |a|
  {
    hide Filter, Usable;
    if a == [] {
      assert a + s == s && a + Filter(ps, s) == Filter(ps, s);
    } else {
      var t := a + s;
      assert t[0..] == t && t[1..] == a[1..] + s;
      forall p | p in ps ensures !(p <= t[Lead(t)..]) {
        assert !(p <= t[0..]) && (a[0] == 0x2C ==> !(p <= t[1..]));
      }
      assert Match(ps, t).None?;
      forall i, p | 0 <= i < |a[1..]| && p in ps
        ensures !(p <= t[1..][i..]) && (a[1..][i] == 0x2C ==> !(p <= t[1..][i + 1..]))
      {
        assert t[1..][i..] == t[i + 1..] && t[1..][i + 1..] == t[i + 2..] && a[1..][i] == a[i + 1];
      }
      FilterMatch(ps, t);
      QuietStays(ps, a[1..], s);
      assert [a[0]] + (a[1..] + Filter(ps, s)) == a + Filter(ps, s);
    }
  }

  /** Of `a,word=x,b` before a gap only `a` is left. */
  lemma ValueInList(ps: Patterns, a: Bytes, w: Bytes, x: Bytes, b: Bytes, rest: Bytes)
    requires Usable(ps) && AllLettered(ps) && w in ps
    requires (forall i :: 0 <= i < |x| ==> !Gap(x[i])) && (forall i :: 0 <= i < |b| ==> !Gap(b[i]))
    requires (rest == [] || Gap(rest[0])) && Quiet(ps, a, [0x2C] + w + ([0x3D] + (x + [0x2C] + b)) + rest)
    ensures Filter(ps, a + ([0x2C] + w + ([0x3D] + (x + [0x2C] + b)) + rest)) == a + Filter(ps, rest)
  {
    hide Usable, AllLettered, Quiet, Filter;
    ValueGoes(ps, [0x2C], w, x + [0x2C] + b, rest);
    QuietStays(ps, a, [0x2C] + w + ([0x3D] + (x + [0x2C] + b)) + rest);
  }

  /** Of `a,word,b` the word goes and `a,b` is left, if there is no flag in `b`. */
  lemma FlagInList(ps: Patterns, a: Bytes, w: Bytes, b: Bytes)
    requires Usable(ps) && AllLettered(ps) && w in ps
    requires Quiet(ps, a, [0x2C] + w + ([0x2C] + b)) && Quiet(ps, [0x2C] + b, [])
    ensures Filter(ps, a + ([0x2C] + w + ([0x2C] + b))) == a + [0x2C] + b
  {
    hide Usable, AllLettered, Quiet, Filter;
    FlagGoes(ps, [0x2C], w, [0x2C] + b);
    QuietStays(ps, a, [0x2C] + w + ([0x2C] + b));
    QuietStays(ps, [0x2C] + b, []);
    FilterNothing(ps);
    assert [0x2C] + b + [] == [0x2C] + b;
    assert a + ([0x2C] + b) == a + [0x2C] + b;
  }

  /** The same for `verify`, with every byte named. */
  lemma VerifyGoes(a: Bytes, x: Bytes, b: Bytes, rest: Bytes)
    requires (forall i :: 0 <= i < |x| ==> !Gap(x[i])) && (forall i :: 0 <= i < |b| ==> !Gap(b[i]))
    requires rest == [] || Gap(rest[0])
    requires Quiet(VERITY, a, [0x2C] + [0x76, 0x65, 0x72, 0x69, 0x66, 0x79] + ([0x3D] + (x + [0x2C] + b)) + rest)
    ensures Usable(VERITY)
    ensures Filter(VERITY, a + ([0x2C] + [0x76, 0x65, 0x72, 0x69, 0x66, 0x79] + ([0x3D] + (x + [0x2C] + b)) + rest)) ==
            a + Filter(VERITY, rest)
  {
    hide Usable, AllLettered, Quiet, Filter;
    VerityUsable();
    VerityLettered();
    assert VERITY[1] == [0x76, 0x65, 0x72, 0x69, 0x66, 0x79];
    ValueInList(VERITY, a, VERITY[1], x, b, rest);
  }

  /** And for `fileencryption`. */
  lemma FileEncryptionGoes(a: Bytes, x: Bytes, b: Bytes, rest: Bytes, w: Bytes)
    requires w == [0x66, 0x69, 0x6C, 0x65, 0x65, 0x6E, 0x63, 0x72, 0x79, 0x70, 0x74, 0x69, 0x6F, 0x6E]
    requires (forall i :: 0 <= i < |x| ==> !Gap(x[i])) && (forall i :: 0 <= i < |b| ==> !Gap(b[i]))
    requires rest == [] || Gap(rest[0])
    requires Quiet(ENCRYPTION, a, [0x2C] + w + ([0x3D] + (x + [0x2C] + b)) + rest)
    ensures Usable(ENCRYPTION)
    ensures Filter(ENCRYPTION, a + ([0x2C] + w + ([0x3D] + (x + [0x2C] + b)) + rest)) == a + Filter(ENCRYPTION, rest)
  {
    hide Usable, AllLettered, Quiet, Filter;
    EncryptionUsable();
    EncryptionLettered();
    assert ENCRYPTION[2] == w;
    ValueInList(ENCRYPTION, a, w, x, b, rest);
  }
}
