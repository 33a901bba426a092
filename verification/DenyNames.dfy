/** Which names the deny list takes and which processes it catches, said of the characters and the numbers. */
module DenyNames {
  import opened DenyList

  /** A letter, a digit, an underscore or a dot. */
  predicate NameChar(c: char) {
    var n := c as int;
    97 <= n <= 122 || 65 <= n <= 90 || 48 <= n <= 57 || n == 95 || n == 46
  }

  ghost predicate ColonBy(s: string, i: int) { exists j :: 0 <= j <= i && j < |s| && s[j] == ':' }

  /** Every character that is none of a name stands at a colon or behind one. */
  ghost predicate NameBeforeColon(s: string) { forall i :: 0 <= i < |s| ==> NameChar(s[i]) || ColonBy(s, i) }

  /** A package has a dot and is a name; a process may also have colons; an isolated one is looked at up to a colon. */
  lemma AcceptedNames(pkg: string, proc: string)
    ensures pkg != "isolated" ==>
              (ValidNames(pkg, proc) <==>
               '.' in pkg && (forall i :: 0 <= i < |pkg| ==> NameChar(pkg[i])) &&
               forall i :: 0 <= i < |proc| ==> NameChar(proc[i]) || proc[i] == ':')
    ensures pkg == "isolated" ==> (ValidNames(pkg, proc) <==> NameBeforeColon(proc))
  {
    StemNames(proc);
  }

  lemma {:induction false} StemNames(s: string)
    ensures Legal(Stem(s), {'_', '.'}) <==> NameBeforeColon(s)
    decreases |s|
  {
    if s != [] && s[0] != ':' {
      StemNames(s[1..]);
      LegalNext(s[0], Stem(s[1..]));
      ColonNext(s);
    }
  }

  lemma LegalNext(c: char, s: string)
    ensures Legal([c] + s, {'_', '.'}) <==> NameChar(c) && Legal(s, {'_', '.'})
  {
    var t := [c] + s;
    assert t[0] == c && t[1..] == s;
    assert forall i :: 0 <= i < |s| ==> s[i] == t[i + 1];
  }

  lemma ColonNext(s: string)
    requires s != [] && s[0] != ':'
    ensures NameBeforeColon(s) <==> NameChar(s[0]) && NameBeforeColon(s[1..])
  {
    forall i | 0 <= i < |s| ensures ColonBy(s, i) <==> i > 0 && ColonBy(s[1..], i - 1) {
      if j :| 0 <= j <= i && s[j] == ':' {
        assert s[1..][j - 1] == ':';
      }
      if j :| 0 <= j <= i - 1 && s[1..][j] == ':' {
        assert s[j + 1] == ':';
      }
    }
    assert forall i :: 0 <= i < |s| - 1 ==> s[1..][i] == s[i + 1] && (ColonBy(s[1..], i) <==> ColonBy(s, i + 1));
  }

  /** A package's own process may have a suffix behind a colon, and a package may not. */
  lemma ColonProcess(pkg: string, t: string, proc: string)
    requires pkg != "isolated" && ValidNames(pkg, pkg) && forall i :: 0 <= i < |t| ==> NameChar(t[i])
    ensures ValidNames(pkg, pkg + ":" + t) && !ValidNames(pkg + ":" + t, proc)
  {
    hide ValidNames, NameChar;
    var name := pkg + ":" + t;
    AcceptedNames(pkg, pkg);
    AcceptedNames(pkg, name);
    AcceptedNames(name, proc);
    assert name[|pkg|] == ':' && !NameChar(':') by { NoNameChar(); }
    assert ':' !in "isolated";
    assert name != "isolated" by { assert ':' in name; }
  }

  lemma NoNameChar()
    ensures !NameChar(':')
  {
  }

  /** The last five digits of a uid name the app, and from 90000 on an isolated process. */
  lemma TargetMeans(rows: set<Row>, ids: AppIds, uid: nat, process: string)
    ensures uid % 100000 >= 90000 ==>
              (IsTarget(rows, ids, uid, process) <==> exists s :: ("isolated", s) in rows && s <= process)
    ensures uid % 100000 < 90000 ==>
              (IsTarget(rows, ids, uid, process) <==>
               exists p :: p != "isolated" && (p, process) in rows && ids(p) == uid % 100000)
  {
    if IsTarget(rows, ids, uid, process) {
      if uid % 100000 >= 90000 {
        var r :| r in rows && r.0 == "isolated" && r.1 <= process;
        assert ("isolated", r.1) in rows;
      } else {
        var r :| r in rows && r.0 != "isolated" && ids(r.0) == uid % 100000 && r.1 == process;
        assert (r.0, process) in rows;
      }
    }
  }

  /** Forgetting packages that are gone changes no answer about an app or an isolated process. */
  lemma ScanKeepsTargets(rows: set<Row>, ids: AppIds, uid: nat, process: string)
    requires uid % 100000 != 0
    ensures IsTarget(Purged(rows, ids), ids, uid, process) <==> IsTarget(rows, ids, uid, process)
  {
    TargetMeans(rows, ids, uid, process);
    TargetMeans(Purged(rows, ids), ids, uid, process);
    if uid % 100000 >= 90000 && IsTarget(rows, ids, uid, process) {
      var s :| ("isolated", s) in rows && s <= process;
      assert ("isolated", s) in Purged(rows, ids);
    } else if IsTarget(rows, ids, uid, process) {
      var p :| p != "isolated" && (p, process) in rows && ids(p) == uid % 100000;
      assert (p, process) in Purged(rows, ids);
    }
  }
}
