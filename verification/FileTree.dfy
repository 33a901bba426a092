/**
  File system trees, addressed by path, with the one update every mount
  operation is made of: replacing what is found at a path.
*/
module FileTree {
  import opened Options

  type Name = string
  type Path = seq<Name>

  datatype Tree =
    | Dir(entries: map<Name, Tree>)
    | File(data: string)
    | Link(target: string)
    | CharDevice(rdev: nat)

  predicate IsDir(t: Option<Tree>) {
    t.Some? && t.value.Dir?
  }

  /** What `opendir` lists: nothing unless the path is a directory. */
  function Children(t: Option<Tree>): map<Name, Tree> {
    if IsDir(t) then t.value.entries else map[]
  }

  function Get(m: map<Name, Tree>, k: Name): Option<Tree> {
    if k in m then Some(m[k]) else None
  }

  /** `m` with `k` bound to `v`, or unbound when `v` is absent. */
  function With(m: map<Name, Tree>, k: Name, v: Option<Tree>): map<Name, Tree> {
    if v.Some? then m[k := v.value] else m - {k}
  }

  /** `lstat`: what is at path `p` below `t`. */
  function At(t: Option<Tree>, p: Path): Option<Tree>
    decreases |p|
  {
    if p == [] then t else At(Get(Children(t), p[0]), p[1..])
  }

  /** `t` with `v` at `p`; missing directories on the way are created. */
  function Put(t: Option<Tree>, p: Path, v: Option<Tree>): Option<Tree>
    decreases |p|
  {
    if p == [] then v
    else Some(Dir(With(Children(t), p[0], Put(Get(Children(t), p[0]), p[1..], v))))
  }

  /** Nothing is at `p`, and everything on the way to it is a directory or missing too. */
  predicate Clear(t: Option<Tree>, p: Path)
    decreases |p|
  {
    t.None? || (t.value.Dir? && p != [] && Clear(Get(Children(t), p[0]), p[1..]))
  }

  lemma {:induction false} AtPut(t: Option<Tree>, p: Path, v: Option<Tree>)
    ensures At(Put(t, p, v), p) == v
    decreases |p|
  {
    if p != [] {
      AtPut(Get(Children(t), p[0]), p[1..], v);
    }
  }

  lemma {:induction false} AtAppend(t: Option<Tree>, p: Path, k: Name)
    ensures At(t, p + [k]) == Get(Children(At(t, p)), k)
    decreases |p|
  {
    if p == [] {
      assert At(t, [k]) == At(Get(Children(t), k), []) by { assert [k][1..] == []; }
      assert p + [k] == [k];
    } else {
      assert (p + [k])[1..] == p[1..] + [k];
      AtAppend(Get(Children(t), p[0]), p[1..], k);
    }
  }

  lemma AtOne(t: Option<Tree>, k: Name, v: Option<Tree>)
    ensures At(t, [k]) == Get(Children(t), k)
    ensures Put(t, [k], v) == Some(Dir(With(Children(t), k, v)))
  {
    assert [k][1..] == [];
  }

  /** An update changes nothing at a path that neither contains nor is contained in it. */
  lemma {:induction false} AtPutElsewhere(t: Option<Tree>, p: Path, v: Option<Tree>, q: Path)
    requires !(p <= q) && !(q <= p)
    ensures At(Put(t, p, v), q) == At(t, q)
    decreases |p|
  {
    if p[0] == q[0] {
      assert p == [p[0]] + p[1..] && q == [q[0]] + q[1..];
      AtPutElsewhere(Get(Children(t), p[0]), p[1..], v, q[1..]);
    }
  }

  lemma {:induction false} PutPut(t: Option<Tree>, p: Path, u: Option<Tree>, v: Option<Tree>)
    ensures Put(Put(t, p, u), p, v) == Put(t, p, v)
    decreases |p|
  {
    if p != [] {
      var c := Get(Children(t), p[0]);
      PutPut(c, p[1..], u, v);
      WithWith(Children(t), p[0], Put(c, p[1..], u), Put(c, p[1..], v));
    }
  }

  lemma WithWith(m: map<Name, Tree>, k: Name, u: Option<Tree>, v: Option<Tree>)
    ensures With(With(m, k, u), k, v) == With(m, k, v)
    ensures Get(With(m, k, u), k) == u
  {
  }

  /** Writing one entry of a directory just written is the same as writing the directory with it. */
  lemma {:induction false} PutEntry(t: Option<Tree>, p: Path, m: map<Name, Tree>, k: Name, v: Option<Tree>)
    ensures Put(Put(t, p, Some(Dir(m))), p + [k], v) == Put(t, p, Some(Dir(With(m, k, v))))
    decreases |p|
  {
    var d := Some(Dir(m));
    if p == [] {
      assert p + [k] == [k] && [k][1..] == [];
    } else {
      assert (p + [k])[1..] == p[1..] + [k];
      var c := Get(Children(t), p[0]);
      PutEntry(c, p[1..], m, k, v);
      WithWith(Children(t), p[0], Put(c, p[1..], d), Put(c, p[1..], Some(Dir(With(m, k, v)))));
    }
  }

  /** Writing back what is there changes nothing. */
  lemma {:induction false} PutSame(t: Option<Tree>, p: Path)
    requires At(t, p).Some?
    ensures Put(t, p, At(t, p)) == t
    decreases |p|
  {
    if p != [] {
      AtNone(p[1..]);
      PutSame(Get(Children(t), p[0]), p[1..]);
      assert With(Children(t), p[0], Get(Children(t), p[0])) == Children(t);
    }
  }

  lemma {:induction false} AtNone(p: Path)
    ensures At(None, p) == None
    decreases |p|
  {
    if p != [] {
      AtNone(p[1..]);
    }
  }

  /** Removing an entry a directory does not have changes nothing. */
  lemma {:induction false} PutNone(t: Option<Tree>, p: Path, k: Name)
    requires IsDir(At(t, p)) && At(t, p + [k]).None?
    ensures Put(t, p + [k], None) == t
  {
    AtAppend(t, p, k);
    var m := Children(At(t, p));
    PutSame(t, p);
    PutEntry(t, p, m, k, None);
    assert With(m, k, None) == m;
  }

  lemma {:induction false} ClearEntry(t: Option<Tree>, p: Path, k: Name)
    requires IsDir(At(t, p)) && k !in Children(At(t, p))
    ensures Clear(t, p + [k])
    decreases |p|
  {
    if p == [] {
      assert p + [k] == [k];
    } else {
      assert (p + [k])[1..] == p[1..] + [k];
      AtNone(p[1..]);
      AtNone(p);
      ClearEntry(Get(Children(t), p[0]), p[1..], k);
    }
  }

  /** On a clear path, every proper prefix is missing or a directory, and the path itself is missing. */
  lemma {:induction false} ClearPrefix(t: Option<Tree>, p: Path, i: nat)
    requires Clear(t, p) && i <= |p|
    ensures i < |p| ==> At(t, p[..i]).None? || IsDir(At(t, p[..i]))
    ensures i == |p| ==> At(t, p[..i]).None?
    decreases |p|
  {
    if t.None? {
      AtNone(p[..i]);
    } else if i > 0 {
      assert p[..i][1..] == p[1..][..i - 1];
      ClearPrefix(Get(Children(t), p[0]), p[1..], i - 1);
    }
  }

  /** Creating a missing directory on the way to `p` keeps `p` clear and later writes at `p` unchanged. */
  lemma {:induction false} CreateOnTheWay(t: Option<Tree>, p: Path, i: nat, v: Option<Tree>)
    requires i <= |p| && At(t, p[..i]).None?
    ensures Put(Put(t, p[..i], Some(Dir(map[]))), p, v) == Put(t, p, v)
    ensures i < |p| && Clear(t, p) ==> Clear(Put(t, p[..i], Some(Dir(map[]))), p)
    decreases |p|
  {
    if i == 0 {
      assert p[..i] == [];
      if p != [] {
        assert Get(map[], p[0]) == None;
      }
    } else {
      var q := p[..i];
      assert q[1..] == p[1..][..i - 1];
      var c := Get(Children(t), p[0]);
      CreateOnTheWay(c, p[1..], i - 1, v);
      WithWith(Children(t), p[0], Put(c, q[1..], Some(Dir(map[]))), Put(c, p[1..], v));
      if Clear(t, p) && t.None? {
        assert c == None && Clear(c, p[1..]);
      }
    }
  }
}
