/** Page-aligned sections, one after the other, and the walk over them. */
module BootLayout {
  import opened Bytes
  import opened Slices

  function AlignTo(v: nat, page: nat): nat
    requires page > 0
  {
    (v + page - 1) / page * page
  }

  function AlignPadding(v: nat, page: nat): nat
    requires page > 0
    ensures AlignTo(v, page) >= v
  {
    AlignAbove(v, page);
    AlignTo(v, page) - v
  }

  lemma DivMod(v: nat, page: nat)
    requires page > 0
    ensures v == page * (v / page) + v % page
  {
  }

  lemma AlignAbove(v: nat, page: nat)
    requires page > 0
    ensures v <= AlignTo(v, page) < v + page
  {
    DivMod(v + page - 1, page);
    assert AlignTo(v, page) == page * ((v + page - 1) / page);
  }

  lemma {:induction false} DivShift(n: nat, v: nat, page: nat)
    requires page > 0
    ensures (page * n + v) / page == n + v / page
    decreases n
  {
    if n > 0 {
      DivShift(n - 1, v, page);
      assert page * n + v == (page * (n - 1) + v) + page;
      DivStep(page * (n - 1) + v, page);
    }
  }

  lemma MulSmall(page: nat, k: int)
    requires 0 - page < page * k < page
    ensures k == 0
  {
    if k >= 1 {
      MulMonotone(page, 1, k);
    } else if k <= -1 {
      MulMonotone(page, k, -1);
    }
  }

  lemma MulMonotone(page: nat, a: int, b: int)
    requires a <= b
    ensures page * a <= page * b
  {
  }

  lemma DivUnique(v: nat, page: nat, q: int, r: nat)
    requires page > 0 && r < page && v == page * q + r
    ensures v / page == q
  {
    DivMod(v, page);
    var p, s := v / page, v % page;
    assert page * (q - p) == page * q - page * p == s - r;
    MulSmall(page, q - p);
  }

  lemma DivStep(v: nat, page: nat)
    requires page > 0
    ensures (v + page) / page == v / page + 1
  {
    DivMod(v, page);
    assert page * (v / page + 1) == page * (v / page) + page;
    DivUnique(v + page, page, v / page + 1, v % page);
  }

  /** From a page boundary, alignment only depends on the length. */
  lemma AlignFromPage(n: nat, v: nat, page: nat)
    requires page > 0
    ensures AlignTo(page * n + v, page) == page * n + AlignTo(v, page)
    ensures AlignTo(v, page) == page * ((v + page - 1) / page)
  {
    DivShift(n, v + page - 1, page);
    var q := (v + page - 1) / page;
    assert page * n + v + page - 1 == page * n + (v + page - 1);
    assert (n + q) * page == page * n + q * page;
  }

  /** A section with its padding. */
  function Padded(b: Bytes, page: nat): (r: Bytes)
    requires page > 0
    ensures |r| == AlignTo(|b|, page)
  {
    b + Zeros(AlignPadding(|b|, page))
  }

  function PaddedAll(contents: seq<Bytes>, page: nat): (r: seq<Bytes>)
    requires page > 0
    ensures |r| == |contents| && forall i :: 0 <= i < |r| ==> r[i] == Padded(contents[i], page)
  {
    seq(|contents|, i requires 0 <= i < |contents| => Padded(contents[i], page))
  }

  lemma AddPages(m: nat, q: nat, page: nat) returns (n: nat)
    ensures n == m + q && page * n == page * m + page * q
  {
    n := m + q;
  }

  /** Whole pages make whole pages. */
  lemma {:induction false} PagesOf(contents: seq<Bytes>, page: nat) returns (n: nat)
    requires page > 0
    ensures |Concat(PaddedAll(contents, page))| == page * n
    decreases |contents|
  {
    hide AlignTo, Padded;
    if contents == [] {
      n := 0;
    } else {
      var l := |contents| - 1;
      var m := PagesOf(contents[..l], page);
      var all := PaddedAll(contents, page);
      assert all[..l] == PaddedAll(contents[..l], page);
      AlignFromPage(0, |contents[l]|, page);
      n := AddPages(m, (|contents[l]| + page - 1) / page, page);
    }
  }

  /** Where section `i` starts when the sections begin at `base`. */
  ghost function Start(base: nat, contents: seq<Bytes>, page: nat, i: nat): nat
    requires page > 0 && i <= |contents|
  {
    base + |Concat(PaddedAll(contents, page)[..i])|
  }

  /** Sections start on page boundaries. */
  lemma StartPages(pages: nat, contents: seq<Bytes>, page: nat, i: nat) returns (n: nat)
    requires page > 0 && i <= |contents|
    ensures Start(page * pages, contents, page, i) == page * n
  {
    hide Padded, Concat;
    assert PaddedAll(contents, page)[..i] == PaddedAll(contents[..i], page);
    var m := PagesOf(contents[..i], page);
    n := AddPages(pages, m, page);
  }

  lemma StartNext(pages: nat, contents: seq<Bytes>, page: nat, i: nat)
    requires page > 0 && i < |contents|
    ensures Start(page * pages, contents, page, 0) == page * pages
    ensures Start(page * pages, contents, page, i + 1) ==
            AlignTo(Start(page * pages, contents, page, i) + |contents[i]|, page)
  {
    hide AlignTo, Padded, Concat;
    var all := PaddedAll(contents, page);
    ConcatSnoc(all, i);
    ConcatEnds(all);
    assert all[..i] == PaddedAll(contents[..i], page);
    var n := PagesOf(contents[..i], page);
    assert page * pages + page * n == page * (pages + n);
    AlignFromPage(pages + n, |contents[i]|, page);
  }

  /** Section `i` is found at its start, on a page boundary. */
  lemma SectionAt(head: Bytes, contents: seq<Bytes>, tail: Bytes, pages: nat, page: nat, i: nat)
    requires page > 0 && |head| == page * pages && i < |contents|
    ensures var file := head + Concat(PaddedAll(contents, page)) + tail;
            var s := Start(|head|, contents, page, i);
            s + |contents[i]| <= Start(|head|, contents, page, i + 1) <= |file| &&
            file[s..s + |contents[i]|] == contents[i]
    ensures exists n :: Start(|head|, contents, page, i) == page * n
  {
    hide AlignTo, Concat;
    var all := PaddedAll(contents, page);
    var file := head + Concat(all) + tail;
    var s := Start(|head|, contents, page, i);
    ConcatSlice(all, i);
    AlignAbove(|contents[i]|, page);
    var body := Concat(all);
    assert file[|head|..|head| + |body|] == body;
    SubSlice(file, |head|, |head| + |body|, s - |head|, s - |head| + |contents[i]|);
    SubSlice(body, s - |head|, s - |head| + |all[i]|, 0, |contents[i]|);
    assert all[i][..|contents[i]|] == contents[i];
    assert all[..i] == PaddedAll(contents[..i], page);
    var n := PagesOf(contents[..i], page);
    assert s == page * (pages + n);
  }
}
