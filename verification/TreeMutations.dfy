/**
 * Moving, trashing and restoring files and directories (src/obsidian_mcp/storage/filesystem.py): the
 * authorization of every path involved before anything changes, and the rename that follows it.
 */
module TreeMutations {
  import opened Revisions
  import opened PathRules

  datatype Node = File(content: Bytes) | Directory

  /** A vault by name, relative to the root, which is implicit. */
  type Tree = map<string, Node>

  /** Whatever has something below it is a directory. */
  ghost predicate WellFormed(fs: Tree) {
    forall p, d :: p in fs && Below(p, d) ==> d in fs && fs[d].Directory?
  }

  predicate Inside(p: string, top: string) {
    p == top || Below(p, top)
  }

  /** `_tree_paths`: the entry and all its descendants. */
  function TreePaths(fs: Tree, top: string): set<string> {
    set p | p in fs && Inside(p, top)
  }

  /** The name a descendant of `src` gets when `src` becomes `dst`. */
  function Mapped(p: string, src: string, dst: string): string
    requires Inside(p, src)
  {
    dst + p[|src|..]
  }

  /** The atomic rename of an entry with everything below it. */
  function Renamed(fs: Tree, src: string, dst: string): Tree {
    map q | q in fs.Keys - TreePaths(fs, src) + (set p | p in TreePaths(fs, src) :: Mapped(p, src, dst)) ::
      if Inside(q, dst) && src + q[|dst|..] in fs then fs[src + q[|dst|..]] else if q in fs then fs[q] else Directory
  }

  /** The destination is free and not inside the source. */
  ghost predicate Free(fs: Tree, src: string, dst: string) {
    src in fs && TreePaths(fs, dst) == {} && !Inside(dst, src)
  }

  lemma MappedBack(p: string, src: string, dst: string)
    requires Inside(p, src)
    ensures Inside(Mapped(p, src, dst), dst) && Mapped(Mapped(p, src, dst), dst, src) == p
  {
    var q := Mapped(p, src, dst);
    assert q[|dst|..] == p[|src|..];
    assert p[..|src|] == src && p == src + p[|src|..];
    if p != src {
      assert p[|src|] == '/';
      assert q[..|dst| + 1] == dst + "/";
    } else {
      assert p[|src|..] == "";
    }
  }

  lemma NothingBelow(fs: Tree, dst: string)
    requires WellFormed(fs) && dst !in fs
    ensures TreePaths(fs, dst) == {}
  {
  }

  /**
   * A rename to a free name conserves everything: the content of each entry of the source is found under
   * its mapped name, no two entries share one, every other entry is untouched, and nothing else exists.
   */
  lemma RenameConserves(fs: Tree, src: string, dst: string)
    requires Free(fs, src, dst)
    ensures forall p :: p in TreePaths(fs, src) ==>
              Mapped(p, src, dst) in Renamed(fs, src, dst) && Renamed(fs, src, dst)[Mapped(p, src, dst)] == fs[p]
    ensures forall p :: p in fs && !Inside(p, src) ==> p in Renamed(fs, src, dst) && Renamed(fs, src, dst)[p] == fs[p]
    ensures forall q :: q in Renamed(fs, src, dst) ==>
              (q in fs && !Inside(q, src)) || exists p :: p in TreePaths(fs, src) && Mapped(p, src, dst) == q
    ensures forall p, r :: p in TreePaths(fs, src) && r in TreePaths(fs, src) && p != r ==>
              Mapped(p, src, dst) != Mapped(r, src, dst)
    ensures TreePaths(Renamed(fs, src, dst), dst) == set p | p in TreePaths(fs, src) :: Mapped(p, src, dst)
    ensures src !in Renamed(fs, src, dst)
  {
    var gs := Renamed(fs, src, dst);
    forall p | Inside(p, src) ensures Inside(Mapped(p, src, dst), dst) && src + Mapped(p, src, dst)[|dst|..] == p {
      MappedBack(p, src, dst);
    }
    forall p | p in TreePaths(fs, src) ensures Mapped(p, src, dst) in gs && gs[Mapped(p, src, dst)] == fs[p] {
    }
    forall p | p in fs && !Inside(p, src) ensures p in gs && gs[p] == fs[p] {
      assert p !in TreePaths(fs, dst);
    }
    forall q | q in TreePaths(gs, dst) ensures exists p :: p in TreePaths(fs, src) && Mapped(p, src, dst) == q {
      assert q !in TreePaths(fs, dst);
    }
    SourceIsGone(fs, src, dst);
  }

  lemma SourceIsGone(fs: Tree, src: string, dst: string)
    requires Free(fs, src, dst)
    ensures forall q :: q in Renamed(fs, src, dst) ==> !Inside(q, src)
  {
    forall q | q in Renamed(fs, src, dst) ensures !Inside(q, src) {
      if q !in fs.Keys - TreePaths(fs, src) {
        var p :| p in TreePaths(fs, src) && Mapped(p, src, dst) == q;
        MappedBack(p, src, dst);
        Unrelated(fs, src, dst, q);
      }
    }
  }

  lemma Unrelated(fs: Tree, src: string, dst: string, q: string)
    requires Free(fs, src, dst) && Inside(q, dst)
    ensures !Inside(q, src)
  {
    assert !Inside(src, dst) by {
      assert src !in TreePaths(fs, dst);
    }
    if Inside(q, src) && |src| <= |dst| {
      CommonDescendant(q, src, dst);
    }
    if Inside(q, src) && |dst| <= |src| {
      CommonDescendant(q, dst, src);
    }
  }

  /** Two tops with a common descendant are nested. */
  lemma CommonDescendant(q: string, a: string, b: string)
    requires Inside(q, a) && Inside(q, b) && |a| <= |b|
    ensures Inside(b, a)
  {
    assert b == q[..|b|] && a == q[..|a|];
    if |a| < |b| {
      assert b[..|a| + 1] == q[..|a| + 1] == a + "/";
    }
  }

  /** Renaming back restores the vault exactly. */
  lemma RenameUndoes(fs: Tree, src: string, dst: string)
    requires Free(fs, src, dst)
    ensures Free(Renamed(fs, src, dst), dst, src)
    ensures Renamed(Renamed(fs, src, dst), dst, src) == fs
  {
    var gs := Renamed(fs, src, dst);
    RenameConserves(fs, src, dst);
    SourceIsGone(fs, src, dst);
    MappedBack(src, src, dst);
    assert src in TreePaths(fs, src) && Mapped(src, src, dst) == dst + "" == dst;
    assert !Inside(src, dst) by {
      assert src !in TreePaths(fs, dst);
    }
    assert TreePaths(gs, src) == {};
    RenameConserves(gs, dst, src);
    var hs := Renamed(gs, dst, src);
    forall p | p in fs ensures p in hs && hs[p] == fs[p] {
      if Inside(p, src) {
        MappedBack(p, src, dst);
        assert Mapped(p, src, dst) in TreePaths(gs, dst);
      } else {
        assert p !in TreePaths(fs, dst);
      }
    }
    forall q | q in hs ensures q in fs {
      if !(q in gs && !Inside(q, dst)) {
        var r :| r in TreePaths(gs, dst) && Mapped(r, dst, src) == q;
        var p :| p in TreePaths(fs, src) && Mapped(p, src, dst) == r;
        MappedBack(p, src, dst);
      }
    }
  }

  /** A rename under existing directories leaves a well-formed vault. */
  lemma RenameKeepsWellFormed(fs: Tree, src: string, dst: string)
    requires WellFormed(fs) && Free(fs, src, dst)
    requires forall d :: Below(dst, d) ==> d in fs && fs[d].Directory?
    ensures WellFormed(Renamed(fs, src, dst))
  {
    var gs := Renamed(fs, src, dst);
    RenameConserves(fs, src, dst);
    forall q, d | q in gs && Below(q, d) ensures d in gs && gs[d].Directory? {
      if q in fs && !Inside(q, src) {
        if Inside(d, src) {
          InsideIsTransitive(q, d, src);
        }
      } else {
        var p :| p in TreePaths(fs, src) && Mapped(p, src, dst) == q;
        AncestorOfMapped(fs, src, dst, p, d);
      }
    }
  }

  lemma InsideIsTransitive(q: string, d: string, top: string)
    requires Below(q, d) && Inside(d, top)
    ensures Below(q, top)
  {
    if d != top {
      assert top + "/" == d[..|top| + 1] == q[..|top| + 1];
    }
  }

  lemma AncestorOfMapped(fs: Tree, src: string, dst: string, p: string, d: string)
    requires WellFormed(fs) && Free(fs, src, dst) && p in TreePaths(fs, src) && Below(Mapped(p, src, dst), d)
    requires forall e :: Below(dst, e) ==> e in fs && fs[e].Directory?
    ensures d in Renamed(fs, src, dst) && Renamed(fs, src, dst)[d].Directory?
  {
    var q := Mapped(p, src, dst);
    RenameConserves(fs, src, dst);
    MappedBack(p, src, dst);
    if |d| < |dst| {
      assert d + "/" == q[..|d| + 1] == dst[..|d| + 1];
      if Inside(d, src) {
        InsideIsTransitive(dst, d, src);
      }
    } else {
      AncestorBelowTop(fs, src, dst, p, d);
    }
  }

  /** An ancestor of a mapped name at or below the new top is the mapped name of an ancestor. */
  lemma AncestorBelowTop(fs: Tree, src: string, dst: string, p: string, d: string)
    requires WellFormed(fs) && p in TreePaths(fs, src) && Inside(Mapped(p, src, dst), dst)
    requires Below(Mapped(p, src, dst), d) && |d| >= |dst|
    ensures exists r :: r in TreePaths(fs, src) && fs[r].Directory? && Mapped(r, src, dst) == d
  {
    var q := Mapped(p, src, dst);
    var r := src + d[|dst|..];
    assert d == q[..|d|] && d[..|dst|] == dst && d == dst + d[|dst|..];
    assert p == p[..|src|] + p[|src|..] == src + q[|dst|..];
    assert q[|d|] == '/' && p[|r|] == q[|d|] && r == p[..|r|];
    assert r + "/" == p[..|r| + 1];
    if |r| > |src| {
      assert src + "/" == p[..|src| + 1] == r[..|src| + 1];
    } else {
      assert r == src;
    }
    assert Below(p, r) && Inside(r, src);
    assert r[|src|..] == d[|dst|..] && Mapped(r, src, dst) == d;
  }
}
