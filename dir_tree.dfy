/** The directory tree of the upload area, as the set of absolute directory paths that exist,
    and what `mkdir -p` and `rename` do to it. Paths are compared as strings, without
    normalisation. */
module DirTree {

  /** `a` names a proper ancestor directory of `p`: a non-empty prefix of `p` that
      ends right before a `/`. */
  predicate IsAncestor(a: string, p: string) {
    0 < |a| < |p| && p[..|a|] == a && p[|a|] == '/'
  }

  /** `d` is `root` itself or lies somewhere below it. */
  predicate Under(d: string, root: string) {
    d == root || IsAncestor(root, d)
  }

  /** Every ancestor of an existing directory exists. */
  ghost predicate PrefixClosed(dirs: set<string>) {
    forall d, a {:trigger IsAncestor(a, d), d in dirs} :: d in dirs && IsAncestor(a, d) ==> a in dirs
  }

  /** The ancestors `mkdir -p` creates on the way to `p`. */
  function Ancestors(p: string): (r: set<string>)
    ensures forall a :: a in r <==> IsAncestor(a, p)
  {
    var r := set i | 0 < i < |p| && p[i] == '/' :: p[..i];
    assert forall a :: IsAncestor(a, p) ==> a in r by {
      forall a | IsAncestor(a, p) ensures a in r {
        var i := |a|;
        assert p[..i] == a;
      }
    }
    r
  }

  /** Recursive `mkdirSync`: `p` and all its ancestors exist afterwards. */
  function MkdirP(dirs: set<string>, p: string): set<string> {
    dirs + {p} + Ancestors(p)
  }

  /** `ensureDir` on a non-empty path: recursive creation, only when the path is missing. */
  function EnsureDirState(dirs: set<string>, p: string): set<string> {
    if p in dirs then dirs else MkdirP(dirs, p)
  }

  /** `renameSync(from, to)` on directories: the subtree at `from` now sits at `to`. */
  function Moved(dirs: set<string>, from: string, to: string): set<string> {
    (set d | d in dirs && !Under(d, from)) + (set d | d in dirs && Under(d, from) :: to + d[|from|..])
  }

  /** `path.dirname(p)`: the text before the last `/` (`/` for a top-level entry, `.` for a
      path without `/`). */
  function Dirname(p: string): string {
    var k := LastSlash(p);
    if k > 0 then p[..k] else if k == 0 then "/" else "."
  }

  /** The index of the last `/` of `p`, or -1. */
  function LastSlash(p: string): (k: int)
    ensures -1 <= k < |p|
    ensures k >= 0 ==> p[k] == '/'
    ensures forall i :: k < i < |p| ==> p[i] != '/'
  {
    if p == [] then -1 else if p[|p| - 1] == '/' then |p| - 1 else LastSlash(p[..|p| - 1])
  }

  lemma AncestorTransitive(a: string, b: string, c: string)
    requires IsAncestor(a, b) && IsAncestor(b, c)
    ensures IsAncestor(a, c)
  {
    assert c[..|a|] == c[..|b|][..|a|];
  }

  /** `mkdir -p` keeps every ancestor of an existing directory in existence. */
  lemma MkdirPKeepsClosed(dirs: set<string>, p: string)
    requires PrefixClosed(dirs)
    ensures PrefixClosed(MkdirP(dirs, p))
  {
    var r := MkdirP(dirs, p);
    forall d, a | d in r && IsAncestor(a, d) ensures a in r {
      if d !in dirs && d != p {
        AncestorTransitive(a, d, p);
      }
    }
  }

  /** `mkdir -p` creates `p`, removes nothing and adds nothing outside `p` and its ancestors. */
  lemma MkdirPCreates(dirs: set<string>, p: string)
    ensures p in MkdirP(dirs, p) && dirs <= MkdirP(dirs, p)
    ensures forall d :: d in MkdirP(dirs, p) && d !in dirs ==> d == p || IsAncestor(d, p)
  {
  }

  /** `mkdir -p` on a directory that exists in a closed tree changes nothing. */
  lemma MkdirPExisting(dirs: set<string>, p: string)
    requires PrefixClosed(dirs) && p in dirs
    ensures MkdirP(dirs, p) == dirs
  {
    assert forall a :: a in Ancestors(p) ==> a in dirs;
  }

  /** `ensureDir` needs no existence check in a closed tree: it is `mkdir -p` either way. */
  lemma EnsureDirIsMkdirP(dirs: set<string>, p: string)
    requires PrefixClosed(dirs)
    ensures EnsureDirState(dirs, p) == MkdirP(dirs, p)
  {
    if p in dirs {
      MkdirPExisting(dirs, p);
    }
  }

  /** A second `ensureDir` of the same path changes nothing. */
  lemma EnsureDirIdempotent(dirs: set<string>, p: string)
    requires PrefixClosed(dirs)
    ensures EnsureDirState(EnsureDirState(dirs, p), p) == EnsureDirState(dirs, p)
  {
    MkdirPCreates(dirs, p);
  }

  /** The ancestors of a path are its parent and the parent's ancestors. */
  lemma AncestorsOfParent(p: string, a: string)
    requires LastSlash(p) > 0 && IsAncestor(a, p)
    ensures a == Dirname(p) || IsAncestor(a, Dirname(p))
  {
    var k := LastSlash(p);
    if |a| < k {
      assert Dirname(p)[..|a|] == p[..|a|];
    } else {
      assert |a| == k;
    }
  }

  /** After `ensureDir(dirname(p))` every ancestor of `p` exists. */
  lemma EnsureParentGivesAncestors(dirs: set<string>, p: string)
    requires PrefixClosed(dirs)
    ensures forall a :: IsAncestor(a, p) ==> a in EnsureDirState(dirs, Dirname(p))
  {
    var q := Dirname(p);
    var r := EnsureDirState(dirs, q);
    EnsureDirIsMkdirP(dirs, q);
    forall a | IsAncestor(a, p) ensures a in r {
      var k := LastSlash(p);
      assert p[|a|] == '/';
      AncestorsOfParent(p, a);
    }
  }

  lemma MovedKeepsFixed(dirs: set<string>, from: string, to: string, d: string)
    requires PrefixClosed(dirs)
    requires d in dirs && !Under(d, from)
    ensures forall a :: IsAncestor(a, d) ==> a in Moved(dirs, from, to)
  {
    forall a | IsAncestor(a, d) ensures a in Moved(dirs, from, to) {
      if a == from {
      } else if IsAncestor(from, a) {
        AncestorTransitive(from, a, d);
      }
    }
  }

  lemma MovedKeepsMoved(dirs: set<string>, from: string, to: string, d: string)
    requires PrefixClosed(dirs)
    requires from in dirs && !Under(to, from)
    requires forall a :: IsAncestor(a, to) ==> a in dirs
    requires d in dirs && Under(d, from)
    ensures forall a :: IsAncestor(a, to + d[|from|..]) ==> a in Moved(dirs, from, to)
  {
    var e := to + d[|from|..];
    var r := Moved(dirs, from, to);
    forall a | IsAncestor(a, e) ensures a in r {
      if |a| < |to| {
        assert IsAncestor(a, to) by { assert to[..|a|] == e[..|a|]; }
        if Under(a, from) {
          if a == from { } else { AncestorTransitive(from, a, to); }
        }
      } else if |a| == |to| {
        assert a == to + from[|from|..];
      } else {
        var j := |from| + |a| - |to|;
        var c := d[..j];
        assert d[j] == e[|a|];
        assert IsAncestor(c, d);
        assert IsAncestor(from, c) by {
          assert d != from;
          assert c[..|from|] == d[..|from|];
        }
        assert a == to + c[|from|..];
      }
    }
  }

  /** Moving a subtree to a fresh place whose ancestors exist keeps the tree closed. */
  lemma MovedKeepsClosed(dirs: set<string>, from: string, to: string)
    requires PrefixClosed(dirs)
    requires from in dirs && !Under(to, from)
    requires forall a :: IsAncestor(a, to) ==> a in dirs
    ensures PrefixClosed(Moved(dirs, from, to))
  {
    var r := Moved(dirs, from, to);
    forall e, a | e in r && IsAncestor(a, e) ensures a in r {
      if e in dirs && !Under(e, from) {
        MovedKeepsFixed(dirs, from, to, e);
      } else {
        var d :| d in dirs && Under(d, from) && e == to + d[|from|..];
        MovedKeepsMoved(dirs, from, to, d);
      }
    }
  }

  lemma MovedImageIsNotSource(from: string, to: string, d: string)
    requires Under(d, from) && from != to && to != [] && !IsAncestor(to, from)
    ensures to + d[|from|..] != from
  {
  }

  /** After the move the target exists and the source does not. */
  lemma MovedTargetNotSource(dirs: set<string>, from: string, to: string)
    requires PrefixClosed(dirs)
    requires from in dirs && to !in dirs && to != []
    ensures to in Moved(dirs, from, to)
    ensures from !in Moved(dirs, from, to)
  {
    assert to == to + from[|from|..];
    assert !IsAncestor(to, from);
    forall d | Under(d, from) ensures to + d[|from|..] != from {
      MovedImageIsNotSource(from, to, d);
    }
  }

  lemma MovedSubtreeForward(dirs: set<string>, from: string, to: string, s: string)
    requires from != [] && (s == [] || s[0] == '/')
    requires from + s in dirs
    ensures to + s in Moved(dirs, from, to)
  {
    var d := from + s;
    assert d[..|from|] == from && d[|from|..] == s;
    assert Under(d, from);
  }

  /** Nothing exists below a directory that does not exist. */
  lemma TargetSubtreeAbsent(dirs: set<string>, to: string, s: string)
    requires PrefixClosed(dirs)
    requires to !in dirs && to != []
    requires s == [] || s[0] == '/'
    ensures to + s !in dirs
  {
    if s != [] {
      assert (to + s)[..|to|] == to && (to + s)[|to|] == s[0];
      assert IsAncestor(to, to + s);
    } else {
      assert to + s == to;
    }
  }

  lemma MovedSubtreeBackward(dirs: set<string>, from: string, to: string, s: string)
    requires PrefixClosed(dirs)
    requires to !in dirs && to != []
    requires s == [] || s[0] == '/'
    requires to + s in Moved(dirs, from, to)
    ensures from + s in dirs
  {
    var e := to + s;
    TargetSubtreeAbsent(dirs, to, s);
    var d :| d in dirs && Under(d, from) && e == to + d[|from|..];
    assert e[|to|..] == s && e[|to|..] == d[|from|..];
    assert d[..|from|] == from;
    assert d == d[..|from|] + d[|from|..];
  }

  /** The moved subtree keeps its shape: `from + s` existed exactly when `to + s` exists. */
  lemma MovedSubtree(dirs: set<string>, from: string, to: string, s: string)
    requires PrefixClosed(dirs)
    requires from in dirs && from != [] && to !in dirs && to != []
    requires s == [] || s[0] == '/'
    ensures to + s in Moved(dirs, from, to) <==> from + s in dirs
  {
    if from + s in dirs {
      MovedSubtreeForward(dirs, from, to, s);
    }
    if to + s in Moved(dirs, from, to) {
      MovedSubtreeBackward(dirs, from, to, s);
    }
  }

  /** Directories outside both the source and the target subtree are untouched. */
  lemma MovedElsewhereUnchanged(dirs: set<string>, from: string, to: string, d: string)
    requires to != []
    requires !Under(d, from) && !Under(d, to)
    ensures d in Moved(dirs, from, to) <==> d in dirs
  {
  }
}
