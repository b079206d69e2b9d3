/** Upload-area bookkeeping: the path constants, `uniqueName`, and the directory operations
    `ensureDir`, `ensureGalleryDir` and `renameGalleryFolder` over the set of existing
    directories. */
module FsServer {
  import opened JsStrings
  import opened DirTree
  import GalleryPaths

  const PublicDir := "/root/projects/blog-uploads"
  const GalleriesDir := PublicDir + "/galleries"

  /** `path.join(dir, seg)`, without normalising `.`, `..` or repeated separators. */
  function Join(dir: string, seg: string): (r: string)
    ensures seg == [] ==> r == dir
    ensures seg != [] ==> |r| == |dir| + 1 + |seg| && r[..|dir|] == dir && r[|dir|] == '/' && r[|dir| + 1..] == seg
  {
    if seg == [] then dir else dir + "/" + seg
  }

  // ----- uniqueName -----

  /** What `/[^a-z0-9\-_.]/gi` leaves alone: without the `u` flag, case-insensitive matching
      relates ASCII letters only to ASCII letters. */
  predicate IsUploadNameChar(c: char) {
    IsAsciiAlnum(c) || c == '-' || c == '_' || c == '.'
  }

  predicate IsUploadName(s: string) {
    forall i :: 0 <= i < |s| ==> IsUploadNameChar(s[i])
  }

  /** No two adjacent dots. */
  predicate NoDotRun(s: string) {
    forall i :: 0 <= i < |s| - 1 ==> !(s[i] == '.' && s[i + 1] == '.')
  }

  /** A character outside the Basic Multilingual Plane is a surrogate pair in UTF-16. */
  predicate IsAstral(c: char) {
    c as int > 0xFFFF
  }

  /** `s.length`: the number of UTF-16 code units of `s`. */
  function Utf16Length(s: string): (n: nat)
    ensures |s| <= n <= 2 * |s|
  {
    if s == [] then 0 else (if IsAstral(s[0]) then 2 else 1) + Utf16Length(s[1..])
  }

  /** Every match of the case-insensitive pattern `[^a-z0-9\-_.]` becomes `_`. Without the
      `u` flag the pattern runs over UTF-16 code units, so an astral character becomes two
      underscores. */
  function ReplaceUnsafe(s: string): (r: string)
    ensures |r| == Utf16Length(s)
    ensures IsUploadName(r)
  {
    if s == [] then []
    else
      var head := if IsUploadNameChar(s[0]) then [s[0]] else if IsAstral(s[0]) then "__" else "_";
      head + ReplaceUnsafe(s[1..])
  }

  /** On text without astral characters every character is kept or replaced by one `_`. */
  lemma {:induction false} ReplaceUnsafeInPlace(s: string)
    requires forall i :: 0 <= i < |s| ==> !IsAstral(s[i])
    ensures |ReplaceUnsafe(s)| == |s|
    ensures forall i :: 0 <= i < |s| ==>
      ReplaceUnsafe(s)[i] == (if IsUploadNameChar(s[i]) then s[i] else '_')
  {
    if s != [] {
      ReplaceUnsafeInPlace(s[1..]);
      assert forall i :: 1 <= i < |s| ==> s[1..][i - 1] == s[i];
    }
  }

  /** One character becomes itself when safe, `__` when astral and `_` otherwise. */
  lemma ReplaceUnsafeChar(c: char)
    ensures ReplaceUnsafe([c]) == if IsUploadNameChar(c) then [c] else if IsAstral(c) then "__" else "_"
  {
    assert [c][1..] == [];
  }

  /** The replacement works character by character: with `ReplaceUnsafeChar` this pins the
      result for every input, astral characters included. */
  lemma {:induction false} ReplaceUnsafeAppend(a: string, b: string)
    ensures ReplaceUnsafe(a + b) == ReplaceUnsafe(a) + ReplaceUnsafe(b)
  {
    if a == [] {
      assert a + b == b;
    } else {
      assert (a + b)[0] == a[0];
      assert (a + b)[1..] == a[1..] + b;
      ReplaceUnsafeAppend(a[1..], b);
    }
  }

  /** Text that is already safe is left as it is. */
  lemma {:induction false} ReplaceUnsafeKeepsSafe(s: string)
    requires IsUploadName(s)
    ensures ReplaceUnsafe(s) == s
  {
    if s != [] {
      ReplaceUnsafeKeepsSafe(s[1..]);
    }
  }

  /** Every run of dots becomes a single dot. */
  function CollapseDots(s: string): (r: string)
    ensures |r| <= |s|
    ensures r == [] <==> s == []
    ensures s != [] ==> r[|r| - 1] == s[|s| - 1]
    ensures NoDotRun(r)
    ensures IsUploadName(s) ==> IsUploadName(r)
  {
    if |s| <= 1 then s
    else
      var init := CollapseDots(s[..|s| - 1]);
      if s[|s| - 1] == '.' && s[|s| - 2] == '.' then init else init + [s[|s| - 1]]
  }

  /** The characters of `s` other than dots, in order. */
  function NonDots(s: string): (r: string)
    ensures |r| <= |s|
    ensures forall i :: 0 <= i < |r| ==> r[i] != '.'
    ensures (forall i :: 0 <= i < |s| ==> s[i] != '.') ==> r == s
    ensures |s| == 1 ==> r == (if s[0] == '.' then [] else s)
  {
    if s == [] then []
    else if s[|s| - 1] == '.' then NonDots(s[..|s| - 1])
    else NonDots(s[..|s| - 1]) + [s[|s| - 1]]
  }

  /** Dropping dots works character by character: with the one-character case of its contract,
      every other character survives, in order. */
  lemma {:induction false} NonDotsAppend(a: string, b: string)
    ensures NonDots(a + b) == NonDots(a) + NonDots(b)
  {
    if b == [] {
      assert a + b == a;
    } else {
      assert (a + b)[..|a + b| - 1] == a + b[..|b| - 1];
      NonDotsAppend(a, b[..|b| - 1]);
    }
  }

  /** Collapsing dot runs removes dots only: every other character survives, in order. */
  lemma {:induction false} CollapseDotsRemovesOnlyDots(s: string)
    ensures NonDots(CollapseDots(s)) == NonDots(s)
  {
    if |s| > 1 {
      var init := CollapseDots(s[..|s| - 1]);
      CollapseDotsRemovesOnlyDots(s[..|s| - 1]);
      if !(s[|s| - 1] == '.' && s[|s| - 2] == '.') {
        assert (init + [s[|s| - 1]])[..|init|] == init;
      }
    }
  }

  /** One step of `CollapseDots`: the last character is dropped exactly when it extends a dot
      run. */
  lemma CollapseDotsLast(s: string, init: string, c: char)
    requires init != [] && s == init + [c]
    ensures CollapseDots(s) == if c == '.' && init[|init| - 1] == '.' then CollapseDots(init)
                               else CollapseDots(init) + [c]
  {
    assert s[..|s| - 1] == init;
  }

  /** Collapsing works piece by piece when no dot run straddles the seam. */
  lemma {:induction false} CollapseDotsJoin(x: string, y: string)
    requires x != [] && y != []
    requires !(x[|x| - 1] == '.' && y[0] == '.')
    ensures CollapseDots(x + y) == CollapseDots(x) + CollapseDots(y)
    decreases |y|
  {
    if |y| == 1 {
      CollapseDotsLast(x + y, x, y[0]);
    } else {
      var y', c := y[..|y| - 1], y[|y| - 1];
      var xy' := x + y';
      assert y == y' + [c];
      assert x + y == xy' + [c];
      assert xy'[|xy'| - 1] == y'[|y'| - 1];
      CollapseDotsJoin(x, y');
      var a, b := CollapseDots(x), CollapseDots(y');
      assert a + (b + [c]) == (a + b) + [c];
      CollapseDotsLast(x + y, xy', c);
      CollapseDotsLast(y, y', c);
    }
  }

  /** A run of dots collapses to a single dot. */
  lemma {:induction false} CollapseDotsOfRun(d: string)
    requires d != [] && forall i :: 0 <= i < |d| ==> d[i] == '.'
    ensures CollapseDots(d) == "."
  {
    if |d| > 1 {
      CollapseDotsOfRun(d[..|d| - 1]);
    }
  }

  /** Each maximal run of dots becomes exactly one dot, and the text around it is collapsed
      on its own. */
  lemma CollapseDotsRun(a: string, d: string, b: string)
    requires a == [] || a[|a| - 1] != '.'
    requires d != [] && forall i :: 0 <= i < |d| ==> d[i] == '.'
    requires b == [] || b[0] != '.'
    ensures CollapseDots(a + d + b) == CollapseDots(a) + "." + CollapseDots(b)
  {
    var ad := a + d;
    CollapseDotsOfRun(d);
    assert CollapseDots(ad) == CollapseDots(a) + "." by {
      if a == [] {
        assert ad == d;
      } else {
        CollapseDotsJoin(a, d);
      }
    }
    if b == [] {
      assert ad + b == ad;
    } else {
      assert ad[|ad| - 1] == d[|d| - 1];
      CollapseDotsJoin(ad, b);
    }
  }

  /** Text without dot runs is left as it is. */
  lemma {:induction false} CollapseDotsKeepsClean(s: string)
    requires NoDotRun(s)
    ensures CollapseDots(s) == s
  {
    if |s| > 1 {
      var init, c := s[..|s| - 1], s[|s| - 1];
      assert s == init + [c];
      assert NoDotRun(init) by {
        forall i | 0 <= i < |init| - 1 ensures !(init[i] == '.' && init[i + 1] == '.') {
          assert init[i] == s[i] && init[i + 1] == s[i + 1];
        }
      }
      CollapseDotsKeepsClean(init);
      assert init[|init| - 1] == s[|s| - 2];
      CollapseDotsLast(s, init, c);
    }
  }

  /** `safeBase` of `uniqueName`. */
  function SafeUploadBase(base: string): (r: string)
    ensures IsUploadName(r) && NoDotRun(r)
    ensures |r| <= Utf16Length(base)
  {
    CollapseDots(ReplaceUnsafe(base))
  }

  /** `safeBase` is a fixed point of its own cleaning. */
  lemma SafeUploadBaseIdempotent(base: string)
    ensures SafeUploadBase(SafeUploadBase(base)) == SafeUploadBase(base)
  {
    var b := SafeUploadBase(base);
    ReplaceUnsafeKeepsSafe(b);
    CollapseDotsKeepsClean(b);
  }

  predicate IsLowerHex(c: char) {
    IsAsciiDigit(c) || 'a' <= c <= 'f'
  }

  /** `randomUUID().slice(0, 8)`: eight lower-case hexadecimal digits. */
  predicate IsUuidPrefix(id: string) {
    |id| == 8 && forall i :: 0 <= i < 8 ==> IsLowerHex(id[i])
  }

  /** `uniqueName(base, ext)` with the random id passed in. */
  function UniqueName(base: string, ext: string, id: string): (r: string)
    requires IsUuidPrefix(id)
    ensures var b := SafeUploadBase(base);
      |r| == |b| + 10 + |ext|
      && r[..|b|] == b && r[|b|] == '-' && r[|b| + 1..|b| + 9] == id && r[|b| + 9] == '.'
      && r[|b| + 10..] == AsciiLower(ext)
  {
    SafeUploadBase(base) + "-" + id + "." + AsciiLower(ext)
  }

  /** Two different ids never give the same name for the same base and extension. */
  lemma UniqueNameSeparatesIds(base: string, ext: string, id1: string, id2: string)
    requires IsUuidPrefix(id1) && IsUuidPrefix(id2) && id1 != id2
    ensures UniqueName(base, ext, id1) != UniqueName(base, ext, id2)
  {
    var b := SafeUploadBase(base);
    assert UniqueName(base, ext, id1)[|b| + 1..|b| + 9] == id1;
  }

  lemma AsciiLowerAddsNoWhitespace(s: string)
    requires HasNoWhitespace(s)
    ensures HasNoWhitespace(AsciiLower(s))
  {
  }

  lemma NoWhitespaceAppend(x: string, y: string)
    requires HasNoWhitespace(x) && HasNoWhitespace(y)
    ensures HasNoWhitespace(x + y)
  {
    forall i | |x| <= i < |x + y| ensures !IsJsWhitespace((x + y)[i]) {
      assert (x + y)[i] == y[i - |x|];
    }
  }

  lemma UploadNameHasNoWhitespace(s: string)
    requires IsUploadName(s)
    ensures HasNoWhitespace(s)
  {
    forall i | 0 <= i < |s| ensures !IsJsWhitespace(s[i]) {
      assert IsUploadNameChar(s[i]);
    }
  }

  /** An upload name with a white-space-free extension can be captured as the rest of a
      stored path, and does not end in white space. */
  lemma UniqueNameIsRest(base: string, ext: string, id: string)
    requires IsUuidPrefix(id) && HasNoWhitespace(ext)
    ensures var n := UniqueName(base, ext, id); GalleryPaths.IsRest(n) && !IsJsWhitespace(n[|n| - 1])
  {
    var b := SafeUploadBase(base);
    UploadNameHasNoWhitespace(b);
    assert HasNoWhitespace(id) by {
      forall i | 0 <= i < |id| ensures !IsJsWhitespace(id[i]) {
        assert IsLowerHex(id[i]);
      }
    }
    AsciiLowerAddsNoWhitespace(ext);
    NoWhitespaceAppend(b, "-");
    NoWhitespaceAppend(b + "-", id);
    NoWhitespaceAppend(b + "-" + id, ".");
    NoWhitespaceAppend(b + "-" + id + ".", AsciiLower(ext));
  }

  /** An upload stored as `/galleries/<slug>/<uniqueName>` resolves to the same file under
      `/uploads/<gallery name>/`. */
  lemma UploadedUrlResolves(galleryName: string, slug: string, base: string, ext: string, id: string)
    requires IsUuidPrefix(id) && HasNoWhitespace(ext)
    requires GalleryPaths.IsSegment(slug) && Trim(galleryName) != []
    ensures var n := UniqueName(base, ext, id);
      GalleryPaths.ResolveGalleryImageUrl(galleryName, GalleryPaths.GalleriesPrefix + slug + "/" + n)
      == GalleryPaths.UploadsPrefix + Trim(galleryName) + "/" + n
  {
    var n := UniqueName(base, ext, id);
    UniqueNameIsRest(base, ext, id);
    GalleryPaths.ResolveStoredUrl(galleryName, GalleryPaths.GalleriesPrefix + slug + "/" + n, slug, n);
  }

  // ----- directory operations -----

  datatype FsError =
    | NoSuchPath          // ENOENT: an empty path, or a missing parent directory
    | SlugMissing         // ensureGalleryDir: "slug is missing"
    | TargetInsideSource  // EINVAL: a directory cannot be moved into itself
    | TargetExists        // ENOTEMPTY / EEXIST: the target directory is already there

  datatype Result<T> = Ok(value: T) | Err(error: FsError)

  /** What an operation reports, and the directory set it leaves behind. */
  datatype Outcome = Outcome(result: Result<()>, dirs: set<string>)

  /** The invariant of the directory set: closed under ancestors, and no directory is
      named by the empty path. */
  ghost predicate WellFormed(dirs: set<string>) {
    PrefixClosed(dirs) && [] !in dirs
  }

  // ----- ensureDir -----

  /** `ensureDir`: a missing path is created together with its ancestors; creating the empty
      path fails. */
  function EnsureDirSpec(dirs: set<string>, p: string): Outcome {
    if p in dirs then Outcome(Ok(()), dirs)
    else if p == [] then Outcome(Err(NoSuchPath), dirs)
    else Outcome(Ok(()), MkdirP(dirs, p))
  }

  /** ensureDir succeeds exactly on non-empty paths; then `p` exists, nothing is removed, an
      existing `p` changes nothing, and the invariant is kept. */
  lemma EnsureDirEffect(dirs: set<string>, p: string)
    requires WellFormed(dirs)
    ensures var o := EnsureDirSpec(dirs, p);
      WellFormed(o.dirs) && dirs <= o.dirs
      && (o.result.Ok? <==> p != [])
      && (p != [] ==> p in o.dirs && o.dirs == EnsureDirState(dirs, p))
      && (p in dirs ==> o.dirs == dirs)
  {
    if p !in dirs && p != [] {
      MkdirPKeepsClosed(dirs, p);
      MkdirPCreates(dirs, p);
    }
  }

  /** A second ensureDir of the same path changes nothing. */
  lemma EnsureDirTwice(dirs: set<string>, p: string)
    requires WellFormed(dirs)
    ensures var once := EnsureDirSpec(dirs, p);
      EnsureDirSpec(once.dirs, p) == Outcome(once.result, once.dirs)
  {
    EnsureDirEffect(dirs, p);
  }

  // ----- ensureGalleryDir -----

  /** `ensureGalleryDir(slug)`: the gallery directory path, or the missing-slug error. */
  function GalleryDirSpec(dirs: set<string>, slug: string): (Result<string>, set<string>) {
    if slug == [] then (Err(SlugMissing), dirs)
    else
      var dir := Join(GalleriesDir, slug);
      (Ok(dir), EnsureDirSpec(dirs, dir).dirs)
  }

  /** An empty slug fails and changes nothing; any other slug yields `GALLERIES_DIR/slug`,
      which exists afterwards, and nothing is removed. */
  lemma GalleryDirEffect(dirs: set<string>, slug: string)
    requires WellFormed(dirs)
    ensures var (r, after) := GalleryDirSpec(dirs, slug);
      WellFormed(after) && dirs <= after
      && (slug == [] ==> r == Err(SlugMissing) && after == dirs)
      && (slug != [] ==> r == Ok(GalleriesDir + "/" + slug) && r.value in after)
  {
    if slug != [] {
      EnsureDirEffect(dirs, Join(GalleriesDir, slug));
    }
  }

  /** Two calls with the same slug return the same path, and the second changes nothing. */
  lemma GalleryDirTwice(dirs: set<string>, slug: string)
    requires WellFormed(dirs)
    ensures var (r1, once) := GalleryDirSpec(dirs, slug);
      GalleryDirSpec(once, slug) == (r1, once)
  {
    if slug != [] {
      EnsureDirTwice(dirs, Join(GalleriesDir, slug));
    }
  }

  // ----- renameSync and renameGalleryFolder -----

  /** The parent directory `renameSync` needs in order to create `p`. */
  predicate ParentExists(dirs: set<string>, p: string) {
    p != [] && (LastSlash(p) <= 0 || Dirname(p) in dirs)
  }

  /** `renameSync(from, to)` for an existing directory `from`. */
  function RenameDirSpec(dirs: set<string>, from: string, to: string): Outcome {
    if from == to then Outcome(Ok(()), dirs)
    else if Under(to, from) then Outcome(Err(TargetInsideSource), dirs)
    else if to in dirs then Outcome(Err(TargetExists), dirs)
    else if !ParentExists(dirs, to) then Outcome(Err(NoSuchPath), dirs)
    else Outcome(Ok(()), Moved(dirs, from, to))
  }

  /** In a closed tree, an existing parent means every ancestor exists. */
  lemma ParentGivesAncestors(dirs: set<string>, p: string)
    requires PrefixClosed(dirs) && ParentExists(dirs, p)
    ensures forall a :: IsAncestor(a, p) ==> a in dirs
  {
    forall a | IsAncestor(a, p) ensures a in dirs {
      assert p[|a|] == '/';
      AncestorsOfParent(p, a);
    }
  }

  /** A successful rename of a different directory makes `to` exist and `from` vanish, moves
      the whole subtree, keeps everything else, and keeps the invariant. */
  lemma RenameDirEffect(dirs: set<string>, from: string, to: string)
    requires WellFormed(dirs) && from in dirs
    ensures var o := RenameDirSpec(dirs, from, to);
      WellFormed(o.dirs)
      && (o.result.Err? ==> o.dirs == dirs)
      && (from != to && o.result.Ok? ==> to in o.dirs && from !in o.dirs)
  {
    var o := RenameDirSpec(dirs, from, to);
    if from != to && o.result.Ok? {
      ParentGivesAncestors(dirs, to);
      MovedKeepsClosed(dirs, from, to);
      MovedTargetNotSource(dirs, from, to);
      assert [] !in o.dirs by {
        forall d | d in dirs && Under(d, from) ensures to + d[|from|..] != [] { }
      }
    }
  }

  /** `renameGalleryFolder(oldSlug, newSlug)` */
  function RenameGallerySpec(dirs: set<string>, oldSlug: string, newSlug: string): Outcome {
    var from := Join(GalleriesDir, oldSlug);
    var to := Join(GalleriesDir, newSlug);
    if from in dirs then RenameDirSpec(EnsureDirSpec(dirs, Dirname(to)).dirs, from, to)
    else EnsureDirSpec(dirs, to)
  }

  lemma GalleryPathShape(slug: string)
    ensures var p := Join(GalleriesDir, slug); p != [] && LastSlash(p) > 0
  {
    var p := Join(GalleriesDir, slug);
    assert p[..|GalleriesDir|] == GalleriesDir;
    assert p[|PublicDir|] == '/';
  }

  lemma DirnameIsShorter(p: string)
    requires LastSlash(p) > 0
    ensures Dirname(p) != [] && Dirname(p) != p && ParentExists({Dirname(p)}, p)
  {
  }

  /** When the source exists, the move either succeeds — the new folder exists and the old one
      is gone unless both name the same folder — or fails only because the target is inside
      the source or already exists. */
  lemma RenameGalleryExisting(dirs: set<string>, oldSlug: string, newSlug: string)
    requires WellFormed(dirs)
    requires Join(GalleriesDir, oldSlug) in dirs
    ensures var from, to := Join(GalleriesDir, oldSlug), Join(GalleriesDir, newSlug);
      var o := RenameGallerySpec(dirs, oldSlug, newSlug);
      WellFormed(o.dirs)
      && (o.result.Ok? <==> from == to || (!Under(to, from) && to !in dirs))
      && (o.result.Ok? ==> to in o.dirs)
      && (o.result.Ok? && from != to ==> from !in o.dirs)
  {
    var from, to := Join(GalleriesDir, oldSlug), Join(GalleriesDir, newSlug);
    var parent := Dirname(to);
    GalleryPathShape(newSlug);
    DirnameIsShorter(to);
    EnsureDirEffect(dirs, parent);
    var mid := EnsureDirSpec(dirs, parent).dirs;
    assert parent in mid;
    assert to in mid <==> to in dirs by {
      MkdirPCreates(dirs, parent);
      assert |parent| < |to|;
    }
    RenameDirEffect(mid, from, to);
  }

  /** `ensureDir(dirname(p))` creates nothing but ancestors of `p`. */
  lemma ParentCreatesAncestorsOnly(dirs: set<string>, p: string)
    requires LastSlash(p) > 0
    ensures forall d :: d in EnsureDirState(dirs, Dirname(p)) ==> d in dirs || IsAncestor(d, p)
  {
    var q := Dirname(p);
    MkdirPCreates(dirs, q);
    assert IsAncestor(q, p);
    forall d | IsAncestor(d, q) ensures IsAncestor(d, p) {
      AncestorTransitive(d, q, p);
    }
  }

  /** Something below `from` that is an ancestor of `to` puts `to` below `from`. */
  lemma BelowSourceAncestor(from: string, s: string, to: string)
    ensures from != [] && s != [] && s[0] == '/' && IsAncestor(from + s, to) ==> IsAncestor(from, to)
  {
    if from != [] && s != [] && s[0] == '/' && IsAncestor(from + s, to) {
      assert (from + s)[..|from|] == from;
      AncestorTransitive(from, from + s, to);
    }
  }

  /** A successful move of a different folder carries its whole subtree: `new + s` exists
      afterwards exactly when `old + s` existed before. */
  lemma RenameGalleryMovesSubtree(dirs: set<string>, oldSlug: string, newSlug: string, s: string)
    requires WellFormed(dirs)
    requires Join(GalleriesDir, oldSlug) in dirs
    requires Join(GalleriesDir, oldSlug) != Join(GalleriesDir, newSlug)
    requires RenameGallerySpec(dirs, oldSlug, newSlug).result.Ok?
    requires s == [] || s[0] == '/'
    ensures var o := RenameGallerySpec(dirs, oldSlug, newSlug);
      Join(GalleriesDir, newSlug) + s in o.dirs <==> Join(GalleriesDir, oldSlug) + s in dirs
  {
    var from, to := Join(GalleriesDir, oldSlug), Join(GalleriesDir, newSlug);
    GalleryPathShape(newSlug);
    DirnameIsShorter(to);
    EnsureDirEffect(dirs, Dirname(to));
    var mid := EnsureDirSpec(dirs, Dirname(to)).dirs;
    ParentCreatesAncestorsOnly(dirs, to);
    BelowSourceAncestor(from, s, to);
    assert from + s in mid <==> from + s in dirs by {
      assert s == [] ==> from + s == from;
    }
    MovedSubtree(mid, from, to, s);
  }

  /** Outside the two subtrees a successful move removes nothing, and adds only the ancestors
      of the new folder that were missing. */
  lemma RenameGalleryElsewhere(dirs: set<string>, oldSlug: string, newSlug: string, d: string)
    requires WellFormed(dirs)
    requires Join(GalleriesDir, oldSlug) in dirs
    requires !Under(d, Join(GalleriesDir, oldSlug)) && !Under(d, Join(GalleriesDir, newSlug))
    ensures var o := RenameGallerySpec(dirs, oldSlug, newSlug);
      (d in dirs ==> d in o.dirs)
      && (d in o.dirs ==> d in dirs || IsAncestor(d, Join(GalleriesDir, newSlug)))
  {
    var to := Join(GalleriesDir, newSlug);
    GalleryPathShape(newSlug);
    EnsureDirEffect(dirs, Dirname(to));
    ParentCreatesAncestorsOnly(dirs, to);
    MovedElsewhereUnchanged(EnsureDirSpec(dirs, Dirname(to)).dirs, Join(GalleriesDir, oldSlug), to, d);
  }

  /** When the source does not exist, the new folder is created and nothing is removed. */
  lemma RenameGalleryMissing(dirs: set<string>, oldSlug: string, newSlug: string)
    requires WellFormed(dirs)
    requires Join(GalleriesDir, oldSlug) !in dirs
    ensures var o := RenameGallerySpec(dirs, oldSlug, newSlug);
      WellFormed(o.dirs) && o.result.Ok? && Join(GalleriesDir, newSlug) in o.dirs && dirs <= o.dirs
  {
    GalleryPathShape(newSlug);
    EnsureDirEffect(dirs, Join(GalleriesDir, newSlug));
  }

  /** The directory set of the upload area, updated in place by the operations. */
  class UploadDirs {
    var dirs: set<string>

    ghost predicate Valid()
      reads this
    {
      WellFormed(dirs)
    }

    constructor (existing: set<string>)
      requires WellFormed(existing)
      ensures Valid() && dirs == existing
    {
      dirs := existing;
    }

    /** ensureDir */
    method EnsureDir(p: string) returns (r: Result<()>)
      requires Valid()
      modifies this
      ensures Valid()
      ensures Outcome(r, dirs) == EnsureDirSpec(old(dirs), p)
    {
      EnsureDirEffect(dirs, p);
      if p !in dirs {
        if p == [] {
          return Err(NoSuchPath);
        }
        dirs := MkdirP(dirs, p);
      }
      return Ok(());
    }

    /** ensureGalleryDir */
    method EnsureGalleryDir(slug: string) returns (r: Result<string>)
      requires Valid()
      modifies this
      ensures Valid()
      ensures (r, dirs) == GalleryDirSpec(old(dirs), slug)
    {
      if slug == [] {
        return Err(SlugMissing);
      }
      var dir := Join(GalleriesDir, slug);
      var _ := EnsureDir(dir);
      return Ok(dir);
    }

    /** renameSync on an existing directory */
    method RenameDir(from: string, to: string) returns (r: Result<()>)
      requires Valid() && from in dirs
      modifies this
      ensures Valid()
      ensures Outcome(r, dirs) == RenameDirSpec(old(dirs), from, to)
    {
      RenameDirEffect(dirs, from, to);
      if from == to {
        return Ok(());
      } else if Under(to, from) {
        return Err(TargetInsideSource);
      } else if to in dirs {
        return Err(TargetExists);
      } else if !ParentExists(dirs, to) {
        return Err(NoSuchPath);
      }
      dirs := Moved(dirs, from, to);
      return Ok(());
    }

    /** renameGalleryFolder */
    method RenameGalleryFolder(oldSlug: string, newSlug: string) returns (r: Result<()>)
      requires Valid()
      modifies this
      ensures Valid()
      ensures Outcome(r, dirs) == RenameGallerySpec(old(dirs), oldSlug, newSlug)
    {
      var from := Join(GalleriesDir, oldSlug);
      var to := Join(GalleriesDir, newSlug);
      if from in dirs {
        var _ := EnsureDir(Dirname(to));
        r := RenameDir(from, to);
      } else {
        r := EnsureDir(to);
      }
    }
  }
}
