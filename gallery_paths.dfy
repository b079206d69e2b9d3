/** Gallery image path helpers: sanitising an uploaded file name and mapping a stored
    image reference to the canonical `/uploads/<gallery>/...` URL. Both are pure. */
module GalleryPaths {
  import opened JsStrings

  datatype Option<T> = None | Some(value: T)

  predicate IsPathSeparator(c: char) { c == '/' || c == '\\' }

  predicate IsQueryStart(c: char) { c == '?' || c == '#' }

  /** `[A-Za-z0-9_-]`: what may appear in the base of a sanitised name. */
  predicate IsBaseChar(c: char) { IsAsciiAlnum(c) || c == '_' || c == '-' }

  /** Lower-case ASCII letters and digits: what may appear in a sanitised extension. */
  predicate IsExtChar(c: char) { 'a' <= c <= 'z' || IsAsciiDigit(c) }

  predicate IsFileNameChar(c: char) { IsBaseChar(c) || c == '.' }

  const MaxBaseLength := 80
  const MaxExtLength := 12
  const DefaultBase := "image"
  const UploadsPrefix := "/uploads/"
  const GalleriesPrefix := "/galleries/"

  predicate IsSafeBase(b: string) {
    0 < |b| <= MaxBaseLength && forall i :: 0 <= i < |b| ==> IsBaseChar(b[i])
  }

  predicate IsSafeExt(e: string) {
    |e| <= MaxExtLength && forall i :: 0 <= i < |e| ==> IsExtChar(e[i])
  }

  /** The shape of every sanitised name: a safe base, then optionally one dot and a
      non-empty safe extension. */
  predicate IsSanitizedName(r: string) {
    var dot := LastIndexOf(r, '.');
    if dot < 0 then IsSafeBase(r)
    else IsSafeBase(r[..dot]) && dot + 1 < |r| && IsSafeExt(r[dot + 1..])
  }

  /** The last piece of a split at `/` and `\`: the text after the last separator. */
  function LastSegment(s: string): (r: string)
    ensures |r| <= |s| && r == s[|s| - |r|..]
    ensures forall i :: 0 <= i < |r| ==> !IsPathSeparator(r[i])
    ensures |r| < |s| ==> IsPathSeparator(s[|s| - |r| - 1])
  {
    if s == [] || IsPathSeparator(s[|s| - 1]) then []
    else LastSegment(s[..|s| - 1]) + [s[|s| - 1]]
  }

  /** The first piece of a split at `?` and `#`: the text before the first mark. */
  function BeforeQuery(s: string): (r: string)
    ensures |r| <= |s| && r == s[..|r|]
    ensures forall i :: 0 <= i < |r| ==> !IsQueryStart(r[i])
    ensures |r| < |s| ==> IsQueryStart(s[|r|])
  {
    if s == [] || IsQueryStart(s[0]) then [] else [s[0]] + BeforeQuery(s[1..])
  }

  /** The part of an untrusted name the sanitiser keeps: its last path segment,
      trimmed, cut at the first `?` or `#`. */
  function FileStem(name: string): (w: string)
    ensures forall i :: 0 <= i < |w| ==> !IsPathSeparator(w[i]) && !IsQueryStart(w[i])
  {
    var seg := LastSegment(name);
    TrimIsSlice(seg);
    BeforeQuery(Trim(seg))
  }

  /** Every character outside the base alphabet becomes `_`, one for one (the `u` flag makes
      an astral character a single match). */
  function Underscored(s: string): (r: string)
    ensures |r| == |s|
    ensures forall i :: 0 <= i < |s| ==> IsBaseChar(r[i])
    ensures forall i :: 0 <= i < |s| && IsBaseChar(s[i]) ==> r[i] == s[i]
    ensures forall i :: 0 <= i < |s| && !IsBaseChar(s[i]) ==> r[i] == '_'
  {
    seq(|s|, i requires 0 <= i < |s| => if IsBaseChar(s[i]) then s[i] else '_')
  }

  /** Removes every character other than an ASCII letter or digit. */
  function AlnumOnly(s: string): (r: string)
    ensures |r| <= |s|
    ensures forall i :: 0 <= i < |r| ==> IsAsciiAlnum(r[i])
    ensures (forall i :: 0 <= i < |s| ==> IsAsciiAlnum(s[i])) ==> r == s
    ensures |s| == 1 ==> r == (if IsAsciiAlnum(s[0]) then s else [])
  {
    if s == [] then []
    else if IsAsciiAlnum(s[0]) then [s[0]] + AlnumOnly(s[1..])
    else AlnumOnly(s[1..])
  }

  /** The filter works character by character: together with the one-character case of its
      contract, every letter and digit survives, in order, and nothing else does. */
  lemma {:induction false} AlnumOnlyAppend(a: string, b: string)
    ensures AlnumOnly(a + b) == AlnumOnly(a) + AlnumOnly(b)
  {
    if a != [] {
      assert (a + b)[1..] == a[1..] + b;
      AlnumOnlyAppend(a[1..], b);
    } else {
      assert a + b == b;
    }
  }

  /** `s.slice(0, n)` */
  function Prefix(s: string, n: nat): (r: string)
    ensures |r| == (if |s| <= n then |s| else n) && r == s[..|r|]
    ensures |s| <= n ==> r == s
  {
    if |s| <= n then s else s[..n]
  }

  /** The base of a sanitised name, from the raw text before the extension dot. */
  function SafeBase(rawBase: string): (b: string)
    ensures IsSafeBase(b)
    ensures IsSafeBase(rawBase) ==> b == rawBase
  {
    var cut := Prefix(Underscored(rawBase), MaxBaseLength);
    if cut == [] then DefaultBase else cut
  }

  /** The extension of a sanitised name, from the raw text after the extension dot. */
  function SafeExt(rawExt: string): (e: string)
    ensures IsSafeExt(e)
    ensures IsSafeExt(rawExt) ==> e == rawExt
  {
    AsciiLower(Prefix(AlnumOnly(rawExt), MaxExtLength))
  }

  /** The base keeps the first 80 characters of the raw text, each safe one as it is and
      every other one as `_`; only an empty raw base becomes `image`. */
  lemma SafeBaseOfRaw(rawBase: string)
    ensures rawBase == [] ==> SafeBase(rawBase) == DefaultBase
    ensures rawBase != [] ==>
      |SafeBase(rawBase)| == (if |rawBase| <= MaxBaseLength then |rawBase| else MaxBaseLength)
    ensures rawBase != [] ==> forall i :: 0 <= i < |SafeBase(rawBase)| ==>
      SafeBase(rawBase)[i] == (if IsBaseChar(rawBase[i]) then rawBase[i] else '_')
  {
  }

  /** The extension keeps the first 12 letters and digits of the raw text, lower-cased. */
  lemma SafeExtOfRaw(rawExt: string)
    ensures var kept := AlnumOnly(rawExt);
      |SafeExt(rawExt)| == (if |kept| <= MaxExtLength then |kept| else MaxExtLength)
    ensures var kept := AlnumOnly(rawExt);
      forall i :: 0 <= i < |SafeExt(rawExt)| ==> SafeExt(rawExt)[i] == AsciiLowerChar(kept[i])
  {
  }

  /** Every name of the sanitised shape is non-empty and uses only `[A-Za-z0-9_.-]`. */
  lemma SanitizedNameChars(r: string)
    requires IsSanitizedName(r)
    ensures r != []
    ensures forall i :: 0 <= i < |r| ==> IsFileNameChar(r[i])
  {
    var dot := LastIndexOf(r, '.');
    if dot >= 0 {
      forall i | 0 <= i < |r| ensures IsFileNameChar(r[i]) {
        if i < dot { assert r[i] == r[..dot][i]; }
        else if i > dot { assert r[i] == r[dot + 1..][i - dot - 1]; }
      }
    }
  }

  /** The base alone when the extension is empty, otherwise base, dot and extension: a safe
      base and a safe extension give a name of the sanitised shape. */
  function JoinExtension(base: string, ext: string): (r: string)
    requires IsSafeBase(base) && IsSafeExt(ext)
    ensures IsSanitizedName(r)
    ensures ext == [] ==> r == base
    ensures ext != [] ==> LastIndexOf(r, '.') == |base| && r[..|base|] == base && r[|base| + 1..] == ext
  {
    if ext == [] then base
    else
      var r := base + "." + ext;
      assert r[|base|] == '.';
      assert r[..|base|] == base && r[|base| + 1..] == ext;
      r
  }

  /** Splits a stem at its last dot (a dot at index 0 does not count) and sanitises both parts. */
  function SanitizeStem(w: string): (r: string)
    ensures IsSanitizedName(r)
  {
    var dot := LastIndexOf(w, '.');
    if dot > 0 then JoinExtension(SafeBase(w[..dot]), SafeExt(w[dot + 1..]))
    else JoinExtension(SafeBase(w), SafeExt(""))
  }

  /** sanitizeGalleryFileName: never empty, only `[A-Za-z0-9_.-]`, a base of at most 80
      characters and an optional extension of 1 to 12 lower-case letters or digits. */
  function SanitizeGalleryFileName(originalName: string): (r: string)
    ensures r != []
    ensures forall i :: 0 <= i < |r| ==> IsFileNameChar(r[i])
    ensures IsSanitizedName(r)
  {
    var r := SanitizeStem(FileStem(originalName));
    SanitizedNameChars(r);
    r
  }

  lemma FileNameCharIsPlain(c: char)
    requires IsFileNameChar(c)
    ensures !IsJsWhitespace(c) && !IsPathSeparator(c) && !IsQueryStart(c) && !IsLineTerminator(c)
  {
  }

  /** The text after the last separator of a string with no separator is all of it. */
  lemma LastSegmentOfPlain(s: string)
    requires forall i :: 0 <= i < |s| ==> !IsPathSeparator(s[i])
    ensures LastSegment(s) == s
  {
  }

  lemma BeforeQueryOfPlain(s: string)
    requires forall i :: 0 <= i < |s| ==> !IsQueryStart(s[i])
    ensures BeforeQuery(s) == s
  {
  }

  /** A name made of `[A-Za-z0-9_.-]` only is its own stem. */
  lemma PlainNameIsOwnStem(r: string)
    requires forall i :: 0 <= i < |r| ==> IsFileNameChar(r[i])
    ensures FileStem(r) == r
  {
    forall i | 0 <= i < |r|
      ensures !IsJsWhitespace(r[i]) && !IsPathSeparator(r[i]) && !IsQueryStart(r[i])
    {
      FileNameCharIsPlain(r[i]);
    }
    LastSegmentOfPlain(r);
    TrimKeepsTrimmed(r);
    BeforeQueryOfPlain(r);
  }

  lemma SanitizeStemKeepsSanitized(r: string)
    requires IsSanitizedName(r)
    ensures SanitizeStem(r) == r
  {
    var dot := LastIndexOf(r, '.');
    if dot < 0 {
      assert SafeBase(r) == r;
      assert SafeExt("") == "";
    } else {
      var base, ext := r[..dot], r[dot + 1..];
      assert SafeBase(base) == base;
      assert SafeExt(ext) == ext;
      assert r == base + "." + ext;
    }
  }

  /** A name that already has the sanitised shape is left as it is. */
  lemma SanitizedNameIsFixed(r: string)
    requires IsSanitizedName(r)
    ensures SanitizeGalleryFileName(r) == r
  {
    SanitizedNameChars(r);
    PlainNameIsOwnStem(r);
    SanitizeStemKeepsSanitized(r);
  }

  /** sanitizeGalleryFileName is idempotent: its output passes every one of its filters. */
  lemma SanitizeIdempotent(name: string)
    ensures SanitizeGalleryFileName(SanitizeGalleryFileName(name)) == SanitizeGalleryFileName(name)
  {
    SanitizedNameIsFixed(SanitizeGalleryFileName(name));
  }

  lemma {:induction false} LastSegmentAfterSeparator(dir: string, sep: char, name: string)
    requires IsPathSeparator(sep)
    requires forall i :: 0 <= i < |name| ==> !IsPathSeparator(name[i])
    ensures LastSegment(dir + [sep] + name) == name
  {
    var s := dir + [sep] + name;
    if name != [] {
      var init := name[..|name| - 1];
      assert s[..|s| - 1] == dir + [sep] + init;
      LastSegmentAfterSeparator(dir, sep, init);
      assert name == init + [name[|name| - 1]];
    }
  }

  /** Only the text after the last `/` or `\` is used. */
  lemma SanitizeIgnoresDirectories(dir: string, sep: char, name: string)
    requires IsPathSeparator(sep)
    requires forall i :: 0 <= i < |name| ==> !IsPathSeparator(name[i])
    ensures SanitizeGalleryFileName(dir + [sep] + name) == SanitizeGalleryFileName(name)
  {
    LastSegmentAfterSeparator(dir, sep, name);
    LastSegmentOfPlain(name);
  }

  lemma {:induction false} BeforeQueryAtMark(head: string, tail: string)
    requires tail != [] && IsQueryStart(tail[0])
    requires forall i :: 0 <= i < |head| ==> !IsQueryStart(head[i])
    ensures BeforeQuery(head + tail) == head
  {
    if head != [] {
      assert (head + tail)[1..] == head[1..] + tail;
      BeforeQueryAtMark(head[1..], tail);
    }
  }

  /** The stem of a name with no separator and no query mark, and no trailing
      whitespace, is the name without its leading whitespace. */
  lemma StemOfPlainName(name: string)
    requires forall i :: 0 <= i < |name| ==> !IsPathSeparator(name[i]) && !IsQueryStart(name[i])
    requires name == [] || !IsJsWhitespace(name[|name| - 1])
    ensures FileStem(name) == TrimStart(name)
  {
    LastSegmentOfPlain(name);
    var head := TrimStart(name);
    assert head == [] || head[|head| - 1] == name[|name| - 1];
    assert TrimEnd(head) == head;
    BeforeQueryOfPlain(head);
  }

  /** `?` and `#` are not white space, so trimming stops at them. */
  lemma QueryStartIsText(c: char)
    requires IsQueryStart(c)
    ensures !IsJsWhitespace(c)
  {
  }

  /** Appending a query (text starting with `?` or `#`) does not change the stem. */
  lemma StemDropsQuery(name: string, query: string)
    requires query != [] && IsQueryStart(query[0])
    requires forall i :: 0 <= i < |name| ==> !IsPathSeparator(name[i]) && !IsQueryStart(name[i])
    requires forall i :: 0 <= i < |query| ==> !IsPathSeparator(query[i])
    ensures FileStem(name + query) == TrimStart(name)
  {
    var s := name + query;
    forall i | 0 <= i < |s| ensures !IsPathSeparator(s[i]) {
      if i >= |name| { assert s[i] == query[i - |name|]; }
    }
    LastSegmentOfPlain(s);
    QueryStartIsText(query[0]);
    TrimAroundText(name, query);
    TrimEndKeepsText(query);
    BeforeQueryAtMark(TrimStart(name), TrimEnd(query));
  }

  /** Everything from the first `?` or `#` onward is dropped (for a name that does not
      end in whitespace, since trimming happens before the cut). */
  lemma SanitizeDropsQuery(name: string, query: string)
    requires query != [] && IsQueryStart(query[0])
    requires forall i :: 0 <= i < |name| ==> !IsPathSeparator(name[i]) && !IsQueryStart(name[i])
    requires forall i :: 0 <= i < |query| ==> !IsPathSeparator(query[i])
    requires name == [] || !IsJsWhitespace(name[|name| - 1])
    ensures SanitizeGalleryFileName(name + query) == SanitizeGalleryFileName(name)
  {
    StemDropsQuery(name, query);
    StemOfPlainName(name);
  }

  /** A stem with no dot, or whose only dot is its first character (`.bashrc`),
      yields no extension: the result contains no dot at all. */
  lemma NoExtensionWithoutInnerDot(name: string)
    requires LastIndexOf(FileStem(name), '.') <= 0
    ensures forall i :: 0 <= i < |SanitizeGalleryFileName(name)| ==> SanitizeGalleryFileName(name)[i] != '.'
  {
    var w := FileStem(name);
    StemWithoutInnerDot(w);
    SafeBaseHasNoDot(w);
    assert SanitizeGalleryFileName(name) == SanitizeStem(w);
  }

  lemma SafeExtOfEmpty()
    ensures SafeExt("") == ""
  {
    assert AlnumOnly("") == "";
  }

  /** Without a dot past index 0 the stem is all base. */
  lemma StemWithoutInnerDot(w: string)
    requires LastIndexOf(w, '.') <= 0
    ensures SanitizeStem(w) == SafeBase(w)
  {
    SafeExtOfEmpty();
  }

  lemma SafeBaseHasNoDot(rawBase: string)
    ensures forall i :: 0 <= i < |SafeBase(rawBase)| ==> SafeBase(rawBase)[i] != '.'
  {
    var b := SafeBase(rawBase);
    forall i | 0 <= i < |b| ensures b[i] != '.' {
      assert IsBaseChar(b[i]);
    }
  }

  /** A name with no separator or query mark that neither starts nor ends with
      whitespace is its own stem. */
  lemma StemOfSimpleName(w: string)
    requires forall i :: 0 <= i < |w| ==> !IsPathSeparator(w[i]) && !IsQueryStart(w[i])
    requires w == [] || (!IsJsWhitespace(w[0]) && !IsJsWhitespace(w[|w| - 1]))
    ensures FileStem(w) == w
  {
    LastSegmentOfPlain(w);
    TrimKeepsTrimmed(w);
    BeforeQueryOfPlain(w);
  }

  lemma SanitizeEmptyExample()
    ensures SanitizeGalleryFileName("") == "image"
  {
  }

  /** Spaces and punctuation in the base become `_`, one for one, and the extension is
      lower-cased. */
  lemma SanitizeWorkedExample(name: string)
    requires name == "My Photo!! (1).JPG"
    ensures SanitizeGalleryFileName(name) == "My_Photo____1_.jpg"
  {
    StemOfSimpleName(name);
    ExampleStem(name);
  }

  lemma ExampleStem(w: string)
    requires w == "My Photo!! (1).JPG"
    ensures SanitizeStem(w) == "My_Photo____1_.jpg"
  {
    ExampleLastDot(w);
    ExampleBase(w[..14]);
    ExampleExt(w[15..]);
  }

  lemma ExampleLastDot(w: string)
    requires w == "My Photo!! (1).JPG"
    ensures LastIndexOf(w, '.') == 14
  {
    var k := LastIndexOf(w, '.');
    assert w[14] == '.' && w[15] == 'J' && w[16] == 'P' && w[17] == 'G';
    assert k >= 14;
  }

  lemma ExampleBase(b: string)
    requires b == "My Photo!! (1)"
    ensures SafeBase(b) == "My_Photo____1_"
  {
    var u := Underscored(b);
    assert Prefix(u, MaxBaseLength) == u;
  }

  lemma ExampleExt(e: string)
    requires e == "JPG"
    ensures SafeExt(e) == "jpg"
  {
    assert AlnumOnly(e) == e;
    assert Prefix(e, MaxExtLength) == e;
  }

  lemma DotfileChars(w: string)
    requires w != [] && w[0] == '.'
    requires forall i :: 0 < i < |w| ==> IsBaseChar(w[i])
    ensures forall i :: 0 <= i < |w| ==> IsFileNameChar(w[i])
    ensures LastIndexOf(w, '.') == 0
  {
  }

  lemma DotfileSanitizeStem(w: string)
    requires 0 < |w| <= MaxBaseLength && w[0] == '.'
    requires forall i :: 0 < i < |w| ==> IsBaseChar(w[i])
    requires LastIndexOf(w, '.') == 0
    ensures var r := SanitizeStem(w); |r| == |w| && r[0] == '_' && r[1..] == w[1..]
  {
    StemWithoutInnerDot(w);
    var u := Underscored(w);
    assert Prefix(u, MaxBaseLength) == u;
    assert u[1..] == w[1..] by {
      forall i | 1 <= i < |w| ensures u[i] == w[i] {
        assert IsBaseChar(w[i]);
      }
    }
  }

  /** A leading dot does not start an extension: `.name` becomes `_name`. */
  lemma DotfileHasNoExtension(w: string)
    requires 0 < |w| <= MaxBaseLength && w[0] == '.'
    requires forall i :: 0 < i < |w| ==> IsBaseChar(w[i])
    ensures var r := SanitizeGalleryFileName(w); |r| == |w| && r[0] == '_' && r[1..] == w[1..]
  {
    DotfileChars(w);
    PlainNameIsOwnStem(w);
    DotfileSanitizeStem(w);
  }

  // ----- resolveGalleryImageUrl -----

  /** One letter of `/^https?:\/\//iu`: either case; under the `i` and `u` flags the
      long s (U+017F) case-folds to `s` and matches too. */
  predicate MatchesFolded(c: char, lower: char) {
    AsciiLowerChar(c) == lower || (lower == 's' && c == '\U{017F}')
  }

  /** The value starts with `http://` or `https://`, matched case-insensitively. */
  predicate HasHttpScheme(v: string) {
    |v| >= 7 && MatchesFolded(v[0], 'h') && MatchesFolded(v[1], 't') && MatchesFolded(v[2], 't')
    && MatchesFolded(v[3], 'p')
    && (v[4..7] == "://" || (|v| >= 8 && MatchesFolded(v[4], 's') && v[5..8] == "://"))
  }

  /** A reference the resolver passes through: an `http(s)://` URL or a `data:` URL. */
  predicate IsExternalReference(v: string) {
    HasHttpScheme(v) || StartsWith(v, "data:")
  }

  /** What `[^/]+` matches. */
  predicate IsSegment(seg: string) {
    seg != [] && forall i :: 0 <= i < |seg| ==> seg[i] != '/'
  }

  /** What `(.+)$` matches: `.` matches anything but a line terminator. */
  predicate IsRest(rest: string) {
    rest != [] && forall i :: 0 <= i < |rest| ==> !IsLineTerminator(rest[i])
  }

  /** `v` matches `/^\/(?:uploads|galleries)\/[^/]+\/(.+)$/u` with `seg` and `rest` as the
      two variable parts. */
  predicate IsStoredPath(v: string, seg: string, rest: string) {
    (v == UploadsPrefix + seg + "/" + rest || v == GalleriesPrefix + seg + "/" + rest)
    && IsSegment(seg) && IsRest(rest)
  }

  /** The text after a leading `/uploads/` or `/galleries/`. */
  function AfterStoredPrefix(v: string): (r: Option<string>)
    ensures r.Some? ==> v == UploadsPrefix + r.value || v == GalleriesPrefix + r.value
  {
    if StartsWith(v, UploadsPrefix) then Some(v[|UploadsPrefix|..])
    else if StartsWith(v, GalleriesPrefix) then Some(v[|GalleriesPrefix|..])
    else None
  }

  /** Splits the text after the prefix at its first `/`. */
  function SegmentAndRest(tail: string): (r: Option<(string, string)>)
    ensures r.Some? ==> tail == r.value.0 + "/" + r.value.1 && IsSegment(r.value.0) && IsRest(r.value.1)
  {
    var k := IndexOf(tail, '/');
    if k <= 0 then None
    else
      var seg, rest := tail[..k], tail[k + 1..];
      assert tail == seg + "/" + rest;
      if IsRest(rest) then Some((seg, rest)) else None
  }

  /** The match of the stored-path pattern: the segment and the captured rest. */
  function StoredPathParts(v: string): (r: Option<(string, string)>)
    ensures r.Some? ==> IsStoredPath(v, r.value.0, r.value.1)
  {
    match AfterStoredPrefix(v)
    case None => None
    case Some(tail) => SegmentAndRest(tail)
  }

  lemma SegmentAndRestComplete(seg: string, rest: string)
    requires IsSegment(seg) && IsRest(rest)
    ensures SegmentAndRest(seg + "/" + rest) == Some((seg, rest))
  {
    var tail := seg + "/" + rest;
    var k := IndexOf(tail, '/');
    assert tail[|seg|] == '/';
    assert tail[..k] == seg && tail[k + 1..] == rest;
  }

  /** The matcher finds every stored path, and its parts are the only ones. */
  lemma StoredPathPartsComplete(v: string, seg: string, rest: string)
    requires IsStoredPath(v, seg, rest)
    ensures StoredPathParts(v) == Some((seg, rest))
  {
    var tail := seg + "/" + rest;
    if v == UploadsPrefix + tail {
      assert v[..|UploadsPrefix|] == UploadsPrefix && v[|UploadsPrefix|..] == tail;
    } else {
      assert v[1] == 'g';
      assert v[..|GalleriesPrefix|] == GalleriesPrefix && v[|GalleriesPrefix|..] == tail;
    }
    SegmentAndRestComplete(seg, rest);
  }

  /** What follows `/uploads/<gallery name>/` for a value that is neither blank nor external:
      the captured rest of a stored path, or else the sanitised last path segment. */
  function ResolvedTail(v: string): string {
    match StoredPathParts(v)
    case Some((_, rest)) => rest
    case None => SanitizeGalleryFileName(LastSegment(v))
  }

  /** resolveGalleryImageUrl: maps a stored image reference to `/uploads/<gallery name>/...`. */
  function ResolveGalleryImageUrl(galleryName: string, value: string): string {
    var name := Trim(galleryName);
    if name == [] then value
    else
      var basePath := UploadsPrefix + name;
      var v := Trim(value);
      if v == [] then basePath
      else if IsExternalReference(v) then v
      else basePath + "/" + ResolvedTail(v)
  }

  /** A blank gallery name leaves the value exactly as it was. */
  lemma ResolveBlankName(galleryName: string, value: string)
    requires forall i :: 0 <= i < |galleryName| ==> IsJsWhitespace(galleryName[i])
    ensures ResolveGalleryImageUrl(galleryName, value) == value
  {
    TrimIsBlankIffAllWhitespace(galleryName);
  }

  /** A blank value resolves to the gallery's own folder. */
  lemma ResolveBlankValue(galleryName: string, value: string)
    requires Trim(galleryName) != []
    requires forall i :: 0 <= i < |value| ==> IsJsWhitespace(value[i])
    ensures ResolveGalleryImageUrl(galleryName, value) == UploadsPrefix + Trim(galleryName)
  {
    TrimIsBlankIffAllWhitespace(value);
  }

  /** External references are passed through, trimmed. */
  lemma ResolveExternal(galleryName: string, value: string)
    requires Trim(galleryName) != []
    requires IsExternalReference(Trim(value))
    ensures ResolveGalleryImageUrl(galleryName, value) == Trim(value)
  {
  }

  /** A stored path starts with `/`, so it is never taken for an external reference. */
  lemma SlashIsNotExternal(v: string)
    requires v != [] && v[0] == '/'
    ensures !IsExternalReference(v)
  {
  }

  /** A stored `/uploads/<seg>/<rest>` or `/galleries/<seg>/<rest>` path is moved under the
      gallery's folder, keeping `rest`. */
  lemma ResolveStoredPath(galleryName: string, value: string, seg: string, rest: string)
    requires Trim(galleryName) != []
    requires IsStoredPath(Trim(value), seg, rest)
    ensures ResolveGalleryImageUrl(galleryName, value) == UploadsPrefix + Trim(galleryName) + "/" + rest
  {
    var v := Trim(value);
    assert v[0] == '/';
    SlashIsNotExternal(v);
    StoredPathPartsComplete(v, seg, rest);
  }

  /** Anything else is reduced to its sanitised last path segment under the gallery's folder. */
  lemma ResolveBareFile(galleryName: string, value: string)
    requires Trim(galleryName) != [] && Trim(value) != []
    requires !IsExternalReference(Trim(value))
    requires forall seg, rest :: !IsStoredPath(Trim(value), seg, rest)
    ensures ResolveGalleryImageUrl(galleryName, value)
      == UploadsPrefix + Trim(galleryName) + "/" + SanitizeGalleryFileName(LastSegment(Trim(value)))
  {
  }

  /** Sanitised names can be captured as the `rest` of a stored path. */
  lemma SanitizedNameIsRest(f: string)
    requires forall i :: 0 <= i < |f| ==> IsFileNameChar(f[i])
    requires f != []
    ensures IsRest(f) && !IsJsWhitespace(f[|f| - 1])
  {
    forall i | 0 <= i < |f| ensures !IsLineTerminator(f[i]) {
      FileNameCharIsPlain(f[i]);
    }
    FileNameCharIsPlain(f[|f| - 1]);
  }

  /** A stored path that does not end in whitespace is rebuilt under the gallery's folder. */
  lemma ResolveStoredUrl(galleryName: string, v: string, seg: string, rest: string)
    requires IsStoredPath(v, seg, rest) && !IsJsWhitespace(rest[|rest| - 1])
    requires Trim(galleryName) != []
    ensures ResolveGalleryImageUrl(galleryName, v) == UploadsPrefix + Trim(galleryName) + "/" + rest
  {
    assert v[0] == '/' && v[|v| - 1] == rest[|rest| - 1];
    TrimKeepsTrimmed(v);
    ResolveStoredPath(galleryName, v, seg, rest);
  }

  /** A stored path ends with the last character of its captured rest. */
  lemma StoredPathEndsWithRest(v: string, seg: string, rest: string)
    requires IsStoredPath(v, seg, rest)
    ensures v[|v| - 1] == rest[|rest| - 1]
  {
  }

  lemma SanitizedTailIsRest(v: string)
    requires StoredPathParts(v).None?
    ensures var t := ResolvedTail(v); IsRest(t) && !IsJsWhitespace(t[|t| - 1])
  {
    SanitizedNameIsRest(SanitizeGalleryFileName(LastSegment(v)));
  }

  /** The tail the resolver appends can itself be captured as the rest of a stored path. */
  lemma ResolvedTailIsRest(v: string)
    requires v != [] && !IsJsWhitespace(v[|v| - 1])
    ensures var t := ResolvedTail(v); IsRest(t) && !IsJsWhitespace(t[|t| - 1])
  {
    if StoredPathParts(v).Some? {
      var parts := StoredPathParts(v).value;
      StoredPathEndsWithRest(v, parts.0, parts.1);
      assert ResolvedTail(v) == parts.1;
    } else {
      SanitizedTailIsRest(v);
    }
  }

  /** Renaming transparency: re-resolving a URL resolved under another gallery name gives what
      resolving the original value under the new name gives, as long as the old name has no `/`. */
  lemma ResolveRenameTransparent(oldName: string, newName: string, value: string)
    requires forall i :: 0 <= i < |Trim(oldName)| ==> Trim(oldName)[i] != '/'
    requires Trim(newName) != [] && Trim(value) != []
    ensures ResolveGalleryImageUrl(newName, ResolveGalleryImageUrl(oldName, value))
      == ResolveGalleryImageUrl(newName, value)
  {
    if Trim(oldName) == [] {
      TrimIsBlankIffAllWhitespace(oldName);
      ResolveBlankName(oldName, value);
    } else if IsExternalReference(Trim(value)) {
      RenameExternal(oldName, newName, value);
    } else {
      RenameInternal(oldName, newName, value);
    }
  }

  /** Renaming case of an external reference: both sides are the trimmed reference. */
  lemma RenameExternal(oldName: string, newName: string, value: string)
    requires Trim(oldName) != [] && Trim(newName) != []
    requires IsExternalReference(Trim(value))
    ensures ResolveGalleryImageUrl(newName, ResolveGalleryImageUrl(oldName, value))
      == ResolveGalleryImageUrl(newName, value)
  {
    var v := Trim(value);
    ResolveExternal(oldName, value);
    TrimIdempotent(value);
    ResolveExternal(newName, v);
    ResolveExternal(newName, value);
  }

  /** Renaming case of a value that is neither blank nor external: the URL under the old name
      is a stored path whose rest is the tail the new name gives. */
  lemma RenameInternal(oldName: string, newName: string, value: string)
    requires Trim(oldName) != [] && forall i :: 0 <= i < |Trim(oldName)| ==> Trim(oldName)[i] != '/'
    requires Trim(newName) != [] && Trim(value) != []
    requires !IsExternalReference(Trim(value))
    ensures ResolveGalleryImageUrl(newName, ResolveGalleryImageUrl(oldName, value))
      == ResolveGalleryImageUrl(newName, value)
  {
    var tail := ResolvedTail(Trim(value));
    ResolvedIsStored(oldName, value);
    ResolveStoredUrl(newName, ResolveGalleryImageUrl(oldName, value), Trim(oldName), tail);
    ResolveInternal(newName, value);
  }

  /** Under a `/`-free gallery name, a value that is neither blank nor external resolves to a
      stored path whose segment is the name and whose rest is the resolved tail. */
  lemma ResolvedIsStored(galleryName: string, value: string)
    requires Trim(galleryName) != [] && forall i :: 0 <= i < |Trim(galleryName)| ==> Trim(galleryName)[i] != '/'
    requires Trim(value) != []
    requires !IsExternalReference(Trim(value))
    ensures var url, tail := ResolveGalleryImageUrl(galleryName, value), ResolvedTail(Trim(value));
      url == UploadsPrefix + Trim(galleryName) + "/" + tail
      && IsStoredPath(url, Trim(galleryName), tail) && !IsJsWhitespace(tail[|tail| - 1])
  {
    ResolveInternal(galleryName, value);
    ValueTailIsRest(value);
    NameIsSegment(galleryName);
    StoredUnderName(Trim(galleryName), ResolvedTail(Trim(value)));
  }

  /** A non-blank trimmed gallery name without `/` is a path segment. */
  lemma NameIsSegment(name: string)
    requires Trim(name) != [] && forall i :: 0 <= i < |Trim(name)| ==> Trim(name)[i] != '/'
    ensures IsSegment(Trim(name))
  {
  }

  /** The tail appended for a non-blank value is capturable and ends in text. */
  lemma ValueTailIsRest(value: string)
    requires Trim(value) != []
    ensures var t := ResolvedTail(Trim(value)); IsRest(t) && !IsJsWhitespace(t[|t| - 1])
  {
    TrimmedEndsInText(value);
    ResolvedTailIsRest(Trim(value));
  }

  /** A value that is neither blank nor external gets the resolved tail under the folder. */
  lemma ResolveInternal(galleryName: string, value: string)
    requires Trim(galleryName) != [] && Trim(value) != []
    requires !IsExternalReference(Trim(value))
    ensures ResolveGalleryImageUrl(galleryName, value)
      == UploadsPrefix + Trim(galleryName) + "/" + ResolvedTail(Trim(value))
  {
  }

  /** A name without `/` and a capturable tail form a stored path. */
  lemma StoredUnderName(seg: string, tail: string)
    requires IsSegment(seg) && IsRest(tail)
    ensures IsStoredPath(UploadsPrefix + seg + "/" + tail, seg, tail)
  {
  }

  /** Resolving is idempotent for a gallery name without `/` and a non-blank value. */
  lemma ResolveIdempotent(galleryName: string, value: string)
    requires forall i :: 0 <= i < |Trim(galleryName)| ==> Trim(galleryName)[i] != '/'
    requires Trim(value) != []
    ensures ResolveGalleryImageUrl(galleryName, ResolveGalleryImageUrl(galleryName, value))
      == ResolveGalleryImageUrl(galleryName, value)
  {
    if Trim(galleryName) != [] {
      ResolveRenameTransparent(galleryName, galleryName, value);
    }
  }

  lemma FileNameIsNotExternal(f: string)
    requires forall i :: 0 <= i < |f| ==> IsFileNameChar(f[i])
    ensures !IsExternalReference(f)
  {
    if |f| >= 5 {
      assert !IsFileNameChar(':');
      assert f[4] != ':' && (|f| < 6 || f[5] != ':');
    }
  }

  lemma FileNameIsNotStored(f: string)
    requires forall i :: 0 <= i < |f| ==> IsFileNameChar(f[i])
    ensures StoredPathParts(f).None?
  {
    if f != [] { assert f[0] != '/'; }
  }

  lemma SanitizedNameResolvesToItself(f: string)
    requires forall i :: 0 <= i < |f| ==> IsFileNameChar(f[i])
    requires f != []
    ensures Trim(f) == f
    ensures !IsExternalReference(f)
    ensures ResolvedTail(f) == SanitizeGalleryFileName(f)
  {
    FileNameCharIsPlain(f[0]);
    FileNameCharIsPlain(f[|f| - 1]);
    TrimKeepsTrimmed(f);
    FileNameIsNotExternal(f);
    FileNameIsNotStored(f);
    forall i | 0 <= i < |f| ensures !IsPathSeparator(f[i]) {
      FileNameCharIsPlain(f[i]);
    }
    LastSegmentOfPlain(f);
  }

  /** A name of the sanitised shape resolves to itself under the gallery's folder. */
  lemma ResolveSanitizedName(galleryName: string, f: string)
    requires Trim(galleryName) != []
    requires IsSanitizedName(f)
    ensures ResolveGalleryImageUrl(galleryName, f) == UploadsPrefix + Trim(galleryName) + "/" + f
  {
    SanitizedNameChars(f);
    SanitizedNameResolvesToItself(f);
    SanitizedNameIsFixed(f);
  }

  /** An upload's sanitised file name resolves to that name under the gallery's folder. */
  lemma ResolveSanitizedFileName(galleryName: string, originalName: string)
    requires Trim(galleryName) != []
    ensures var f := SanitizeGalleryFileName(originalName);
      ResolveGalleryImageUrl(galleryName, f) == UploadsPrefix + Trim(galleryName) + "/" + f
  {
    ResolveSanitizedName(galleryName, SanitizeGalleryFileName(originalName));
  }

  lemma Regroup(p: string, a: string, sep: string, b: string, f: string)
    ensures p + (a + sep + b) + sep + f == p + a + sep + (b + sep + f)
  {
  }

  lemma AppendThree(p: string, x: string, y: string, z: string)
    ensures p + (x + y + z) == p + x + y + z
  {
  }

  lemma SlashRestIsRest(b: string, f: string)
    requires IsSegment(b) && forall i :: 0 <= i < |b| ==> !IsLineTerminator(b[i])
    requires IsRest(f) && !IsJsWhitespace(f[|f| - 1])
    ensures IsRest(b + "/" + f) && !IsJsWhitespace((b + "/" + f)[|b + "/" + f| - 1])
  {
    var rest := b + "/" + f;
    forall i | 0 <= i < |rest| ensures !IsLineTerminator(rest[i]) {
      if i > |b| { assert rest[i] == f[i - |b| - 1]; }
    }
  }

  /** Under the old name `a/b`, a file resolves to a stored path with segment `a`. */
  lemma SlashNameResolvesFile(a: string, b: string, f: string)
    requires IsSegment(a) && IsSegment(b)
    requires !IsJsWhitespace(a[0]) && !IsJsWhitespace(b[|b| - 1])
    requires forall i :: 0 <= i < |b| ==> !IsLineTerminator(b[i])
    requires IsSanitizedName(f)
    ensures var rest := b + "/" + f;
      ResolveGalleryImageUrl(a + "/" + b, f) == UploadsPrefix + a + "/" + rest
      && IsStoredPath(UploadsPrefix + a + "/" + rest, a, rest) && !IsJsWhitespace(rest[|rest| - 1])
  {
    var oldName := a + "/" + b;
    assert oldName[0] == a[0] && oldName[|oldName| - 1] == b[|b| - 1];
    TrimKeepsTrimmed(oldName);
    ResolveSanitizedName(oldName, f);
    SanitizedNameChars(f);
    SanitizedNameIsRest(f);
    SlashRestIsRest(b, f);
    Regroup(UploadsPrefix, a, "/", b, f);
  }

  /** Why the rename lemma needs an old name without `/`: under the old name `a/b`, a file
      resolves to `/uploads/a/b/<file>`, which a later resolve reads as a stored path with
      segment `a`, so `b/` stays in front of the file. */
  lemma ResolveSlashNameNotTransparent(a: string, b: string, newName: string, f: string)
    requires IsSegment(a) && IsSegment(b)
    requires !IsJsWhitespace(a[0]) && !IsJsWhitespace(b[|b| - 1])
    requires forall i :: 0 <= i < |b| ==> !IsLineTerminator(b[i])
    requires IsSanitizedName(f)
    requires Trim(newName) != []
    ensures ResolveGalleryImageUrl(newName, ResolveGalleryImageUrl(a + "/" + b, f))
        == UploadsPrefix + Trim(newName) + "/" + b + "/" + f
    ensures ResolveGalleryImageUrl(newName, f) == UploadsPrefix + Trim(newName) + "/" + f
    ensures ResolveGalleryImageUrl(newName, ResolveGalleryImageUrl(a + "/" + b, f))
        != ResolveGalleryImageUrl(newName, f)
  {
    var rest := b + "/" + f;
    SlashNameResolvesFile(a, b, f);
    ResolveStoredUrl(newName, UploadsPrefix + a + "/" + rest, a, rest);
    ResolveSanitizedName(newName, f);
    assert UploadsPrefix + Trim(newName) + "/" + rest == UploadsPrefix + Trim(newName) + "/" + b + "/" + f by {
      AppendThree(UploadsPrefix + Trim(newName) + "/", b, "/", f);
    }
  }

  /** Why the idempotence lemma needs a gallery name without `/`: re-resolving under `a/b`
      keeps one more `b/` in front of the file. */
  lemma ResolveSlashNameNotIdempotent(a: string, b: string, f: string)
    requires IsSegment(a) && IsSegment(b)
    requires !IsJsWhitespace(a[0]) && !IsJsWhitespace(b[|b| - 1])
    requires forall i :: 0 <= i < |b| ==> !IsLineTerminator(b[i])
    requires IsSanitizedName(f)
    ensures var name := a + "/" + b;
      ResolveGalleryImageUrl(name, ResolveGalleryImageUrl(name, f))
        == UploadsPrefix + name + "/" + b + "/" + f
      && ResolveGalleryImageUrl(name, f) == UploadsPrefix + name + "/" + f
      && ResolveGalleryImageUrl(name, ResolveGalleryImageUrl(name, f)) != ResolveGalleryImageUrl(name, f)
  {
    var name := a + "/" + b;
    assert name[0] == a[0] && name[|name| - 1] == b[|b| - 1];
    TrimKeepsTrimmed(name);
    ResolveSlashNameNotTransparent(a, b, name, f);
  }

  /** Why the idempotence lemma needs a non-blank value: a blank value resolves to the
      gallery's folder `/uploads/<name>`, which a second resolve reads as a bare file `<name>`. */
  lemma ResolveBlankValueNotIdempotent(name: string, value: string)
    requires IsSanitizedName(name)
    requires forall i :: 0 <= i < |value| ==> IsJsWhitespace(value[i])
    ensures ResolveGalleryImageUrl(name, value) == UploadsPrefix + name
    ensures ResolveGalleryImageUrl(name, ResolveGalleryImageUrl(name, value)) == UploadsPrefix + name + "/" + name
    ensures ResolveGalleryImageUrl(name, ResolveGalleryImageUrl(name, value)) != ResolveGalleryImageUrl(name, value)
  {
    SanitizedNameChars(name);
    FileNameCharIsPlain(name[0]);
    FileNameCharIsPlain(name[|name| - 1]);
    TrimKeepsTrimmed(name);
    ResolveBlankValue(name, value);
    BlankValueFolderIsBareFile(name);
  }

  /** `/uploads/<name>` for a sanitised name is not a stored path and its last segment is
      the name itself. */
  lemma BlankValueFolderIsBareFile(name: string)
    requires IsSanitizedName(name)
    ensures Trim(UploadsPrefix + name) == UploadsPrefix + name
    ensures !IsExternalReference(UploadsPrefix + name)
    ensures ResolvedTail(UploadsPrefix + name) == name
  {
    var v := UploadsPrefix + name;
    SanitizedNameChars(name);
    FileNameCharIsPlain(name[|name| - 1]);
    assert v[0] == '/' && v[|v| - 1] == name[|name| - 1];
    TrimKeepsTrimmed(v);
    SlashIsNotExternal(v);
    forall i | 0 <= i < |name| ensures !IsPathSeparator(name[i]) {
      FileNameCharIsPlain(name[i]);
    }
    assert v[..|UploadsPrefix|] == UploadsPrefix && v[|UploadsPrefix|..] == name;
    assert IndexOf(name, '/') < 0;
    assert v == "/uploads" + ['/'] + name;
    LastSegmentAfterSeparator("/uploads", '/', name);
    SanitizedNameIsFixed(name);
  }
}
