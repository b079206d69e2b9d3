# Gallery upload paths and directories, in Dafny

This project models the two helper libraries behind the photo galleries of the blog's upload
area:

- `src/lib/galleryPaths.ts` holds two pure helpers.
  - `sanitizeGalleryFileName` turns an untrusted upload name into a bounded file name.
    The result has a base of `[A-Za-z0-9_-]` and an optional lower-case extension.
  - `resolveGalleryImageUrl` maps a stored image reference to the canonical
    `/uploads/<gallery name>/...` URL. A reference is blank, external, a stored path, or a bare
    file name.
- `src/lib/fs-server.ts` holds the path constants and the following operations.
  - `uniqueName` is a pure sanitise-and-suffix function.
  - `ensureDir`, `ensureGalleryDir` and `renameGalleryFolder` change the set of existing
    directories under the upload root.

The Dafny modules follow that split:

- `JsStrings` (`js_strings.dfy`) states, over Dafny strings, the JavaScript string built-ins
  the helpers call: `trim` with the full ECMAScript white-space set, `lastIndexOf`,
  `startsWith` and ASCII `toLowerCase`. It also holds `IndexOf`, the first occurrence of a
  character, which renders the `[^/]+\/` part of the stored-path pattern.
- `GalleryPaths` (`gallery_paths.dfy`) holds the sanitiser and the resolver as functions. Lemmas
  cover the following.
  - The output shape of the sanitiser and its idempotence.
  - What the sanitiser ignores: leading directories, and everything from a query or fragment
    mark on.
  - The dot-file rule.
  - The exact output of every resolver branch.
  - Re-resolving under a renamed gallery gives the same URL, and resolving twice under one
    name gives the same URL as resolving once. Both are proved for a non-blank value and a
    gallery name without `/` (for renaming, a non-blank new name too). Counterexamples show
    that both restrictions on idempotence are needed, and that the `/` one is needed for
    renaming.
- `DirTree` (`dir_tree.dfy`) is the file-system semantics the operations rely on.
  - Directories are a set of path strings.
  - `mkdir -p` adds a path and its ancestors.
  - `renameSync` moves a subtree.
  - The invariant that every ancestor of an existing directory exists is preserved.
- `FsServer` (`fs_server.dfy`) holds the pure `UniqueName` with its lemmas. It also holds the
  class `UploadDirs`:
  - the class keeps the directory set in a field;
  - its methods `EnsureDir`, `EnsureGalleryDir`, `RenameDir` (the `renameSync` step) and
    `RenameGalleryFolder` update that field in place;
  - each method is proved to produce the outcome and directory set of a specification function;
  - lemmas about those functions carry the properties the code promises.

Failures that the JavaScript raises as exceptions are modelled as `Err` results:
`mkdirSync("")`, the missing-slug error, and the `renameSync` errors.

Some concrete behaviour of the code:

- `sanitizeGalleryFileName("My Photo!! (1).JPG")` returns `My_Photo____1_.jpg`
  (`SanitizeWorkedExample`). Each of the five characters `!`, `!`, space, `(` and `)` becomes
  its own `_`, and the extension is lower-cased.
- The empty name gives `image` (`SanitizeEmptyExample`). The timestamp fallback
  `image-<time>` is returned only for non-string input.
- `ensureGalleryDir` takes one slug and rejects only an empty one.
- `renameGalleryFolder` takes two slugs. Errors from `renameSync` propagate to the caller.

## Model

| member | source | states |
|---|---|---|
| JsStrings.IsJsWhitespace | src/lib/galleryPaths.ts:7 | the characters `trim` strips: ECMAScript white space (tab, vertical tab, form feed, space, no-break space, byte order mark and the space separators) and the line terminators |
| JsStrings.LeadingWhitespace | src/lib/galleryPaths.ts:7 | the count of characters `trim` drops at the front covers only white space and stops at the first non-white-space character |
| JsStrings.TrailingWhitespace | src/lib/galleryPaths.ts:7 | the count of characters `trim` drops at the end covers only white space and stops at the last non-white-space character |
| JsStrings.Trim | src/lib/galleryPaths.ts:7 | `trim` is `trimEnd` after `trimStart`; its properties are the lemmas `TrimSpec`, `TrimmedEndsInText`, `TrimIdempotent` and `TrimIsBlankIffAllWhitespace` |
| JsStrings.TrimStart | src/lib/galleryPaths.ts:7 | the input after its leading white space (see `LeadingWhitespace`) |
| JsStrings.TrimEnd | src/lib/galleryPaths.ts:7 | the input before its trailing white space (see `TrailingWhitespace`) |
| JsStrings.TrimSpec | src/lib/galleryPaths.ts:7 | `trim(s)` is the slice of `s` after its leading white space; everything cut off at either end is white space, and the result is empty or starts and ends with text |
| JsStrings.TrimmedEndsInText | src/lib/galleryPaths.ts:7 | a trimmed string is empty or neither starts nor ends with white space |
| JsStrings.TrimIdempotent | src/lib/galleryPaths.ts:30 | trimming twice is trimming once |
| JsStrings.TrimIsSlice | src/lib/galleryPaths.ts:7 | the trimmed string is a contiguous piece of the input, starting after the leading white space |
| JsStrings.TrimStartIsBlankIffAllWhitespace | src/lib/galleryPaths.ts:22 | `trimStart` gives the empty string exactly when every character is white space |
| JsStrings.TrailingWhitespaceStopsAtText | src/lib/galleryPaths.ts:7 | trimming the end never removes a non-white-space first character |
| JsStrings.TrimIsBlankIffAllWhitespace | src/lib/galleryPaths.ts:21-22 | `trim` gives the empty string exactly when every character is white space (both directions) |
| JsStrings.LeadingWhitespaceBeforeText | src/lib/galleryPaths.ts:7 | text after a non-blank character does not affect how much leading white space is dropped |
| JsStrings.TrailingWhitespaceAfterText | src/lib/galleryPaths.ts:7 | text before a non-blank character does not affect how much trailing white space is dropped |
| JsStrings.TrimStartBeforeText | src/lib/galleryPaths.ts:7 | `trimStart(a + b)` is `trimStart(a) + b` when `b` starts with text |
| JsStrings.TrimEndKeepsText | src/lib/galleryPaths.ts:7 | trimming the end of a string that starts with text keeps that first character |
| JsStrings.TrimAroundText | src/lib/galleryPaths.ts:7-8 | `trim(a + b)` trims `a` at its start only and `b` at its end only when `b` starts with text |
| JsStrings.TrimKeepsTrimmed | src/lib/galleryPaths.ts:30 | a string without white space at either end is its own trim |
| JsStrings.LastIndexOf | src/lib/galleryPaths.ts:9 | the result is -1 or an index holding the character, and no later index holds it |
| JsStrings.IndexOf | src/lib/galleryPaths.ts:39 | the result is -1 or an index holding the character, and no earlier index holds it |
| JsStrings.StartsWith | src/lib/galleryPaths.ts:35 | `startsWith(prefix)`: the string's first characters are exactly the prefix |
| JsStrings.AsciiLower | src/lib/galleryPaths.ts:14 | same length; each character is lower-cased if it is an ASCII capital and kept otherwise |
| GalleryPaths.LastSegment | src/lib/galleryPaths.ts:6 | the result is a suffix of the input, free of `/` and `\`, and preceded by a separator whenever it is not the whole input |
| GalleryPaths.BeforeQuery | src/lib/galleryPaths.ts:8 | the result is a prefix of the input, free of `?` and `#`, and followed by one of them whenever it is not the whole input |
| GalleryPaths.FileStem | src/lib/galleryPaths.ts:6-8 | the kept stem contains no path separator and no `?` or `#` |
| GalleryPaths.Underscored | src/lib/galleryPaths.ts:13 | same length; every character of `[A-Za-z0-9_-]` is kept in place and every other one becomes `_` |
| GalleryPaths.AlnumOnly | src/lib/galleryPaths.ts:14 | only ASCII letters and digits remain, no longer than the input; an all-alphanumeric input is kept; a single character is kept exactly when it is a letter or digit |
| GalleryPaths.AlnumOnlyAppend | src/lib/galleryPaths.ts:14 | the filter works piece by piece: filtering `a + b` is filtering `a`, then `b`; with the one-character case, every letter and digit survives in order and nothing else does |
| GalleryPaths.Prefix | src/lib/galleryPaths.ts:13-14 | `slice(0, n)` is the prefix of length exactly `n`, or the whole string when it is no longer than `n` |
| GalleryPaths.SafeBase | src/lib/galleryPaths.ts:13 | the base is 1 to 80 characters of `[A-Za-z0-9_-]`; an already safe base is kept |
| GalleryPaths.SafeExt | src/lib/galleryPaths.ts:14 | the extension is at most 12 lower-case letters or digits; an already safe extension is kept |
| GalleryPaths.SafeBaseOfRaw | src/lib/galleryPaths.ts:13 | an empty raw base gives `image`; otherwise the base has the first 80 (or fewer) characters of the raw base, each kept when in `[A-Za-z0-9_-]` and `_` otherwise |
| GalleryPaths.SafeExtOfRaw | src/lib/galleryPaths.ts:14 | the extension is the first 12 (or fewer) letters and digits of the raw extension, in order, lower-cased |
| GalleryPaths.SanitizedNameChars | src/lib/galleryPaths.ts:13-16 | every name of the sanitised shape is non-empty and uses only `[A-Za-z0-9_.-]` |
| GalleryPaths.JoinExtension | src/lib/galleryPaths.ts:16 | a safe base and a safe extension join into a name of the sanitised shape; an empty extension gives the base alone, and otherwise the last dot sits right after the base, with the base before it and the extension after it |
| GalleryPaths.SanitizeStem | src/lib/galleryPaths.ts:9-16 | splitting at the last dot past index 0 and sanitising both parts gives a name of the sanitised shape |
| GalleryPaths.SanitizeGalleryFileName | src/lib/galleryPaths.ts:1-17 | never empty, only `[A-Za-z0-9_.-]`; a base of at most 80 characters, then optionally one dot and 1 to 12 lower-case letters or digits |
| GalleryPaths.LastSegmentOfPlain | src/lib/galleryPaths.ts:6 | a string without separators is its own last segment |
| GalleryPaths.BeforeQueryOfPlain | src/lib/galleryPaths.ts:8 | a string without `?` or `#` is kept whole |
| GalleryPaths.PlainNameIsOwnStem | src/lib/galleryPaths.ts:6-8 | a name of `[A-Za-z0-9_.-]` passes the separator, trim and query steps unchanged |
| GalleryPaths.SanitizeStemKeepsSanitized | src/lib/galleryPaths.ts:9-16 | the split-and-filter step leaves a sanitised name unchanged |
| GalleryPaths.SanitizedNameIsFixed | src/lib/galleryPaths.ts:6-16 | every name of the sanitised shape is a fixed point of the sanitiser |
| GalleryPaths.SanitizeIdempotent | src/lib/galleryPaths.ts:6-16 | sanitising a sanitised name returns it unchanged |
| GalleryPaths.LastSegmentAfterSeparator | src/lib/galleryPaths.ts:6 | the last segment of `dir + sep + name` is `name` when `name` has no separator |
| GalleryPaths.SanitizeIgnoresDirectories | src/lib/galleryPaths.ts:6 | any directory part before the last `/` or `\` does not affect the result |
| GalleryPaths.BeforeQueryAtMark | src/lib/galleryPaths.ts:8 | the cut happens at the first `?` or `#` |
| GalleryPaths.StemOfPlainName | src/lib/galleryPaths.ts:6-8 | a separator-free, mark-free name without trailing white space has its front-trimmed self as stem |
| GalleryPaths.QueryStartIsText | src/lib/galleryPaths.ts:7-8 | `?` and `#` are not white space, so trimming stops at them |
| GalleryPaths.StemDropsQuery | src/lib/galleryPaths.ts:6-8 | appending a query or fragment to such a name does not change the stem |
| GalleryPaths.SanitizeDropsQuery | src/lib/galleryPaths.ts:7-8 | everything from the first `?` or `#` on is dropped from the result |
| GalleryPaths.NoExtensionWithoutInnerDot | src/lib/galleryPaths.ts:9-11 | a stem with no dot, or only a dot at index 0, gives a result without any dot |
| GalleryPaths.StemWithoutInnerDot | src/lib/galleryPaths.ts:9-11 | a stem with no dot past index 0 is sanitised as a base alone, with no extension |
| GalleryPaths.SafeBaseHasNoDot | src/lib/galleryPaths.ts:13 | a sanitised base contains no dot |
| GalleryPaths.StemOfSimpleName | src/lib/galleryPaths.ts:6-8 | a separator-free, mark-free name without white space at either end is its own stem |
| GalleryPaths.SanitizeEmptyExample | src/lib/galleryPaths.ts:13 | the empty name sanitises to `image` |
| GalleryPaths.SanitizeWorkedExample | src/lib/galleryPaths.ts:1-17 | `My Photo!! (1).JPG` sanitises to `My_Photo____1_.jpg` |
| GalleryPaths.ExampleStem | src/lib/galleryPaths.ts:9-16 | the stem `My Photo!! (1).JPG` splits at index 14 into `My_Photo____1_` and `jpg` |
| GalleryPaths.ExampleLastDot | src/lib/galleryPaths.ts:9 | the last dot of `My Photo!! (1).JPG` is at index 14 |
| GalleryPaths.ExampleBase | src/lib/galleryPaths.ts:13 | the base `My Photo!! (1)` becomes `My_Photo____1_` |
| GalleryPaths.ExampleExt | src/lib/galleryPaths.ts:14 | the extension `JPG` becomes `jpg` |
| GalleryPaths.DotfileSanitizeStem | src/lib/galleryPaths.ts:9-13 | a dot-file stem keeps its length and has its leading dot replaced by `_` |
| GalleryPaths.MatchesFolded | src/lib/galleryPaths.ts:35 | a character matches a lower-case pattern letter under the `iu` flags: its ASCII lower case is that letter, or it is the long s and the letter is `s` |
| GalleryPaths.HasHttpScheme | src/lib/galleryPaths.ts:35 | the value starts with `http://` or `https://` in any case, the long s counting as `s` |
| GalleryPaths.IsExternalReference | src/lib/galleryPaths.ts:35 | an `http(s)://` URL or a value starting with `data:`; see `ResolveExternal`, `SlashIsNotExternal` and `FileNameIsNotExternal` |
| GalleryPaths.IsStoredPath | src/lib/galleryPaths.ts:39 | the value is `/uploads/` or `/galleries/`, a `/`-free segment, `/`, and a non-empty rest without line terminators; `StoredPathParts` and `StoredPathPartsComplete` show the matcher finds exactly these |
| GalleryPaths.ResolvedTail | src/lib/galleryPaths.ts:39-46 | the captured rest of a stored path, otherwise the sanitised last path segment; see `ResolvedTailIsRest` |
| GalleryPaths.ResolveGalleryImageUrl | src/lib/galleryPaths.ts:19-47 | the resolver; each branch is stated by `ResolveBlankName`, `ResolveBlankValue`, `ResolveExternal`, `ResolveStoredPath` and `ResolveBareFile` |
| GalleryPaths.DotfileHasNoExtension | src/lib/galleryPaths.ts:9-13 | `.name` sanitises to `_name`: a leading dot does not start an extension |
| GalleryPaths.AfterStoredPrefix | src/lib/galleryPaths.ts:39 | when found, the input is `/uploads/` or `/galleries/` followed by the returned text |
| GalleryPaths.SegmentAndRest | src/lib/galleryPaths.ts:39 | when found, the text is a non-empty `/`-free segment, a `/`, and a non-empty rest without line terminators |
| GalleryPaths.StoredPathParts | src/lib/galleryPaths.ts:39-40 | a match is a genuine stored path with that segment and captured rest |
| GalleryPaths.SegmentAndRestComplete | src/lib/galleryPaths.ts:39 | every segment/rest pair is found again by the splitter |
| GalleryPaths.StoredPathPartsComplete | src/lib/galleryPaths.ts:39-41 | every stored path matches, and its segment and rest are the only possible ones |
| GalleryPaths.ResolveBlankName | src/lib/galleryPaths.ts:20-22 | a blank or white-space-only gallery name returns the value unchanged |
| GalleryPaths.ResolveBlankValue | src/lib/galleryPaths.ts:24-33 | a blank value returns `/uploads/` + the trimmed gallery name |
| GalleryPaths.ResolveExternal | src/lib/galleryPaths.ts:35-37 | an `http://`, `https://` (any case) or `data:` reference is returned trimmed |
| GalleryPaths.SlashIsNotExternal | src/lib/galleryPaths.ts:35 | a value starting with `/` is never taken for an external reference |
| GalleryPaths.ResolveStoredPath | src/lib/galleryPaths.ts:39-42 | a stored `/uploads/<seg>/<rest>` or `/galleries/<seg>/<rest>` becomes `/uploads/<trimmed name>/<rest>` |
| GalleryPaths.ResolveBareFile | src/lib/galleryPaths.ts:44-46 | any other value becomes `/uploads/<trimmed name>/` + its sanitised last path segment |
| GalleryPaths.SanitizedNameIsRest | src/lib/galleryPaths.ts:39 | a sanitised name can be captured as the rest of a stored path |
| GalleryPaths.ResolveStoredUrl | src/lib/galleryPaths.ts:30-42 | an untrimmed stored path without trailing white space is rebuilt under the gallery folder |
| GalleryPaths.StoredPathEndsWithRest | src/lib/galleryPaths.ts:39-42 | a stored path ends with the last character of its captured rest |
| GalleryPaths.SanitizedTailIsRest | src/lib/galleryPaths.ts:44-46 | the sanitised file part is capturable and ends in text |
| GalleryPaths.ResolvedTailIsRest | src/lib/galleryPaths.ts:39-46 | whatever the resolver appends after the gallery folder is capturable as a stored rest |
| GalleryPaths.ResolveRenameTransparent | src/lib/galleryPaths.ts:19-47 | re-resolving a URL built under an old gallery name gives the URL the original value gets under the new name |
| GalleryPaths.ResolveInternal | src/lib/galleryPaths.ts:30-46 | a value that is neither blank nor external resolves to `/uploads/<trimmed name>/` + its resolved tail |
| GalleryPaths.StoredUnderName | src/lib/galleryPaths.ts:39 | `/uploads/<seg>/<tail>` is a stored path with that segment and rest |
| GalleryPaths.ResolvedIsStored | src/lib/galleryPaths.ts:24-46 | under a `/`-free gallery name, a value that is neither blank nor external resolves to a stored path with the name as segment and the resolved tail as rest |
| GalleryPaths.NameIsSegment | src/lib/galleryPaths.ts:21-24 | a non-blank trimmed gallery name without `/` can be the segment of a stored path |
| GalleryPaths.RenameExternal | src/lib/galleryPaths.ts:30-37 | for an external reference, re-resolving under a new name gives what resolving the value under it gives: the trimmed reference |
| GalleryPaths.RenameInternal | src/lib/galleryPaths.ts:30-46 | for a value that is neither blank nor external and an old name without `/`, re-resolving under a new name gives what resolving the value under it gives |
| GalleryPaths.ValueTailIsRest | src/lib/galleryPaths.ts:30-46 | the tail appended for a non-blank value is capturable as a stored rest and ends in text |
| GalleryPaths.ResolveIdempotent | src/lib/galleryPaths.ts:19-47 | resolving a resolved URL under the same gallery name changes nothing |
| GalleryPaths.FileNameIsNotExternal | src/lib/galleryPaths.ts:35 | a name of `[A-Za-z0-9_.-]` is never external |
| GalleryPaths.FileNameIsNotStored | src/lib/galleryPaths.ts:39 | a name of `[A-Za-z0-9_.-]` never matches the stored-path pattern |
| GalleryPaths.SanitizedNameResolvesToItself | src/lib/galleryPaths.ts:30-46 | such a name is its own trim, is not external, and the resolver appends its sanitised form |
| GalleryPaths.ResolveSanitizedName | src/lib/galleryPaths.ts:19-47 | a name of the sanitised shape resolves to `/uploads/<trimmed name>/<name>` |
| GalleryPaths.ResolveSanitizedFileName | src/lib/galleryPaths.ts:1-47 | an upload's sanitised file name resolves to that very name under the gallery folder |
| GalleryPaths.SlashRestIsRest | src/lib/galleryPaths.ts:39 | `b/<file>` is a capturable rest |
| GalleryPaths.SlashNameResolvesFile | src/lib/galleryPaths.ts:39-46 | under a gallery name `a/b` a file resolves to `/uploads/a/b/<file>`, a stored path with segment `a` |
| GalleryPaths.ResolveSlashNameNotTransparent | src/lib/galleryPaths.ts:19-47 | with an old gallery name containing `/`, re-resolving keeps `b/` before the file and differs from a fresh resolve |
| GalleryPaths.ResolveSlashNameNotIdempotent | src/lib/galleryPaths.ts:19-47 | under a gallery name `a/b`, resolving a file twice gives `/uploads/a/b/b/<file>`, which differs from resolving it once |
| GalleryPaths.ResolveBlankValueNotIdempotent | src/lib/galleryPaths.ts:24-46 | a blank value resolves to `/uploads/<name>`, and resolving that again gives `/uploads/<name>/<name>` |
| GalleryPaths.BlankValueFolderIsBareFile | src/lib/galleryPaths.ts:30-46 | `/uploads/<name>` for a sanitised name is its own trim, is not external, and its appended tail is `<name>` |
| DirTree.Ancestors | src/lib/fs-server.ts:10 | the set holds exactly the proper ancestor directories of the path |
| DirTree.MkdirP | src/lib/fs-server.ts:10 | recursive `mkdir` adds the path and all its ancestors; see `MkdirPCreates` and `MkdirPKeepsClosed` |
| DirTree.EnsureDirState | src/lib/fs-server.ts:9-11 | the directory set after `ensureDir` of a non-empty path; see `EnsureDirIsMkdirP` and `EnsureDirIdempotent` |
| DirTree.Moved | src/lib/fs-server.ts:49 | the directory set after `renameSync(from, to)`: the subtree at `from` is re-rooted at `to`; see `MovedSubtree`, `MovedElsewhereUnchanged` and `MovedKeepsClosed` |
| DirTree.Dirname | src/lib/fs-server.ts:48 | `path.dirname`: the text before the last `/`, `/` for a top-level entry, `.` without a `/`; see `AncestorsOfParent` |
| DirTree.LastSlash | src/lib/fs-server.ts:48 | -1 or the index of a `/` with no `/` after it |
| DirTree.AncestorTransitive | src/lib/fs-server.ts:10 | an ancestor of an ancestor is an ancestor |
| DirTree.MkdirPKeepsClosed | src/lib/fs-server.ts:10 | recursive `mkdir` keeps every ancestor of every directory in existence |
| DirTree.MkdirPCreates | src/lib/fs-server.ts:10 | recursive `mkdir` creates the path, removes nothing, and adds only the path and its ancestors |
| DirTree.MkdirPExisting | src/lib/fs-server.ts:10 | recursive `mkdir` of an existing directory changes nothing |
| DirTree.EnsureDirIsMkdirP | src/lib/fs-server.ts:9-11 | the existence check of `ensureDir` does not change its effect |
| DirTree.EnsureDirIdempotent | src/lib/fs-server.ts:9-11 | a second `ensureDir` of the same path changes nothing |
| DirTree.AncestorsOfParent | src/lib/fs-server.ts:48 | every ancestor of a path is its `dirname` or an ancestor of it |
| DirTree.EnsureParentGivesAncestors | src/lib/fs-server.ts:48 | after `ensureDir(dirname(p))` every ancestor of `p` exists |
| DirTree.MovedKeepsFixed | src/lib/fs-server.ts:49 | the ancestors of a directory outside the moved subtree still exist after the move |
| DirTree.MovedKeepsMoved | src/lib/fs-server.ts:49 | the ancestors of a moved directory exist after the move |
| DirTree.MovedKeepsClosed | src/lib/fs-server.ts:49 | moving a subtree to a place outside itself whose ancestors exist keeps the tree closed |
| DirTree.MovedImageIsNotSource | src/lib/fs-server.ts:49 | no moved directory lands on the old source path |
| DirTree.MovedTargetNotSource | src/lib/fs-server.ts:49 | after the move the target exists and the source does not |
| DirTree.MovedSubtreeForward | src/lib/fs-server.ts:49 | everything below the source reappears below the target |
| DirTree.TargetSubtreeAbsent | src/lib/fs-server.ts:49 | nothing exists below a directory that does not exist |
| DirTree.MovedSubtreeBackward | src/lib/fs-server.ts:49 | everything below the target after the move came from below the source |
| DirTree.MovedSubtree | src/lib/fs-server.ts:49 | `to + s` exists after the move exactly when `from + s` existed before |
| DirTree.MovedElsewhereUnchanged | src/lib/fs-server.ts:49 | directories outside both subtrees are untouched by the move |
| FsServer.PublicDir | src/lib/fs-server.ts:5 | the upload root `/root/projects/blog-uploads` |
| FsServer.GalleriesDir | src/lib/fs-server.ts:6 | the gallery root, `galleries` joined under the upload root |
| FsServer.Join | src/lib/fs-server.ts:17 | joining a segment gives the directory, one `/`, and the segment; an empty segment gives the directory |
| FsServer.IsUploadNameChar | src/lib/fs-server.ts:35 | the characters `/[^a-z0-9\-_.]/gi` leaves alone: ASCII letters of either case, digits, `-`, `_` and `.` |
| FsServer.Utf16Length | src/lib/fs-server.ts:35 | the UTF-16 length lies between the character count and twice it |
| FsServer.ReplaceUnsafe | src/lib/fs-server.ts:35 | the result uses only `[A-Za-z0-9_.-]` and has one character per UTF-16 unit of the input; `ReplaceUnsafeChar` and `ReplaceUnsafeAppend` pin its value |
| FsServer.ReplaceUnsafeInPlace | src/lib/fs-server.ts:35 | without astral characters, each character is kept when safe and replaced by `_` otherwise |
| FsServer.ReplaceUnsafeKeepsSafe | src/lib/fs-server.ts:35 | a string of safe characters is left as it is |
| FsServer.ReplaceUnsafeChar | src/lib/fs-server.ts:35 | one character becomes itself when safe, `__` when it lies outside the Basic Multilingual Plane, and `_` otherwise |
| FsServer.ReplaceUnsafeAppend | src/lib/fs-server.ts:35 | the replacement works piece by piece, so with `ReplaceUnsafeChar` every safe character survives in place, astral input included |
| FsServer.CollapseDots | src/lib/fs-server.ts:35 | the result has no two adjacent dots, is no longer, is empty only for empty input, keeps the last character and keeps safety |
| FsServer.NonDots | src/lib/fs-server.ts:35 | the result contains no dot; a dot-free input is kept; a single character is dropped exactly when it is a dot |
| FsServer.NonDotsAppend | src/lib/fs-server.ts:35 | dropping dots works piece by piece, so every other character survives in order |
| FsServer.CollapseDotsRemovesOnlyDots | src/lib/fs-server.ts:35 | collapsing dot runs keeps every other character, in order |
| FsServer.CollapseDotsKeepsClean | src/lib/fs-server.ts:35 | a string without dot runs is left as it is |
| FsServer.CollapseDotsLast | src/lib/fs-server.ts:35 | a new last character is dropped exactly when it is a dot following a dot |
| FsServer.CollapseDotsJoin | src/lib/fs-server.ts:35 | collapsing `x + y` is collapsing `x`, then `y`, when no dot run straddles the seam |
| FsServer.CollapseDotsOfRun | src/lib/fs-server.ts:35 | a non-empty run of dots collapses to one dot |
| FsServer.CollapseDotsRun | src/lib/fs-server.ts:35 | a maximal run of dots between `a` and `b` becomes exactly one dot: the result is `collapse(a) + "." + collapse(b)` |
| FsServer.SafeUploadBase | src/lib/fs-server.ts:35 | `safeBase` uses only `[A-Za-z0-9_.-]`, has no two adjacent dots and is no longer than `base.length` |
| FsServer.SafeUploadBaseIdempotent | src/lib/fs-server.ts:35 | cleaning `safeBase` again changes nothing |
| FsServer.UniqueName | src/lib/fs-server.ts:32-37 | the name is `safeBase`, `-`, the eight-character id, `.`, and the extension lower-cased but not filtered |
| FsServer.UniqueNameSeparatesIds | src/lib/fs-server.ts:34-36 | different ids give different names for the same base and extension |
| FsServer.AsciiLowerAddsNoWhitespace | src/lib/fs-server.ts:36 | lower-casing introduces no white space |
| FsServer.UniqueNameIsRest | src/lib/fs-server.ts:36 | an upload name with a white-space-free extension is capturable as a stored rest and ends in text |
| FsServer.UploadedUrlResolves | src/lib/galleryPaths.ts:39-42 | an upload stored as `/galleries/<slug>/<uniqueName>` resolves to `/uploads/<gallery name>/<uniqueName>` |
| FsServer.EnsureDirSpec | src/lib/fs-server.ts:9-11 | `ensureDir`: the outcome and directory set; see `EnsureDirEffect` and `EnsureDirTwice` |
| FsServer.GalleryDirSpec | src/lib/fs-server.ts:13-20 | `ensureGalleryDir`: the result and directory set; see `GalleryDirEffect` and `GalleryDirTwice` |
| FsServer.ParentExists | src/lib/fs-server.ts:49 | the condition `renameSync` needs of its target, failing with ENOENT otherwise: the path is non-empty and its parent directory exists |
| FsServer.RenameDirSpec | src/lib/fs-server.ts:49 | `renameSync` of an existing directory: the errors it raises and the moved tree; see `RenameDirEffect` |
| FsServer.RenameGallerySpec | src/lib/fs-server.ts:44-53 | `renameGalleryFolder`: the outcome and directory set; see `RenameGalleryExisting`, `RenameGalleryMovesSubtree`, `RenameGalleryElsewhere` and `RenameGalleryMissing` |
| FsServer.EnsureDirEffect | src/lib/fs-server.ts:9-11 | `ensureDir` fails exactly on the empty path; otherwise the path exists, nothing is removed, an existing path changes nothing and the tree stays closed |
| FsServer.EnsureDirTwice | src/lib/fs-server.ts:9-11 | a second `ensureDir` of the same path gives the same result and changes nothing |
| FsServer.GalleryDirEffect | src/lib/fs-server.ts:13-20 | an empty slug fails and changes nothing; otherwise the result is `GALLERIES_DIR/slug`, which exists, and nothing is removed |
| FsServer.GalleryDirTwice | src/lib/fs-server.ts:13-20 | two calls with the same slug return the same path, and the second changes nothing |
| FsServer.ParentGivesAncestors | src/lib/fs-server.ts:48-49 | in a closed tree, an existing parent means every ancestor of the target exists |
| FsServer.RenameDirEffect | src/lib/fs-server.ts:49 | `renameSync` keeps the tree closed, changes nothing on failure, and on success makes the target exist and the source vanish |
| FsServer.GalleryPathShape | src/lib/fs-server.ts:45-46 | a gallery path is non-empty and has a `/` past its first character |
| FsServer.DirnameIsShorter | src/lib/fs-server.ts:48 | the parent of such a path is a non-empty, different path that satisfies the parent check |
| FsServer.RenameGalleryExisting | src/lib/fs-server.ts:47-49 | with an existing old folder, the rename succeeds exactly when the slugs name the same folder or the new one is neither inside the old one nor present; on success the new folder exists and a different old folder is gone |
| FsServer.RenameGalleryMissing | src/lib/fs-server.ts:50-52 | without an old folder, the new folder is created and nothing is removed |
| FsServer.ParentCreatesAncestorsOnly | src/lib/fs-server.ts:48 | `ensureDir(dirname(to))` creates only ancestors of `to` |
| FsServer.BelowSourceAncestor | src/lib/fs-server.ts:49 | a directory below the source that is an ancestor of the target puts the target below the source |
| FsServer.RenameGalleryMovesSubtree | src/lib/fs-server.ts:47-49 | after a successful move `new + s` exists exactly when `old + s` existed |
| FsServer.RenameGalleryElsewhere | src/lib/fs-server.ts:47-49 | outside both subtrees nothing is removed, and only missing ancestors of the new folder are added |
| FsServer.UploadDirs.EnsureDir | src/lib/fs-server.ts:9-11 | the result and new directory set are those of the `ensureDir` specification, and the tree stays closed |
| FsServer.UploadDirs.EnsureGalleryDir | src/lib/fs-server.ts:13-20 | the result and new directory set are those of the `ensureGalleryDir` specification, and the tree stays closed |
| FsServer.UploadDirs.RenameDir | src/lib/fs-server.ts:49 | the result and new directory set are those of the `renameSync` specification, and the tree stays closed |
| FsServer.UploadDirs.RenameGalleryFolder | src/lib/fs-server.ts:44-53 | the result and new directory set are those of the `renameGalleryFolder` specification, and the tree stays closed |

## Left out

- `writeBufferFile` and `copyLocalFile` (src/lib/fs-server.ts:22-42) are not modelled. They are byte-stream and file-copy I/O driven by asynchronous stream events.
- The random source is a parameter: `randomUUID().slice(0, 8)` becomes the `id` argument of `UniqueName`, required to be eight lower-case hex digits. The clock is not modelled: the `Date.now()` fallback name is used only for non-string input, which a Dafny `string` cannot be.
- `UPLOADS_DIR` (src/lib/fs-server.ts:7) is not used by the modelled functions and is not modelled.
- The `typeof` checks on the arguments cannot fail for Dafny strings and are not modelled.
- `path.join` is modelled as `dir + "/" + seg`, without collapsing `.`, `..` or repeated `/`. `path.dirname` is modelled as the text before the last `/`, without Node's special handling of trailing slashes.
- Files are not modelled; the model tracks directories only.
  - `renameSync` onto an existing directory is an error in the model. Linux would replace an empty target directory.
  - Permission and I/O failures are not modelled.
- `UniqueName` lower-cases ASCII letters only; the rest of Unicode case mapping in `toLowerCase` is not modelled.
- Concurrency between requests touching the same directories is not modelled.
- GalleryPaths.ResolveRenameTransparent: proved only for old gallery names without `/`, a non-blank new name and a non-blank value. `GalleryPaths.ResolveSlashNameNotTransparent` shows the property fails for an old name with `/`. For a blank value the first resolve returns the old gallery folder, which the second resolve reads as a bare file. With a blank new name the resolver returns its argument unchanged, so the left side is the URL under the old name and the right side is the raw value.
- GalleryPaths.ResolveIdempotent: proved only for a non-blank value and a gallery name without `/`. `GalleryPaths.ResolveBlankValueNotIdempotent` shows `""` under `n` gives `/uploads/n` and then `/uploads/n/n`. `GalleryPaths.ResolveSlashNameNotIdempotent` shows a file under `a/b` gives `/uploads/a/b/f` and then `/uploads/a/b/b/f`.
- GalleryPaths.SanitizeDropsQuery: proved for names without trailing white space, because trimming happens before the cut. The query must also contain no `/` or `\`. Otherwise only the text after its last separator is kept: `a.png?x=/b.png` gives `b.png`.
- FsServer.UploadedUrlResolves: proved for extensions without white space. A white-space extension would be trimmed away by the resolver.
- The route handlers, authentication, the Google Photos client, the React pages and their small helpers, the text-colour calculation and the database schemas are not part of this model.
- Some callers pass extra arguments to `ensureGalleryDir` and `renameGalleryFolder` (src/app/api/galleries/[id]/upload/route.ts:32, src/app/api/galleries/[id]/route.ts:41). JavaScript ignores them, and the model follows the declared parameters.
