# Web Video Player — catalog, thumbnail cache and page formatting, in Dafny

This project models the core of a small local media-library browser. The
backend and the two pages are modelled as follows.

**Backend.** The backend walks a video directory for files whose extension
is `.mp4`, `.mkv`, `.avi` or `.mov`, in any case. It makes a catalog entry
for each one. Each entry holds:

- `filename`;
- `title`: the name without its final extension;
- `relativePath`: the path from the root, joined with `/`;
- `url`: `/videos/` followed by that path.

`GET /api/videos` then selects entries as follows:

- when a search is given, all entries whose lower-cased title contains the
  trimmed, lower-cased query, in scan order and with no cap;
- otherwise, the first ten entries of a random shuffle, or all of them when
  the catalog has fewer than ten.

The backend attaches a thumbnail URL to every selected entry, or null when
the thumbnail is missing and its extraction fails. Thumbnails are kept in a
directory of PNG files named after the relative path, with `/` turned into
`_`. The backend extracts a thumbnail only when that file is missing.

The handler answers status 500 with "Failed to load videos" in three cases:

- the `search` parameter is an array or an object rather than a string;
- the video directory cannot be listed;
- some name below it cannot be stat'ed, or some directory below it cannot
  be listed.

In a tree where the names of one directory are distinct and no name holds
`/`, the catalog lists every video exactly once, and so does any selection.

**Library page.** The model covers:

- `formatDuration`;
- the duration badge;
- the "Found N video(s)" line;
- the choice between the grid and the empty state, with its heading;
- the link of each card.

**Player page.** The model covers:

- how the page derives the video's catalog URL and its display name from
  the route;
- `formatDuration`;
- the recommendation filter, which drops the current video and keeps at
  most four;
- the rename guard, which refuses a name that is blank once trimmed.

**Modules.**

| module | contents |
|---|---|
| `Wrappers` | `Option` |
| `Text` | the JavaScript string operations the core relies on, each with its defining property |
| `Seqs` | `filter` and `slice` on sequences |
| `Catalog` | the directory tree and the scan |
| `Thumbnails` | the thumbnail cache |
| `Recommend` | the GET handler |
| `Clock` | the duration fields, and the parser that reads a formatted duration back |
| `Player` | the player page |
| `Home` | the library page |

**How the scan is stated.** The scan is a pipeline with three steps:

1. enumerate every non-directory in walk order (`FilePaths`);
2. keep the videos (`Filter`);
3. make the entries (`Entries`).

The imperative `walkDirectory` is a method that is proved to push exactly
that sequence. Completeness and soundness lemmas then tie the catalog to the
files in the tree.

**How the thumbnail cache is stated.** The thumbnail directory is a class
with a set of file names that `GenerateThumbnail` updates. A pure function
`Generate` gives the same three outcomes, for use in lemmas:

- a hit;
- an extraction that succeeds;
- an extraction that fails.

The lemmas about the cache name state two things:

- it tells paths apart when they hold no `_`;
- it does not in general: `a/b.mp4` and `a_b.mp4` share `a_b.mp4.png`, so
  the second video is served the first one's image.

**Further behaviour of the handler.**

- A query that matches nothing is answered with `{videos: []}` and the
  normal status, not with an error.
- The scan walks the thumbnail directory like any other directory. Its PNG
  files never pass the extension test, so it adds nothing to the catalog.
- No entry carries a `duration` field.
- The `limit` query parameter is never read.

## Model

| member | source | states |
|---|---|---|
| Catalog.ExtNameIsFinal | backend/controllers/video-controller.js:30 | path.extname of a file name is empty or a final `.ext` that ends the name and holds no other dot; it is empty exactly for a name without a dot, a name whose only dot leads, or `..` |
| Catalog.IsVideoFileIffSuffix | backend/controllers/video-controller.js:10-30 | a file is kept exactly when its name is at least five characters and its last four, lower-cased, are one of `.mp4 .mkv .avi .mov` |
| Catalog.UpperCaseExtension | backend/controllers/video-controller.js:30-33 | `c.MKV` is a video and its title is `c` (the extension test ignores case) |
| Catalog.DotFileIsNotVideo | backend/controllers/video-controller.js:30 | `.mp4` has no extension, so it is not a video |
| Catalog.OnlyFinalExtensionRemoved | backend/controllers/video-controller.js:33 | `clip.part1.mp4` is a video titled `clip.part1`: only the final extension leaves the title |
| Catalog.FilePathsAppend | backend/controllers/video-controller.js:23 | enumerating two listings one after the other is enumerating their concatenation |
| Catalog.WalkStep | backend/controllers/video-controller.js:23-39 | handling one more listed name appends exactly that name's entries (a sub-directory's whole contents, or the file's entry if it is a video) |
| Catalog.FileStep | backend/controllers/video-controller.js:29-37 | a non-directory contributes its one entry when it is a video and nothing otherwise |
| Catalog.EntriesAppend | backend/controllers/video-controller.js:31-36 | making entries distributes over concatenation |
| Catalog.WalkDirectory | backend/controllers/video-controller.js:20-40 | the forEach over a listing, recursing into directories and pushing onto the shared array, throws exactly when some name below the listing cannot be read; otherwise it leaves the array as it was followed by the scan pipeline applied to that listing |
| Catalog.VisitEntry | backend/controllers/video-controller.js:23-39 | the forEach callback for one name throws exactly when that name or something below it cannot be read; otherwise a directory is walked in turn and a video file pushed, so the array grows by exactly that name's entries |
| Catalog.GetAllVideos | backend/controllers/video-controller.js:17-44 | getAllVideos throws exactly when the video directory or a name below it cannot be read, and otherwise returns exactly `Scan(root)`: every video in walk order, one entry each |
| Catalog.FilePathsComplete | backend/controllers/video-controller.js:20-30 | every file at any depth below a listing is enumerated with its full directory path |
| Catalog.FilePathsSound | backend/controllers/video-controller.js:20-30 | everything enumerated is a file present below the listing at that path |
| Catalog.ScanComplete | backend/controllers/video-controller.js:17-44 | every video file anywhere under the root has its entry in the catalog |
| Catalog.ScanSound | backend/controllers/video-controller.js:17-44 | every catalog entry is made from a video file found under the root; directories and other files yield none |
| Catalog.NodeFilesUnder | backend/controllers/video-controller.js:20-29 | in a tree whose names hold no `/`, every file enumerated from a name lies on a path through that name, and no name on that path holds `/` |
| Catalog.FilePathsDistinct | backend/controllers/video-controller.js:20-39 | a well-formed listing (names distinct in each directory, none holding `/`) enumerates no file twice |
| Catalog.NodeFilesDistinct | backend/controllers/video-controller.js:27-28 | a well-formed name enumerates no file twice |
| Catalog.ScannedSlashFree | backend/controllers/video-controller.js:17-44 | in a well-formed tree no name on the path of a scanned file holds `/` |
| Catalog.RelativePathInjective | backend/controllers/video-controller.js:34 | two files whose path names hold no `/` and that share a `relativePath` are the same file |
| Catalog.ScanDistinct | backend/controllers/video-controller.js:17-44 | the catalog of a well-formed tree holds no entry twice |
| Catalog.ScanOnce | backend/controllers/video-controller.js:17-44 | in a well-formed tree every video file has exactly one entry in the catalog |
| Catalog.JoinAvoids | backend/controllers/video-controller.js:34 | a `/`-joined path holds a character only if a segment or the separator does |
| Catalog.EntryFields | backend/controllers/video-controller.js:31-36 | `filename` is the name; `title` followed by the extension is the name; `relativePath` is the path joined with `/`; with no backslash in any name, `url` is `/videos/` + `relativePath` |
| Catalog.ExampleFiles | backend/controllers/video-controller.js:20-39 | for a tree `a/b.mp4`, `c.MKV`, `notes.txt` the walk visits `a/b.mp4`, then `c.MKV`, then `notes.txt` |
| Catalog.ExampleVideoTests | backend/controllers/video-controller.js:30 | `b.mp4` and `c.MKV` pass the extension test and `notes.txt` fails it |
| Catalog.ExampleMp4 | backend/controllers/video-controller.js:30-33 | `b.mp4` is a video titled `b` |
| Catalog.ExampleTxt | backend/controllers/video-controller.js:30 | `notes.txt` is not a video |
| Catalog.ExampleKept | backend/controllers/video-controller.js:30 | of the three files, exactly the two videos are kept, in order |
| Catalog.ExampleEntryB | backend/controllers/video-controller.js:31-36 | the entry of `a/b.mp4` is `{b.mp4, b, a/b.mp4, /videos/a/b.mp4}` |
| Catalog.ExampleEntryC | backend/controllers/video-controller.js:31-36 | the entry of `c.MKV` is `{c.MKV, c, c.MKV, /videos/c.MKV}` |
| Catalog.ScanExample | backend/controllers/video-controller.js:17-44 | the scan of that tree is exactly those two entries, in walk order |
| Thumbnails.ThumbnailNameShape | backend/controllers/video-controller.js:50 | the cache name holds no `/`, ends in `.png`, is four characters longer than the path, has `_` wherever the path has `/`, and keeps every other character in place |
| Thumbnails.ThumbnailCache.constructor | backend/controllers/video-controller.js:12-15 | a cache starts from the files already in the thumbnail directory, with no extraction yet |
| Thumbnails.ThumbnailCache.GenerateThumbnail | backend/controllers/video-controller.js:47-75 | a hit returns the URL and runs and writes nothing; a miss runs extraction once, and success adds the file and returns the URL while failure returns null and writes nothing; the new state is `Generate` of the old |
| Thumbnails.GenerateUrl | backend/controllers/video-controller.js:55-71 | any URL returned is `/videos/thumbnails/` + the video's own cache name |
| Thumbnails.GenerateIdempotent | backend/controllers/video-controller.js:53-55 | once a URL has been produced, a second call returns the same URL, runs nothing and changes nothing |
| Thumbnails.ThumbnailNameCollision | backend/controllers/video-controller.js:50 | `a/b.mp4` and `a_b.mp4` are distinct paths with the same cache name `a_b.mp4.png` |
| Thumbnails.CollisionServesOtherThumbnail | backend/controllers/video-controller.js:50-55 | after `a/b.mp4` gets its thumbnail, `a_b.mp4` is served that image without extraction |
| Thumbnails.ThumbnailNameInjectiveWithoutUnderscore | backend/controllers/video-controller.js:50 | two paths without `_` that share a cache name are equal |
| Recommend.SearchSelectsMatches | backend/controllers/video-controller.js:82-88 | with a non-empty query, an entry is selected exactly when its lower-cased title contains the query, as often as it is in the catalog, in catalog order, uncapped |
| Recommend.BrowseSelectsSample | backend/controllers/video-controller.js:88 | with no query, the selection has min(10, catalog size) entries, none more often than in the catalog, and a duplicate-free catalog gives a duplicate-free selection |
| Recommend.ScannedSelectionDistinct | backend/controllers/video-controller.js:80-88 | for the catalog of a well-formed tree, the selection lists no entry twice, in search mode and in browse mode |
| Recommend.ExtractionsAreMisses | backend/controllers/video-controller.js:53-57 | extraction starts no more often than there are selected entries, and only for the cache name of a selected entry whose file was not there before the map |
| Recommend.BlankSearchBrowses | backend/controllers/video-controller.js:79 | an absent search and a whitespace-only search both give the empty query, that is, browse mode |
| Recommend.AttachShape | backend/controllers/video-controller.js:91-96 | one response element per selected entry, in order, each the entry plus its own cache URL or null, null only on a miss whose extraction fails; the thumbnail directory afterwards is what it was plus the cache name of every entry whose extraction succeeds |
| Recommend.AttachThumbnails | backend/controllers/video-controller.js:91-96 | the map over the selection on the shared thumbnail directory yields what `Attach` specifies, listing and directory alike, and starts exactly the extractions `Extractions` lists |
| Recommend.GetRecommendedVideos | backend/controllers/video-controller.js:77-103 | a structured search parameter, an unlistable video directory or an unreadable name below it gives status 500 "Failed to load videos" and touches no thumbnail; otherwise `{videos: ...}` lists the selection with thumbnails, an empty selection included, and the thumbnail directory and extractions are as `Attach` and `Extractions` state |
| Text.TrimFrames | backend/controllers/video-controller.js:79 | `trim` removes only whitespace, from both ends, and leaves no whitespace at either end |
| Text.TrimEmptyIffAllSpace | frontend/src/pages/Player.jsx:61-62 | a text trims to empty exactly when it is all whitespace |
| Text.IncludesIffOccurs | backend/controllers/video-controller.js:84 | `includes` holds exactly when the query occurs at some position |
| Text.LastIndexOf | backend/controllers/video-controller.js:30 | the last position of the dot, or none exactly when there is no dot |
| Text.ReplaceFirstCases | frontend/src/pages/Player.jsx:12 | `replace` with a string pattern leaves a text without the pattern unchanged and replaces a leading occurrence |
| Text.SplitJoin | frontend/src/pages/Player.jsx:19 | splitting a `/`-join of segments without `/` gives back the segments |
| Text.NatToString | frontend/src/pages/Home.jsx:41-42 | the decimal text of a number is a non-empty digit string, one digit exactly below 10 and at most two below 100, with a leading `0` exactly for zero |
| Text.ParsePrinted | frontend/src/pages/Home.jsx:41-46 | the decimal text of a number reads back as that number |
| Text.PaddedPrinted | frontend/src/pages/Home.jsx:41-42 | `padStart(2, '0')` of a number below 100 is two digits that read back as the number |
| Seqs.FilterMembers | backend/controllers/video-controller.js:83-85 | `filter` keeps an element exactly when it passes, as often as it occurs, and never lengthens |
| Seqs.FilterIsSubsequence | backend/controllers/video-controller.js:83-85 | `filter` keeps the original order |
| Seqs.FilterDistinct | backend/controllers/video-controller.js:83-85 | `filter` of a duplicate-free array is duplicate-free |
| Seqs.DistinctAppend | backend/controllers/video-controller.js:23 | two duplicate-free runs with nothing in common concatenate to a duplicate-free one |
| Seqs.TakeSubMultiset | backend/controllers/video-controller.js:88 | `slice(0, n)` has min(n, length) elements, all from the original |
| Clock.DurationFields | frontend/src/pages/Player.jsx:50-52 | the hours, minutes and seconds add back up to the duration, minutes and seconds are below 60, and hours are non-zero exactly from one hour up |
| Clock.ParseShort | frontend/src/pages/Player.jsx:56 | an `M:SS` text splits into its two fields and reads back as M*60+SS |
| Clock.ParseLong | frontend/src/pages/Player.jsx:55 | an `H:MM:SS` text splits into its three fields and reads back as H*3600+MM*60+SS |
| Player.SplitPiecesAvoid | frontend/src/pages/Player.jsx:19 | no piece of `split('/')` holds a `/` |
| Player.StripExtensionIsRegex | frontend/src/pages/Player.jsx:19 | where `/\.[^/.]+$/` matches, the text from the match on is dropped; where it does not match, the segment is unchanged |
| Player.VideoNameShape | frontend/src/pages/Player.jsx:19 | the display name is never empty and holds no `/`; it is `Video` or a prefix of the last path segment |
| Player.VideoNameKeepsInnerDots | frontend/src/pages/Player.jsx:19 | `/videos/clip.part1.mp4` is shown as `clip.part1` |
| Player.LastSegmentOfJoin | frontend/src/pages/Player.jsx:19 | `split('/').pop()` of a `/`-join of segments without `/` is the last segment |
| Player.ExampleStripped | frontend/src/pages/Player.jsx:19 | the regex drops `.mp4` from `clip.part1.mp4` and keeps `clip.part1` |
| Player.VideoNameFallback | frontend/src/pages/Player.jsx:19 | a path ending in `/` and a file named `.mp4` are both shown as `Video` |
| Player.CapitalizeWords | frontend/src/pages/Player.jsx:20 | capitalising words keeps the length |
| Player.CapitalizeAt | frontend/src/pages/Player.jsx:20 | `/\b\w/` upper-cases a word character exactly when the character before it is not one (or it is first) |
| Player.FormattedCharAt | frontend/src/pages/Player.jsx:20 | each character of the formatted name: `-` and `_` become spaces; a character first or after anything but a letter or digit is upper-cased; the rest are kept |
| Player.FormattedVideoNameAt | frontend/src/pages/Player.jsx:20 | the formatted name has the name's length, and every position is as `FormattedCharAt` states |
| Player.FormattedVideoNameSeparators | frontend/src/pages/Player.jsx:20 | the formatted name keeps the length and holds no `-` or `_` |
| Player.FormatDurationZero | frontend/src/pages/Player.jsx:48 | a missing or zero duration shows `0:00` |
| Player.FormatDurationRoundTrip | frontend/src/pages/Player.jsx:47-57 | below an hour the text is `M:SS`, from an hour up `H:MM:SS` with two-digit minutes and seconds that each read as a number below 60; the leading field has no padding zero; either text reads back as the duration |
| Player.RecommendationsShape | frontend/src/pages/Player.jsx:33-36 | the current video is never recommended; there are min(4, others fetched) recommendations, in fetched order, and they are the first of the videos not playing |
| Player.RenameRequestGuard | frontend/src/pages/Player.jsx:59-71 | no request exactly when the name is all whitespace; otherwise the request carries the current path and the trimmed name, which is non-empty, has no whitespace at either end, and is surrounded only by whitespace in what was typed |
| Home.FormatDurationAgrees | frontend/src/pages/Home.jsx:34-47 | the library page formats every duration exactly as the player page does |
| Home.DurationBadgeReadsBack | frontend/src/pages/Home.jsx:124-129 | a badge appears exactly for a present non-zero duration, and its text reads back as that duration; a zero duration leaves a bare `0` instead |
| Home.OneOfGridOrEmpty | frontend/src/pages/Home.jsx:78-158 | once loaded without error, exactly one of the grid and the empty state shows; the results line only ever comes with the grid |
| Home.ResultsLineCounts | frontend/src/pages/Home.jsx:78-82 | the line appears exactly when loaded, error-free, searching and non-empty; its number is unpadded and reads back as the count, and the noun is `video` exactly for one |
| Home.WhitespaceSearchHeading | frontend/src/pages/Home.jsx:150 | a whitespace-only search makes the server browse the library, yet an empty answer is headed "No videos found" |
| Home.CardLinkOpensVideo | frontend/src/pages/Home.jsx:91 | a card's link makes the player play that card's URL, and the player's recommendations then leave that video out |

## Left out

- The file system and `ffmpeg` are not modelled directly. The directory tree is a value given to the scan. Whether frame extraction would succeed is a parameter. An unlistable video directory is the absent tree, and a name that cannot be stat'ed or listed is an `Unreadable` node.
- Thumbnail extraction details are left out: the 5-second timestamp, the 320x240 size and the writing of the image itself.
- Recommend.GetRecommendedVideos: the random sort is a caller-supplied reordering, required only to be a permutation. Its distribution (`0.5 - Math.random()` as a comparator) is not modelled.
- Recommend.AttachThumbnails: the `Promise.all` over the selection is modelled as one call after another. When two selected entries share a cache name, the concurrent handler starts two extractions of one file (every `existsSync` check runs before any extraction can finish), while the model runs only one. If one of those two extractions then fails, the concurrent handler gives that entry null, where the model gives it the URL the first extraction produced.
- Thumbnails.ThumbnailNameInjectiveWithoutUnderscore: the thumbnail directory is case-sensitive in the model. On Windows, where the video directory lives, `existsSync` ignores case, so `A/b.mp4` also collides with `a_b.mp4`, and the cache name tells paths apart only up to case.
- The backend's case mapping and the frontend's are ASCII only. Non-ASCII letters keep their case, whereas JavaScript maps them.
- Windows path details are not modelled: drive letters and path.join normalising `.` and `..` segments. A directory name is one path segment.
- `decodeURIComponent` on the player's route is not modelled. Catalog URLs are taken to be already decoded. The same goes for `encodeURIComponent` of the search on the library page.
- The duration field is not modelled. The backend never sends one, so the library page's badge never shows. The badge is modelled on an optional duration.
- Durations are whole seconds. A fractional or NaN duration is not modelled, except that a missing one is `None`.
- React state, effects, the 300 ms debounce, axios, navigation and alerts are not modelled. The pages are modelled as pure functions of their state.
- The player sends `PUT /api/videos/rename`, but the server has no handler for it: the router registers only `GET /videos`, and the controller exports only `getRecommendedVideos`. So only the player's request-building guard is modelled, and the request itself has no server side to model. There is no delete request in the pages and no delete handler on the server.
- The `limit` query parameter is not modelled, because the handler never reads it.
