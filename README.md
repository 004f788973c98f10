# Game packing and range-serving pipeline, modelled in Dafny

This project models the byte and sequence bookkeeping of a small web game platform. Five parts are modelled:

- **Packager** (`extractGameZip` in `fileHandler.ts`). It strips a single root folder from the zip entry names and moves directories under `assets/` when the game has an `internal/` directory. It picks a cover image by name and extension priority. `generatePackage` walks the extracted tree, appends every file except the packager's own outputs to one blob (`game.core`) and records `{p, o, s}` entries against a running offset. Those entries make up the `{gameId, files, v}` manifest.
- **Chunk reassembler** (`uploadGameChunk` / `mergeGameChunks` in `gameController.ts`). It stages chunks of an upload under their index and refuses a merge while any index in `[0, totalChunks)` is missing. Otherwise it concatenates the chunks in index order and deletes the staging directory.
- **Like bookkeeping** (`recordLike` / `getLikes`). Each device may like a game once. `getLikes` lists the games a device has liked.
- **Client chunk splitter** (`upload` in `gameService.ts`). It cuts a file into 5 MiB slices, sends them as indices `0 .. N-1` under one upload id and then sends one merge request naming that id, the file's name, `N` and the form's fields.
- **Range-serving cache** (`sw.js`):
  - `INIT_VFS` builds the path → (offset, size) map of a game.
  - The fetch handler intercepts `/Games/<id>/<path>`.
  - `handleRequest` serves a stored copy, or else fetches `bytes=o-(o+s-1)` of `game.core`, stores the answer and returns it. If that fetch fails, it falls back to a direct fetch.
  - `getContentType` is the extension → MIME table.
- **Bulk packager** (`sync_games.js`):
  - a depth-limited search for the directory that holds `index.html`;
  - the engine classifier;
  - the image-list filter;
  - the fuzzy cover match;
  - the loop that plans one zip per game folder.

Modules:

- `Common` (common.dfy): bytes, directory listings (shared by the packager and the bulk packager), ASCII case folding, `split`/`join`, `path.extname`, and decimal rendering and parsing.
- `Packager` (packager.dfy).
- `Uploads` (uploads.dfy).
- `Likes` (likes.dfy).
- `Splitter` (splitter.dfy).
- `RangeCache` (range_cache.dfy).
- `SyncGames` (sync_games.dfy).
- `Pipeline` (pipeline.dfy): connects the parts.
  - Split, upload in any order and merge gives back the file.
  - Pack, publish the manifest and serve a range gives back the packed file's bytes.

How side effects are modelled:

- **Directory trees and zip entries** are values given in listing order.
- **Stateful parts** are classes with fields:
  - the staging area and archives (`Uploads.UploadArea`);
  - the games table (`Likes.GamesTable`);
  - the service worker's game states and its persistent store (`RangeCache.VfsWorker`).
- **Network replies** (the manifest fetch and the range fetch) and **clock values** are parameters.

## Model

| member | source | states |
|---|---|---|
| Packager.RootFolder | packages/backend/src/utils/fileHandler.ts:37-46 | The root is empty for no entries. It is the entry name when the first entry is a directory. Otherwise it is empty exactly when the first name has no `/`, and else it is that name's first segment followed by `/`. |
| Packager.WriteEntries | packages/backend/src/utils/fileHandler.ts:48-66 | The extraction loop produces exactly the writes of `ExtractionWrites` for the computed root. |
| Packager.WrittenIff | packages/backend/src/utils/fileHandler.ts:48-66 | A write happens exactly when some non-directory entry, after root stripping, has a non-empty path equal to the write's path and carries its data. |
| Packager.NothingEmptyWritten | packages/backend/src/utils/fileHandler.ts:56 | No write has an empty target path. |
| Packager.RelocateAssets | packages/backend/src/utils/fileHandler.ts:79-94 | The relocation loop yields `Relocated(list)`. |
| Packager.RelocationIsPartition | packages/backend/src/utils/fileHandler.ts:85-93 | The entries kept at top level and the ones moved under `assets/` together are, as a multiset, the original listing. |
| Packager.RelocatedTopLevel | packages/backend/src/utils/fileHandler.ts:82-93 | When `assets` is absent and `internal` is present, the top level afterwards holds `assets` and no directory other than `src` and `assets`. |
| Packager.FindImage | packages/backend/src/utils/fileHandler.ts:100-124 | The nested search with early return finds `ImageChoice(files, names, exts)`. |
| Packager.FindPreferred | packages/backend/src/utils/fileHandler.ts:105-114 | The name × extension loops return the first hit of the candidate list in `(name, ext)` order. |
| Packager.FindWithExts | packages/backend/src/utils/fileHandler.ts:106-113 | The inner extension loop returns the first hit of `name + ext`, in extension order. |
| Packager.FindAnyImage | packages/backend/src/utils/fileHandler.ts:116-121 | The fallback loop returns the index of the first file whose lower-cased extension is an image extension. |
| Packager.ImageChoicePreferred | packages/backend/src/utils/fileHandler.ts:105-114 | If `names[i] + exts[j]` matches a file case-insensitively and no earlier `(name, ext)` pair does, that file is chosen, ahead of any other image file. |
| Packager.ImageChoiceNone | packages/backend/src/utils/fileHandler.ts:105-123 | Nothing is found exactly when no preferred candidate matches and no file has an image extension. |
| Packager.ChosenImageIsImage | packages/backend/src/utils/fileHandler.ts:105-123 | Any chosen image is one of the listed files and has an image extension, whenever every candidate name ends in one of the extensions. |
| Packager.CoverCandidatesWellFormed | packages/backend/src/utils/fileHandler.ts:97-98 | The source's five names and five extensions meet that condition. |
| Packager.ExtractedCoverIsImage | packages/backend/src/utils/fileHandler.ts:126-131 | A cover found in the game directory is a listed file with one of `.jpg .jpeg .png .gif .webp`. |
| Packager.GeneratePackage | packages/backend/src/utils/fileHandler.ts:140-164 | The recursive walk appends `EntriesFrom(Included(list, prefix), offset)` to the records and `Blob(Included(list, prefix))` to the blob. The cursor advances by exactly the number of bytes appended. |
| Packager.IncludedIff | packages/backend/src/utils/fileHandler.ts:142-161 | A file is packed exactly when it lies somewhere in the tree and is not named `manifest.json`, `game.core`, `game.pkg` or `game.dat`. It is packed under its slash-joined relative path. Directories are recursed into and never packed themselves. |
| Packager.IncludedPaths | packages/backend/src/utils/fileHandler.ts:148-149 | No packed file carries an output name, and every recorded path is free of `\` and starts with its directory's relative prefix. |
| Packager.IncludedDistinct | packages/backend/src/utils/fileHandler.ts:140-161 | In a tree whose names differ within each directory and hold no `/` or `\`, the packed files record pairwise distinct paths. Each path is its prefix followed by the name of the top-level entry it comes from. |
| Packager.IncludedNodeDistinct | packages/backend/src/utils/fileHandler.ts:142-157 | The files packed from one entry record distinct paths, each starting with the prefix and the entry's name as its first segment. |
| Packager.BackslashCollision | packages/backend/src/utils/fileHandler.ts:149 | A top-level file named `a\b` and the file `b` in directory `a` are both recorded as `a/b`, with different contents. |
| Packager.ManifestLocatesFiles | packages/backend/src/utils/fileHandler.ts:150-159 | Blob bytes `[o, o+s)` of record `i` are exactly file `i`'s contents, and its path is the file's path. |
| Packager.EntriesContiguous | packages/backend/src/utils/fileHandler.ts:136-160 | The first record starts at the initial cursor, and each record starts where the previous one ends. The records therefore do not overlap and leave no gaps. |
| Packager.TotalSizeIsBlobLength | packages/backend/src/utils/fileHandler.ts:159-160 | The sizes of all records add up to the length of the blob. |
| Packager.PackageExample | packages/backend/src/utils/fileHandler.ts:140-177 | For a tree `a.txt`, `b/c.txt`, `manifest.json`, the manifest records are `a.txt@0+2` and `b/c.txt@2+3`, and the blob is the five bytes of the two files. |
| Packager.BuildPackage | packages/backend/src/utils/fileHandler.ts:134-177 | The manifest is `{gameId, EntriesFrom(Included(root)), v}` and the blob is the packed files' bytes. |
| Packager.ExtractGameZip | packages/backend/src/utils/fileHandler.ts:29-198 | An empty zip fails with an empty `gameDir` and writes nothing. Otherwise extraction and relocation happen as above, and the chosen cover sets `/images/<gameId><ext>`. A cover that names a directory makes the copy fail, which gives the error result. All other cases succeed with `/Games/<gameId>` and the package of the relocated tree. |
| Uploads.UploadArea.UploadChunk | packages/backend/src/controllers/gameController.ts:222-251 | Without a file, or without `uploadId` or `chunkIndex`, the request is rejected and nothing is staged. Otherwise the chunk is stored under its index text in its upload's area, replacing an earlier chunk of that index. No archive changes. |
| Uploads.UploadArea.MergeChunks | packages/backend/src/controllers/gameController.ts:253-287 | Missing parameters and a missing chunk change nothing. A missing chunk is reported by its lowest index. Otherwise the archive `<uploadId>-<fileName>` holds chunks `0 .. totalChunks-1` concatenated in index order and the staging area is gone. Removing a staging directory that never existed is the error reply. |
| Uploads.FindMissing | packages/backend/src/controllers/gameController.ts:265-269 | The verify loop reports `FirstMissing(stage, totalChunks)`. |
| Uploads.FirstMissingSpec | packages/backend/src/controllers/gameController.ts:265-269 | A reported index is missing and every index below it is staged. Nothing is reported exactly when all of `[0, n)` are staged. |
| Uploads.Concatenate | packages/backend/src/controllers/gameController.ts:272-278 | The merge loop writes `Assembled(stage, totalChunks)`, the chunks in index order. |
| Uploads.ChunkInMerged | packages/backend/src/controllers/gameController.ts:272-278 | Chunk `i` appears in the merged output at the offset given by the total length of chunks `0 .. i-1`. |
| Uploads.AssembledIgnoresOthers | packages/backend/src/controllers/gameController.ts:273-277 | Staged files outside `0 .. n-1` do not affect the merged output. |
| Uploads.ReceivedLatest | packages/backend/src/controllers/gameController.ts:240-241 | After a series of chunk uploads, a key is staged exactly when some upload used it, and it holds the last such upload's data. |
| Uploads.ArrivalOrderIrrelevant | packages/backend/src/controllers/gameController.ts:240-241 | Uploads with pairwise distinct keys stage the same area in any order. |
| Uploads.MergeExample | packages/backend/src/controllers/gameController.ts:265-277 | Chunk 1 ("LLO") arriving before chunk 0 ("HE") merges into "HELLO", and a merge expecting 3 chunks reports chunk 2 missing. |
| Likes.FindRow | packages/backend/src/controllers/gameController.ts:416-422 | The row read is the first row with the id, and no row before it has the id. |
| Likes.GamesTable.RecordLike | packages/backend/src/controllers/gameController.ts:407-439 | The reply and the new table are those of `LikeReplyOf` and `RowsAfterLike`, and ids stay unique. |
| Likes.LikeOutcome | packages/backend/src/controllers/gameController.ts:411-434 | A like is recorded exactly when both fields are present, the game exists and the device has not liked it yet. Only then does the table change: that game's count goes up by one, the device is appended and other games keep their rows. The reply carries the new count. |
| Likes.LikeKeepsConsistent | packages/backend/src/controllers/gameController.ts:426-431 | If every game's count equals the number of its distinct liking devices, that stays true after a like. |
| Likes.LikeTwice | packages/backend/src/controllers/gameController.ts:426-428 | A second like from the same device is refused and changes nothing. |
| Likes.LikeKeepsIds | packages/backend/src/config/database.ts:40 | A like keeps every row's id, so the UNIQUE `game_id` column stays unique. |
| Likes.LikedGames | packages/backend/src/controllers/gameController.ts:441-469 | There is an empty list without a device id. Otherwise the loop returns `LikedBy(rows, deviceId)`, the liked ids in row order. |
| Likes.LikedByIff | packages/backend/src/controllers/gameController.ts:454-461 | An id is listed exactly when some row with that id has the device in its list. |
| Likes.LikeThenListed | packages/backend/src/controllers/gameController.ts:430-461 | After a recorded like the game is listed for that device, and every other device's list is unchanged. |
| Splitter.TotalChunks | packages/frontend/src/services/gameService.ts:53-54 | The chunk count is zero only for an empty file. Otherwise it is the least `n` with `n · 5 MiB >= size`. |
| Splitter.Upload | packages/frontend/src/services/gameService.ts:53-105 | The upload loop issues exactly `UploadCalls(file, fileName, form, uploadId, withProgress)`. |
| Splitter.SmallFileSingleRequest | packages/frontend/src/services/gameService.ts:57-75 | At most one chunk means at most 5 MiB, and in that case exactly one single-request upload of the file and the form's fields is made, with no chunk or merge calls. |
| Splitter.SlicesTile | packages/frontend/src/services/gameService.ts:77-80 | The slices concatenate to the file. Each slice is non-empty, and every slice but the last is exactly 5 MiB. |
| Splitter.ChunkedUpload | packages/frontend/src/services/gameService.ts:77-105 | A file over 5 MiB is sent as chunks of index `0 .. N-1`, in order, whose data concatenates to the file and which all carry the upload id. One merge carrying that id, the file's name, `N` and the form's fields follows as the last call. |
| Splitter.ChunkCallsIds | packages/frontend/src/services/gameService.ts:77-89 | Every chunk request of the loop carries the same upload id. |
| Splitter.ProgressReports | packages/frontend/src/services/gameService.ts:91-94 | There is one progress report per chunk. The reports never decrease, stay within `0 .. 100`, and the last one is 100. |
| Splitter.PercentMonotone | packages/frontend/src/services/gameService.ts:92 | The rounded percentage is non-decreasing in the chunk index and lies in `0 .. 100`. |
| RangeCache.FilesMapKeys | packages/frontend/public/sw.js:52-55 | A path is in the map exactly when some manifest record has it. |
| RangeCache.FilesMapLastWins | packages/frontend/public/sw.js:53-55 | A path maps to the offset and size of its last record, so later duplicates overwrite earlier ones. |
| RangeCache.BuildFilesMap | packages/frontend/public/sw.js:52-55 | The `forEach` loop builds `FilesMapOf(manifest.files)`. |
| RangeCache.VfsWorker.OnMessage | packages/frontend/public/sw.js:44-70 | Other message types change nothing. A failed manifest fetch replies `VFS_ERROR` and changes nothing. Otherwise the game's state is replaced wholesale by a ready state with the manifest's `v` and map, and the reply is `VFS_READY`. The store is never touched. |
| RangeCache.ParseGamePathSpec | packages/frontend/public/sw.js:75-78 | A path is parsed exactly when it starts with `/Games/`. The game id has no `/`, and the path is `/Games/<id>/<filePath>`, or just `/Games/<id>` with an empty file path. |
| RangeCache.ParseGamePathRoundTrip | packages/frontend/public/sw.js:76-78 | `/Games/<id>/<filePath>` parses back to `(id, filePath)` for any file path, including one with slashes. |
| RangeCache.InterceptIff | packages/frontend/public/sw.js:80-87 | Such a request is intercepted exactly when its game state is ready and holds the file path. The target is that state and that record. |
| RangeCache.EncodedNameMisses | packages/frontend/public/sw.js:73-83 | The lookup uses the encoded pathname: a file recorded as `a b.js` and requested as `a%20b.js` is not intercepted. |
| RangeCache.OutsideGamesPassThrough | packages/frontend/public/sw.js:75 | A path not under `/Games/` is never intercepted. |
| RangeCache.VfsWorker.Fetch | packages/frontend/public/sw.js:72-140 | A request that is not intercepted gets no response and changes nothing. An intercepted one is answered as `handleRequest` answers it, given by `Serve`, and its store update is kept. |
| RangeCache.StoredWinsOverState | packages/frontend/public/sw.js:93-107 | On a hit for `gameId:filePath` the stored data is served with the file's MIME type and no range request is made. The answer does not depend on the game's state, offset, size or version. |
| RangeCache.MissFetchesRange | packages/frontend/public/sw.js:111-139 | On a miss, `Range: bytes=o-(o+s-1)` is requested from `<gameUrl>/game.core`. A reply is served with the file's type and stored under the same key with `state.v`. On failure, the direct reply from `<gameUrl>/<filePath>` is forwarded and nothing is stored. |
| RangeCache.RangeHeaderRoundTrip | packages/frontend/public/sw.js:119 | For a non-empty file the header parses back to first position `o` and last position `o+s-1`. |
| RangeCache.RangeDigits | packages/frontend/public/sw.js:119 | `bytes=<first>-<last>` written in decimal parses back to `(first, last)`. |
| RangeCache.DoubleDashRange | packages/frontend/public/sw.js:119 | A header with two dashes, as a zero-size record at offset 0 produces (`bytes=0--1`), does not parse. |
| RangeCache.ZeroSizeRange | packages/frontend/public/sw.js:119 | A zero-size record yields an unparsable header at offset 0, and otherwise a range whose last position is before its first. |
| RangeCache.ZeroSizeRangeExample | packages/frontend/public/sw.js:119 | Offset 5 and size 0 give `bytes=5-4`. |
| RangeCache.ContentType | packages/frontend/public/sw.js:142-150 | The result is either `application/octet-stream` or one of the table's MIME types. |
| RangeCache.ContentTypeSpec | packages/frontend/public/sw.js:142-150 | The text after the last `.`, lower-cased, is looked up in the nine-entry table. An unknown extension gives `application/octet-stream`. |
| RangeCache.ContentTypeNoDot | packages/frontend/public/sw.js:143-149 | A path without `.` is its own extension: `html` gives `text/html`, and an unknown name gives `application/octet-stream`. |
| RangeCache.ReinitReplacesFiles | packages/frontend/public/sw.js:57-62 | After `INIT_VFS`, a game's paths are intercepted exactly when the new manifest lists them, with the new `v` and `gameUrl`. |
| RangeCache.StaleAfterReinit | packages/frontend/public/sw.js:93-107 | A copy stored before re-initialisation is still what is served afterwards, without a range request, because the key carries no version. |
| SyncGames.ClassifySpec | sync_games.js:102-107 | `assets` with `cocos-js` or `src` gives Cocos Creator. Otherwise `main.js` with `src` gives Cocos/Laya Generic. Otherwise the type is Standard H5. Each direction is stated. |
| SyncGames.ClassifyBySet | sync_games.js:102-107 | Classification depends only on which names a listing holds. |
| SyncGames.SearchIsFirst | sync_games.js:97-121 | The recursive search returns the first directory, in pre-order over listing order within the depth limit, that lists `index.html`. |
| SyncGames.AnalyzeSpec | sync_games.js:96-131 | The analysis is valid exactly when some directory at most three levels down lists `index.html`. Its root is the first such directory in pre-order, no deeper than three levels. Its type is that directory's classification. |
| SyncGames.RootListsIndex | sync_games.js:101-108 | A folder that itself lists `index.html` is its own root, and is returned before any child is searched. |
| SyncGames.FilterImagesSpec | sync_games.js:24-27 | The filter keeps exactly the listed files whose extension, ignoring case, is `.jpg`, `.jpeg`, `.png` or `.webp`. |
| SyncGames.FilterImagesAppend | sync_games.js:24-27 | The filter keeps listing order: filtering two parts of a listing gives the kept files of the first part, then those of the second. |
| SyncGames.CoverExtensionIgnoresCase | sync_games.js:25-26 | The image test gives the same answer for a name and its lower-cased form. |
| SyncGames.FindCoverSpec | sync_games.js:59-69 | A cover is found exactly when some image matches. A match means its lower-cased base name is longer than one character and contains, or is contained in, the lower-cased folder name. The found cover is the first match. |
| SyncGames.Sync | sync_games.js:10-87 | A missing games directory gives no plans. Otherwise the plans are `Plans(folders, FilterImages(images))`, with no images when the image directory is missing. |
| SyncGames.PlansSpec | sync_games.js:35-87 | A plan is made exactly for the folders whose plan exists, in folder order. |
| SyncGames.PlanForValid | sync_games.js:35-79 | A folder is planned exactly when it is a directory whose analysis is valid. The plan is `<folder>.zip` of the analysed root, with its engine and fuzzy-matched cover. |
| SyncGames.PlannedCover | sync_games.js:24-69 | A planned cover is a listed image with a cover extension that matches the folder. |
| Pipeline.ChunkedUploadRoundTrip | packages/frontend/src/services/gameService.ts:77-105 | For a file over 5 MiB and a fresh upload id, the chunks the client sends may arrive in any order and interleaved with other uploads' chunks. The last call is the merge naming that id and `N`. The id's staging directory then has no missing index and assembles to exactly the file. |
| Pipeline.SentArrivals | packages/frontend/src/services/gameService.ts:77-89 | The upload's staging directory receives `N` chunk uploads with distinct keys. Upload `j` carries key `j` and slice `j`. |
| Pipeline.Deliver | packages/backend/src/controllers/gameController.ts:222-251 | Sending chunk requests one after another to the chunk endpoint leaves the staging directories `Delivered(staged, requests)` and the archives unchanged. |
| Pipeline.DeliveredFor | packages/backend/src/controllers/gameController.ts:235-241 | The staging directory of a fresh upload id holds exactly what the requests naming that id put there, in their order. Requests of other uploads do not touch it. |
| Pipeline.PackedFileServed | packages/frontend/public/sw.js:111-136 | After `INIT_VFS` with the manifest of a packed game, a request for a non-empty packed file is intercepted. This holds provided no later packed file records the same path, and the game id and the file's path consist of characters URL path serialisation leaves unchanged. The range request it issues on a miss, answered by a byte-range server over the blob, brings back exactly that file's bytes. |
| Pipeline.PackedGameFileServed | packages/frontend/public/sw.js:111-136 | In a game tree whose names differ within each directory and hold no `/` or `\`, every non-empty packed file with a URL-safe path is intercepted and served back with exactly its bytes. No condition on the records is needed. |
| Pipeline.EmptyFileNotServed | packages/frontend/public/sw.js:119 | The byte-range server answers no range header of a zero-size record. |

## Left out

- File system and zip I/O are not modelled: AdmZip decoding, `fs.*` calls, `path.join` normalisation and write streams. Trees, zip entries, staging areas, archives and blobs are values. `readdirSync` order is the order of the given listing.
- The extracted tree is a parameter of `Packager.ExtractGameZip`. The model does not derive it from the writes of the extraction loop.
- The `<title>` extraction from `index.html` (fileHandler.ts:68-77) is not modelled. It depends on a regular-expression match over the HTML text and is outside the packing bookkeeping.
- The zip file deletion and the catch-all error path are not modelled (fileHandler.ts:179-198). Only the failed cover copy onto a directory is modelled as a failure.
- `statSync` failures (fileHandler.ts:87, 144; sync_games.js:37, 114-118) are not modelled, because the tree is given. At sync_games.js:37 the call is unguarded: a failing stat, for example of a dangling link, throws out of `main` and stops every later folder. In the model every entry is a file or a directory: `SyncGames.PlanFor` skips a file, and `SyncGames.Sync` goes on with the later folders.
- The blob stream is not awaited before the manifest is written (fileHandler.ts:167-177). The model writes both at once, so the missing atomic publish is not captured.
- The manifest's `v` is a parameter, as are `Date.now()` and the generated game id (gameController.ts:289) and the random upload id (gameService.ts:55). `Splitter.Upload` takes the upload id and carries it in every chunk call and the merge call.
- Pipeline.ChunkedUploadRoundTrip assumes the upload id is not empty and names no staging directory already present, as a `Date.now()`-and-random id is meant to. The `.substr(2, 9)` rendering is not modelled, so a clash with a leftover directory is not ruled out.
- Pipeline.ChunkedUploadRoundTrip describes an upload whose every request succeeds. A rejected `await api.post` (gameService.ts:87) aborts `upload`, so no later chunk and no merge is sent. The calls made up to then are a prefix of `ChunkCalls`, which holds no merge (`Splitter.ChunkCallsNoMerge`).
- The merge call's `gameId`, `pinned` and `open` fields travel in `Splitter.Form`. `Uploads.UploadArea.MergeChunks` reads only `uploadId`, `fileName`, `totalChunks` and `name`, and the database insert that uses the rest is not modelled.
- The manifest URL cache-buster (sw.js:49) is not modelled.
- Case folding covers ASCII letters only. JavaScript's `toLowerCase` also folds other scripts.
- SyncGames.CoverMatches counts the length of a base name in Unicode scalar values. JavaScript's `length` (sync_games.js:63) counts UTF-16 code units, so a base name of one character outside the Basic Multilingual Plane, such as an emoji, matches in the script but not in the model.
- Splitter.Percent: the percentage uses exact rational rounding of `(i+1)/N · 100`. Not modelled: floating-point error in `Math.round`, and the single-request progress callback (gameService.ts:67-71).
- Uploads.UploadArea.UploadChunk takes `chunkIndex` as the text the client sent. Its format is not modelled. An empty index `""` passes the script's `=== undefined` test, and the model stages it under `""` and replies that it was stored. The script instead renames onto the staging directory itself, which throws and gives the 500 reply (gameController.ts:240-249). Also not modelled: multer's temporary file or the `unlinkSync` of a rejected chunk.
- Uploads.UploadArea.MergeChunks takes `totalChunks` as a whole number. Not modelled: the string that arrives in the JSON body, its coercion by `<`, extraction and the database insert that follows the merge (gameController.ts:288 onwards).
- Likes hold `liked_devices` as the list its JSON text encodes. Not modelled: JSON parsing, the SQL text with its quoting, and `saveDatabase`.
- The service worker receives the manifest reply and the range reply as parameters. Install/activate, `postMessage`, IndexedDB promises and concurrent fetches are not modelled. `saveToDB` is taken to succeed, and a failed read is a miss.
- A range reply with a non-2xx status is stored and served as the bytes received, as the code does. Status codes are not modelled.
- `getContentType` looks up a plain object. Keys on JavaScript's object prototype (such as `constructor`) are not modelled, and the table is a map of its nine entries.
- The cache key is `gameId:filePath` without the manifest version, as the code does. No version-keyed invalidation is modelled. `RangeCache.StaleAfterReinit` states the resulting staleness.
- A zero-size record produces a malformed or empty Range header (`bytes=5-4`; `bytes=0--1` at offset 0). The model shows the malformed header rather than proving it well formed (`RangeCache.ZeroSizeRange`, `Pipeline.EmptyFileNotServed`).
- Pipeline.PackedFileServed: the fetch handler looks up the percent-encoded `url.pathname` (sw.js:73-82), while the manifest records raw file names (fileHandler.ts:149-157). A packed file whose path changes under URL encoding, such as `a b.js`, `100%.png` or a name with non-ASCII letters, is never looked up under its recorded path. Such a request is not intercepted and goes to the network unchanged, so it is not served from `game.core`. The lemma therefore requires both the game id and the path to be unchanged by encoding (`RangeCache.UrlPathSafe`), and `RangeCache.EncodedNameMisses` shows the miss. Percent-encoding itself is not modelled.
- Pipeline.PackedFileServed requires that no later packed file records the same path, because the worker keeps the last record of a path (`RangeCache.FilesMapLastWins`). `Packager.Included` can record a path twice: the backslash replacement (fileHandler.ts:149) maps a top-level file named `a\b` and the file `b` in directory `a` both to `a/b` (`Packager.BackslashCollision`), and the first is then served the second's bytes. `Pipeline.PackedGameFileServed` drops the condition for trees whose names are unique per directory and free of `/` and `\` (`Packager.IncludedDistinct`).
- Packager.Relocated puts the new `assets` directory last in the top-level listing and keeps the moved directories in their original order. `generatePackage` re-reads the directories from disk (fileHandler.ts:141), so for a relocated game the record order and the offsets in the model are one possible order, not the one `readdirSync` returns.
- `Pipeline.RangeServe` is a single-range byte server after section 14.1.2 of RFC 9110. It stands for the server side of the range request and is not code of this repository.
- `sync_games.js` console output and the writing of the zip files (`addLocalFolder`, `addLocalFile`, `writeZip`) are not modelled. Each game becomes a plan naming the zip, the root to add, the engine and the cover.
