# Breadbox core, modelled in Dafny

Breadbox is a small HTTP service that keeps archives of media: anime, Linux
ISO images, games and manga. Each archive is a directory. Each item is a
sub-directory named by its integer id. The item holds a `crumb.json`
metadata document and `media` and `images` branches with the files
themselves.

The project models the logic the service owns:

- **The permission gate** (`Security`). A request to a protected path is
  judged in a fixed order. First the method picks an action: read, write,
  delete or other. Read-only mode refuses writes and deletes. The group
  configured for the action decides the rest: `everyone`, `nobody`, or a key
  whose auth level must reach a threshold (`users` 1, `contributors` 2,
  `admin` exactly 3). The key is taken from the header, else the cookie, else
  the query parameter. The user directory is a parameter: a function from a
  key to a `(username, level)` pair.
- **The reply table** (`Responses`). This is the fixed table of reply
  templates and `respond`, which fills one in.
- **Archive storage and its endpoints** (`Archive`). The disk is an abstract
  tree from paths to directories and files, held by a `FileSystem` object
  that the methods update. `ArchiveHandler` is a class over that disk with:
  - listing, the existence check, and metadata read and write;
  - the archive-name rule;
  - the metadata endpoints, including the shallow `existing | new` merge;
  - the download nickname rule;
  - the upload's check order and its 1024-byte chunk loop;
  - the router's construction.
- **The four per-archive routers** (`Anime`, `Linux`, `Games`, `Manga`).
  Each maps URL parameters to stored file names: zero-padding, upper-casing
  and suffixes. Each also lists the files of an item's `media` directory,
  filtered and sorted.

Supporting modules:

- `Text` holds Python's `isnumeric`, `int`, `str`, `'%02d'`, `upper`,
  `isupper`, `split` and `pathlib`'s `suffix` and `stem`, for ASCII.
- `Sorting` holds `list.sort` as an ordered permutation under a total
  preorder.
- `FileTree` holds the disk, `mkdir`, `open`, and `iterdir` loops. Each
  `iterdir` loop is specified as the multiset it gathers, because the order
  of a directory listing is unspecified.

Each listing is a method with a loop over the directory entries. The loop is
proved to gather exactly that multiset, and the sort then yields an ordered
permutation of it. Separate lemmas say which names the multiset contains.

## Model

| member | source | states |
|---|---|---|
| Responses.Respond | breadbox/core/responses.py:121-140 | A known code gives a reply with that code and the table's status, message and details. `extra` is present iff keyword arguments were given, and then equals them. An unknown code fails the lookup. |
| Responses.MissingCredentialStatuses | breadbox/core/responses.py:4-118 | `no_api_key` and `auth_required` both answer 401. |
| Responses.RefusalStatuses | breadbox/core/responses.py:4-118 | `read_only`, `invalid_api_key`, `insufficient_permissions` and `disabled_feature` answer 403. |
| Responses.ArchiveStatuses | breadbox/core/responses.py:4-118 | `not_in_archive` is 404 and `wrong_content_type` is 400. `resource_created` is 201; `resource_updated` and `upload_succeeded` are 200. |
| Security.Source | breadbox/core/security.py:78-83 | A credential source yields a value exactly when its configured name is present and non-empty and the request carries a non-empty value under it. That value is what it yields. |
| Security.Credential | breadbox/core/security.py:78-85 | The key is non-empty. It is absent exactly when header, cookie and query parameter all yield nothing. |
| Security.CheckPermissions | breadbox/core/security.py:71-113 | Any refusal is one of `disabled_feature`, `no_api_key`, `invalid_api_key` or `insufficient_permissions`. |
| Security.Dispatch | breadbox/core/security.py:42-69 | Any refusal is one of the gate's codes, and each of them is in the reply table. |
| Security.UnprotectedForwarded | breadbox/core/security.py:43-68 | A path under no protected prefix is forwarded, whatever the request and the directory. |
| Security.MethodActions | breadbox/core/security.py:44-66 | GET and HEAD read; PUT, PATCH and POST write; DELETE deletes; every other method is `other`. |
| Security.CheckReadsOnlySources | breadbox/core/security.py:71-110 | A group's check gives the same verdict under any two configurations that share the header, cookie and query credential names. |
| Security.ChecksOnlyTheActionGroup | breadbox/core/security.py:42-66 | The verdict depends on the permission groups only through the group of the method's action. Unless read-only mode stops the request, the verdict is that group's check. |
| Security.ReadOnlyRefusesChanges | breadbox/core/security.py:50-61 | In read-only mode a protected PUT, PATCH, POST or DELETE is `read_only`, for any credentials and any directory. |
| Security.ReadOnlyKeepsReads | breadbox/core/security.py:44-66 | Read-only mode does not change the verdict on reads and other methods. |
| Security.EveryoneNeedsNothing | breadbox/core/security.py:72-73 | Group `everyone` lets every request through. |
| Security.NobodyRefusesAll | breadbox/core/security.py:75-76 | Group `nobody` answers `disabled_feature` to every request, including an admin's. |
| Security.CredentialPrecedence | breadbox/core/security.py:78-85 | The header wins over the cookie, and the cookie over the query parameter. |
| Security.EmptyHeaderIsAbsent | breadbox/core/security.py:78 | A header sent with an empty value reads as if it had not been sent. |
| Security.DenialStatuses | breadbox/core/security.py:42-110 | Every refusal the gate gives has HTTP status 401 when it is `no_api_key` and 403 otherwise. |
| Security.MissingKey | breadbox/core/security.py:84-85 | A group that needs a key, facing a request without one, answers `no_api_key` whatever the directory holds. |
| Security.UnknownKey | breadbox/core/security.py:87-89 | A key whose username and level are both falsy is `invalid_api_key` for every keyed group. |
| Security.LevelRules | breadbox/core/security.py:91-107 | `users` admits level 1 and up, `contributors` level 2 and up, `admin` level 3 only. Anything else is `insufficient_permissions`. |
| Security.AdminNeedsExactlyThree | breadbox/core/security.py:103-107 | Level 4 passes `contributors` but not `admin`. |
| Security.UnknownGroupRaisesLate | breadbox/core/security.py:78-110 | An unrecognised group raises only after a key was found and recognised; without a key the answer is `no_api_key`. |
| Security.ValidConfigNeverFaults | breadbox/core/security.py:91-110 | The gate never raises when every action has one of the five accepted groups and the directory gives a level to every named user. |
| Security.ValidGroupNeverFaults | breadbox/core/security.py:91-110 | The check of any of the five accepted groups never raises when every named user has a level. |
| Security.DefaultWriteNeedsContributor | breadbox/core/config.py:46-50 | Under the default groups, a PATCH under `/archive` from a level-1 key is refused and one from a level-2 key is forwarded. |
| Text.ZeroPad2 | routers/anime.py:97 | `'%02d' % n` is all digits, at least two long, reads back as n, and has no leading zero beyond the padding. |
| Text.IntToStringInjective | breadbox/core/archive.py:301 | Distinct ids give distinct `str(id)` names. |
| Text.StemSuffix | routers/linux.py:74 | `stem + suffix` is the name, and a non-empty suffix is one dot-led piece. |
| Text.SuffixOfAppended | routers/manga.py:83-87 | Appending a dot-led extension to a non-empty name gives that suffix back, with the name as stem. |
| Sorting.SortBy | routers/linux.py:80 | The sorted list is ordered and is a permutation of its input. |
| FileTree.Mkdir | breadbox/core/archive.py:277 | `mkdir` succeeds exactly when the path is absent and its parent is a directory, and then adds that directory. |
| FileTree.OpenForWrite | breadbox/core/archive.py:316 | Opening for writing succeeds on a regular file or on an absent path whose parent is a directory, and empties or creates the file. |
| FileTree.OpenForRead | breadbox/core/archive.py:307 | Opening for reading succeeds exactly on a regular file and yields its content. `FileNotFoundError` means the path is absent. |
| FileTree.Collect | routers/linux.py:73-78 | The loop over directory entries gathers exactly the multiset its filter selects. |
| Archive.NameCharsExactly | breadbox/core/archive.py:22 | A character is allowed exactly when it is an ASCII letter, a digit, `_` or `-`. |
| Archive.ValidNameChars | breadbox/core/archive.py:36-37 | A name passes exactly when every character is allowed. The empty name passes. |
| Archive.DistinctItems | breadbox/core/archive.py:301 | Distinct ids have distinct item directories and metadata files. |
| Archive.GetItemInfo | breadbox/core/archive.py:303-308 | Reading succeeds exactly when the item's `crumb.json` is a regular file holding a document, and yields that document. `FileNotFoundError` comes exactly when `crumb.json` is absent and the item path is not a file. |
| Archive.CheckItem | breadbox/core/archive.py:297-301 | An item is present exactly when opening its `crumb.json` for reading would succeed. |
| Archive.WriteInfoResult | breadbox/core/archive.py:310-317 | Writing succeeds exactly when neither a file sits at the item path nor a directory at `crumb.json`. Afterwards `check_item` holds and reading gives the document back. The item directory is made only if absent, and no other path changes. |
| Archive.ReadsAgree | breadbox/core/archive.py:297-308 | Two disks that agree on an item's directory and its `crumb.json` give the same answer to `check_item` and to `get_item_info` for that item. |
| Archive.WriteInfoKeepsOthers | breadbox/core/archive.py:310-317 | Writing one item's metadata leaves every other item's existence and metadata unchanged. |
| Archive.ListedIdNotFound | breadbox/core/archive.py:288-301 | As written, a directory `007` is listed as id 7, which `check_item` and `get_item_info` then do not find. |
| Archive.ListedIdsAreItems | breadbox/core/archive.py:288-301 | With the canonical-name filter, an id is listed iff it is non-negative and `check_item` holds for it. |
| Archive.ListedIdsDistinct | breadbox/core/archive.py:288-291 | The listing reports each id at most once. |
| Archive.NegativeIdUnlisted | breadbox/core/archive.py:288-291 | A negative id is never listed, although its metadata can be written. |
| Archive.ArchiveHandler.constructor | breadbox/core/archive.py:269-274 | The handler holds the disk and its directory. |
| Archive.ArchiveHandler.Open | breadbox/core/archive.py:269-282 | An existing directory is used unchanged. An absent path is made with `mkdir`. A file in its place raises `NotADirectoryError`. |
| Archive.ArchiveHandler.SetItemInfo | breadbox/core/archive.py:310-317 | The new disk and the error are those of the metadata write, and the handler stays valid. |
| Archive.ArchiveHandler.ListItemsAsWritten | breadbox/core/archive.py:284-295 | The ids are sorted ascending and are exactly the as-written listing, as a multiset. |
| Archive.ArchiveHandler.ListItems | breadbox/core/archive.py:284-295 | The ids are sorted ascending and are exactly the corrected listing, as a multiset. |
| Archive.Info | breadbox/core/archive.py:93-98 | The info endpoint answers exactly the document read when reading succeeds. It answers `not_in_archive` (404) exactly when the read fails with `FileNotFoundError`. Other disk errors escape. |
| Archive.InfoOfMissingItem | breadbox/core/archive.py:95-98 | An item without `crumb.json` answers `not_in_archive`. |
| Archive.InfoAfterWrite | breadbox/core/archive.py:93-98 | After a successful metadata write, the info endpoint answers the written document. |
| Archive.Merge | breadbox/core/archive.py:111 | `existing \| new` has the keys of both. New values win, and keys only in `existing` keep their values. |
| Archive.MergeIdempotent | breadbox/core/archive.py:111 | Merging the same update twice equals merging it once, and merging nothing changes nothing. |
| Archive.UpdateExisting | breadbox/core/archive.py:109-113 | On an existing item the stored document becomes the merge and the answer is `resource_updated`. |
| Archive.UpdateMissing | breadbox/core/archive.py:115-117 | On a missing item the stored document becomes the new data and the answer is `resource_created`. |
| Archive.UpdateTwice | breadbox/core/archive.py:107-117 | A second identical update answers `resource_updated` and leaves the same document. |
| Archive.UpdateReplyStatuses | breadbox/core/archive.py:107-117 | An update that replies answers `resource_updated` with 200 or `resource_created` with 201. |
| Archive.UpdateKeepsOthers | breadbox/core/archive.py:107-117 | An update leaves every other item's metadata unchanged. |
| Archive.Nickname | breadbox/core/archive.py:172-175 | The offered download name starts with `<name>-<id>`. |
| Archive.NicknameOfOwnFile | breadbox/core/archive.py:172-173 | A filename made of the archive name, a dot and more is offered as `<name>-<id>.<ext>`. `ext` is the last dot-segment, so `name.ext` and `name.<anything>.ext` both give it and the middle segments are dropped. |
| Archive.NicknameOfBareName | breadbox/core/archive.py:172-173 | A filename equal to the archive name gives `<name>-<id>.<name>`. |
| Archive.NicknameOfOtherFile | breadbox/core/archive.py:174-175 | Any other filename gives `<name>-<id>-<filename>`. |
| Archive.GetFile | breadbox/core/archive.py:164-187 | A download is served exactly when `<archive>/<id>/<branch>/<filename>` is a regular file. It sends that path under the nickname for the archive name, id and filename. Otherwise the answer is `not_in_archive` (404), and nothing is raised. |
| Archive.WrongType | breadbox/core/archive.py:202-203 | A type mismatch answers `wrong_content_type` (400) with `expected_mimetype` set to the guessed type. |
| Archive.UploadToMissingItemRaises | breadbox/core/archive.py:205-206 | As written, an upload to a missing item raises a `TypeError` (the reply object is raised) instead of answering `not_in_archive`. |
| Archive.UploadCheckAsWritten | breadbox/core/archive.py:200-206 | As written, the upload proceeds iff the content type matches and the item exists. A mismatch is the `wrong_content_type` 400 reply. A missing item with a matching type is a raised `TypeError` rather than a reply. |
| Archive.UploadCheck | breadbox/core/archive.py:200-206 | The upload proceeds iff the content type matches and the item exists. A mismatch is the only 400 answer, and a missing item with a matching type is `not_in_archive`. |
| Archive.ContentTypeCheckedFirst | breadbox/core/archive.py:200-206 | With a mismatched type, whether the item exists makes no difference, both as written and corrected. |
| Archive.MakeBranch | breadbox/core/archive.py:210-211 | Succeeds exactly when the branch is already a directory, or is absent with a directory as its parent. An existing branch directory is kept unchanged; otherwise exactly that one directory is added. On success the branch is a directory and the disk stays well formed. |
| Archive.UploadReply | breadbox/core/archive.py:224-228 | A finished upload answers `upload_succeeded` (200) with `file_size` and `elapsed_time`. |
| Archive.StoreSucceeds | breadbox/core/archive.py:208-220 | A store raises nothing when the branch's parent is a directory, the branch is absent or a directory, and the file sits directly in the branch and is not a directory. |
| Archive.StoredIsFile | breadbox/core/archive.py:213-220 | A store that raised nothing leaves a regular file at its path. |
| Archive.UploadThenDownload | breadbox/core/archive.py:208-220 | An uploaded file is what the download endpoint then serves, with the uploaded bytes and the offered name. |
| Archive.StoreFrame | breadbox/core/archive.py:208-220 | An upload keeps the disk well formed and changes nothing but the branch directory and the file. |
| Archive.ListingUnaffected | breadbox/core/archive.py:288-291 | A change below an item's branch leaves the item listing unchanged, both the listing as written and the corrected one. |
| Archive.MetadataUnaffected | breadbox/core/archive.py:303-308 | A change below an item's branch leaves every item's metadata unchanged. |
| Archive.UploadKeepsItems | breadbox/core/archive.py:208-220 | An upload changes no item's existence or metadata, nor the listing (as written or corrected). |
| Archive.CopyChunks | breadbox/core/archive.py:218-220 | Reading 1024-byte chunks until an empty read leaves the written file equal to the rest of the upload, fully consumed. |
| Archive.ArchiveRouter.constructor | breadbox/core/archive.py:39-45 | The router holds its validated name and its handler. |
| Archive.ArchiveRouter.Create | breadbox/core/archive.py:27-48 | A bad name, and only a bad name, gives `ValueError`, before anything else. A valid name with no configured path, and only that, gives `LookupError`. A configured path is never falsy, so an empty one stands for the working directory. A valid name with a configured path that is a directory, or that is absent and can be made, sets up the router on it. |
| Archive.ArchiveRouter.InfoOfAll | breadbox/core/archive.py:70-73 | Each id's metadata is keyed by `str(id)`. The loop succeeds exactly when every id's metadata reads. Otherwise it raises the read error of the first id, in list order, whose read fails. |
| Archive.ArchiveRouter.AllInfo | breadbox/core/archive.py:68-73 | The answer maps `str(id)` of every id that `list_items` reports as written to its metadata. It succeeds exactly when each of those ids reads, so a listed `007` makes it fail. |
| Archive.ArchiveRouter.AllInfoCorrected | breadbox/core/archive.py:68-73 | The same answer over the corrected listing. It can fail only with a JSON decoding error, never with a missing file. |
| Archive.ArchiveRouter.Size | breadbox/core/archive.py:82-84 | The size is the number of ids `list_items` reports as written, non-canonical directory names included. |
| Archive.ArchiveRouter.SizeCorrected | breadbox/core/archive.py:82-84 | The size over the corrected listing: the number of items with a non-negative id. |
| Archive.ArchiveRouter.UpdateInfo | breadbox/core/archive.py:107-117 | The new disk and the answer are those of the update rule. |
| Archive.ArchiveRouter.UploadFile | breadbox/core/archive.py:190-228 | The checks are those of the code as written. A failed check answers without touching the disk or the stream; a missing item raises `TypeError`. Otherwise the disk becomes the stored upload, with `upload_succeeded` or the raised disk error. |
| Anime.MediaThumbnail | routers/anime.py:85-91 | An episode number gives `EP-`, then the number in at least two digits with no surplus leading zero (`%02d`), then `.png`. Any other name gives its upper-cased form plus `.png`. |
| Anime.MediaFile | routers/anime.py:93-99 | An episode number gives at least two digits reading the same number, then `.mkv`. Any other name gives `bonus/` plus its upper-cased form plus `.mkv`. |
| Anime.ThumbnailsNeverFixedImages | routers/anime.py:70-91 | No media thumbnail is named `thumbnail.jpg`, `banner.png` or `logo.png`. |
| Anime.EpisodeThumbnailsAgree | routers/anime.py:85-91 | Two episode numbers share a thumbnail iff they are the same number. |
| Anime.EpisodeFilesAgree | routers/anime.py:93-99 | Two episode numbers share a file iff they are the same number. |
| Anime.EpisodeAndBonusFilesDiffer | routers/anime.py:93-99 | An episode and a bonus item never share a file. |
| Anime.BonusThumbnailMeetsEpisode | routers/anime.py:85-91 | Bonus item `ep-01` gets episode 1's thumbnail. |
| Anime.EpisodesExactly | routers/anime.py:114-118 | Episode e is listed iff some regular file in `media` has a numeric stem reading e. |
| Anime.EpisodeListedPerFile | routers/anime.py:114-118 | Two files whose stems read the same number list that episode twice. |
| Anime.BonusExactly | routers/anime.py:126-133 | A bonus name is listed iff it does not start with `.` or `_`, is upper case, and is the stem of a regular file in `media/bonus`. |
| Anime.ListAnimeMedia | routers/anime.py:101-140 | A missing item raises `FileNotFoundError`. A missing or non-directory `media` raises the `iterdir` error. Otherwise episodes and bonus names are each sorted permutations of their listings, with no bonus names when `media/bonus` is missing. |
| Anime.EpisodeFilePath | routers/anime.py:93-99 | An episode's file is the single name `NN.mkv` directly in `media`. |
| Anime.EpisodeThumbnailPath | routers/anime.py:85-91 | An episode's thumbnail is exactly `EP-` plus the number formatted as `%02d` plus `.png`, a single name directly in `images`. |
| Anime.BonusThumbnailName | routers/anime.py:85-91 | A name that is not an episode number has, as thumbnail, its upper-cased form plus `.png`. |
| Anime.DigitsFileListed | routers/anime.py:114-118 | A regular file `D.mkv` in `media`, with D all digits, is listed as the number D reads. |
| Anime.UploadedEpisodeListed | routers/anime.py:93-120 | An episode uploaded under a number is then listed as that number. |
| Anime.BonusFilePath | routers/anime.py:93-99 | A bonus upload writes `bonus/NAME.mkv` inside `media`. |
| Anime.BonusFileListed | routers/anime.py:126-133 | A regular file `NAME.mkv` in `media/bonus` is listed as NAME when NAME is upper-cased, has a letter and does not start with `.` or `_`. |
| Anime.UploadedBonusListed | routers/anime.py:93-135 | Bonus content uploaded under a name with a letter and no leading `.` or `_` is then listed under its upper-cased name. |
| Anime.BonusWithoutLetterUnlisted | routers/anime.py:126-133 | A bonus name without a letter is stored but never listed. |
| Anime.BonusUploadNeedsBonusDir | breadbox/core/archive.py:208-218 | The upload makes `media` but not `media/bonus`. Without that directory a bonus upload fails with `FileNotFoundError`. |
| Linux.LinuxFile | routers/linux.py:50-55 | The stored name ends in `.iso` and is the filename itself or the filename plus `.iso`. |
| Linux.LinuxFileIdempotent | routers/linux.py:53-54 | Mapping twice equals mapping once, and a name ending in `.iso` is returned unchanged. |
| Linux.IsoFilesExactly | routers/linux.py:73-78 | A name is listed iff it is a regular file in `media` with suffix `.iso`, and then once. |
| Linux.ListLinuxFiles | routers/linux.py:57-84 | A missing item answers `not_in_archive`. A missing `media` gives no files. Otherwise the answer is the sorted ISO files. |
| Linux.StoredIsoListed | routers/linux.py:73-78 | A regular file named by `linux_file(f)` is listed unless that name is the bare `.iso`. |
| Linux.UploadedIsoListed | routers/linux.py:50-78 | A file uploaded under a plain name is then listed under its stored name, unless that name is the bare `.iso`. |
| Linux.EmptyNameNeverListed | routers/linux.py:50-78 | An empty filename is stored as `.iso`, which the listing never shows. |
| Games.GameFile | routers/games.py:60-63 | A game file is stored under the name it is asked for, character for character. |
| Games.GameFilesExactly | routers/games.py:80-83 | A name is listed iff it is a regular file in `media`, and then once. |
| Games.ListGameFiles | routers/games.py:65-89 | A missing item answers `not_in_archive`. A missing `media` gives no files. Otherwise the answer is the sorted regular files. |
| Games.UploadedGameListed | routers/games.py:60-85 | A game file uploaded under a plain name is then listed under that name. |
| Manga.ChapterFile | routers/manga.py:61-64 | Chapter c is stored as c followed by `.cbz`. |
| Manga.ChapterFileStem | routers/manga.py:82-87 | A non-empty chapter name comes back from its file name as the stem, with suffix `.cbz`. |
| Manga.ChaptersExactly | routers/manga.py:82-87 | A chapter is listed iff it is non-empty and its `.cbz` file is a regular file in `media`, and then once. |
| Manga.AllVersions | routers/manga.py:89 | The key check passes iff every chapter name is a version. |
| Manga.ListMangaChapters | routers/manga.py:66-93 | A missing item answers `not_in_archive`. A missing `media` gives no chapters. Otherwise the answer is either the chapter list or `InvalidVersion`. `InvalidVersion` is raised iff some chapter is not a version. A chapter list is sorted by version and is a permutation of the chapters. |
| Manga.UploadedChapterListed | routers/manga.py:61-87 | A chapter uploaded under a plain non-empty name is then listed under that name. |
| Manga.EmptyChapterNeverListed | routers/manga.py:61-87 | The empty chapter is stored as `.cbz`, which the listing never shows. |

## Left out

- Rate limiting (slowapi's `Limiter`) is left out. It is a foreign library with process-wide concurrent state.
- Request logging is left out, including the query-parameter blacklist and `logger.py`. The log call after a key passes reads `request.client.host`, which raises `AttributeError` when the request carries no client address. The model takes every request to have one, so that failure is not captured.
- Signed URLs and their reply codes are left out. No core file generates or checks a signature; the codes are only table entries.
- Configuration loading (TOML, environment variables, `exit()`) is left out. The `_Permissions` and `_Advanced` fields are an input record, and the archive paths a map.
- The user directory (SQLite, argon2, SHA-256) is left out. It is a parameter from a key to `(username, level)`.
- `config.py` declares no `auth_query` field, although `security.py` reads one. The model keeps it as an optional setting, so every source can be absent.
- FastAPI application construction, plugin discovery, OpenAPI text, route registration and the `inspect` signature rewriting are left out. The endpoint bodies are modelled directly, with `id`, `branch` and the filename as parameters.
- The routers pass `overwrite_protection=True` to `media()`, which accepts only `path`. The decorator call is not modelled, only the filename functions.
- `anime_media_thumbnail`'s route names `{episode}` while the function takes `media`. The route binding is not modelled, only the function.
- Pydantic validation and `model_dump` are left out. Metadata is a JSON object map, and validation is the identity.
- JSON text encoding is left out. A metadata file holds the decoded document. A byte file never decodes, giving `JsonDecode`.
- MIME guessing (`mimetypes.guess_type`) is left out. The guessed type is a parameter of the upload.
- Time is left out. The elapsed time is an integer parameter, so the float subtraction of two `time.time()` readings is not modelled.
- async/await and concurrent requests are left out. Each endpoint runs to completion on the disk state it starts from.
- Symlinks are not modelled. `resolve()` is the identity on the abstract disk.
- A path is a list of components: `..` segments, absolute filenames and the process working directory are not interpreted. `PathParts` splits a filename at `/` and drops empty pieces.
- `isnumeric`, `upper`, `isupper` and `int()` are modelled for ASCII only. Other Unicode digits and cased letters are treated as plain characters.
- HTTP header, cookie and query lookups are exact-key map lookups. Header-name case-insensitivity is not modelled.
- `respond` works on a shallow copy of a table entry, so it cannot change `RESPONSES`. In the model the table is an immutable constant and this holds by construction; there is no lemma.
- The `list_ids` endpoint is `ArchiveHandler.list_items` itself, so there is no separate member.
- Version parsing (`packaging.version.Version`) is left out. `Manga.ListMangaChapters` takes which names parse and the order of parsed versions as parameters.
- Manga.ListMangaChapters: the version order is any total preorder supplied by the caller, not `packaging`'s own ordering.
- Games.GameFile: states only that the name is returned unchanged, which is all the source does.
- The uploaded stream (`UploadFile`) is modelled by `Archive.UploadStream`, whose `Read` returns at most the requested number of bytes. Starlette's spooled temporary file is not modelled.
- `routers/_games.py` is not part of this model. The loader skips it.
- The fixed-image routes of Games and Manga (`thumbnail.jpg`, `logo.png`) only name a constant file that the download and upload endpoints then serve. They have no member of their own; Anime's fixed images are kept only to show that no episode thumbnail takes their names.

## Findings

| source | as written | input that shows it | evidently intended | confidence | as-written member | corrected member |
|---|---|---|---|---|---|---|
| breadbox/core/archive.py:205-206 | `raise respond('not_in_archive')` raises a reply object, which Python refuses with a `TypeError` (a 500 error) | an upload with a matching content type to an id that has no `crumb.json` | answer `not_in_archive` (404), as every other endpoint does for a missing item | not executed | Archive.UploadToMissingItemRaises | Archive.UploadCheck |
| breadbox/core/archive.py:288-301 | `list_items` accepts any all-digit directory name, so `007` is listed as id 7, but `check_item(7)` and `get_item_info(7)` look under `7`, so `all_info` fails on it and `size` counts it | an archive holding `007/crumb.json` and no `7` | every listed id is an item the other endpoints find | not executed | Archive.ListedIdNotFound | Archive.ListedIdsAreItems |
