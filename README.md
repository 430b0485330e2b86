# MDL_API catalog core in Dafny

This project models the core of MDL_API, a Rust web service that keeps a
catalog of manga titles scraped from a reading site. It covers the
following parts of the service:

- **Catalog** (`src/library.rs`). The catalog is the list of titles
  persisted in `titles/library.json`. The model covers:
  - smallest-free id allocation;
  - first-match lookups by id and by url;
  - adding a title: scrape, create its folder, fetch and write its cover,
    then append it to the catalog;
  - removing a title by id or by url;
  - adding a chapter (create its folder, then download its images) and
    removing one.
- **Storage** (`src/storage.rs`). The directory layout under `./public`:
  - `titles/{id}/` holds one title;
  - `titles/{id}/{chapter}/` holds one chapter's images;
  - `covers/{id}.jpeg` holds a title's cover.

  The model covers the create-if-absent, remove-tree and clear-subfolders
  operations, and the listing functions that count files or parse folder
  names as `u32`.
- **Timestamp** (`src/timestamp.rs`). `YYYY-MM-DD` dates:
  - formatting, as `get_time` does for a given date;
  - parsing;
  - the signed day difference of `get_duration`, over the proleptic
    Gregorian calendar.
- **Web** (`src/web.rs`). What the scraper does with the elements its CSS
  selectors matched:
  - chapter links reversed into oldest-first order;
  - the first title and cover match;
  - one download job per chapter image;
  - join semantics that ignore each task's own result.
- **Story** (`src/story.rs`). The `Title` and `Chapter` records.

How the model is organised:

- **Modules.** Each source file has a module: `Catalog`, `Storage`,
  `Timestamp`, `Web` and `Story`. Two shared modules support them:
  - `Numbers`: Rust's `u32`, `as u32`, decimal `Display`, zero padding and
    `parse::<u32>`;
  - `Results`: `Option` and `Result`.
- **Mutable state.**
  - The filesystem is `Storage.FileSystem`, a class whose `entries` map
    (path → `Dir`/`File`) is updated in place.
  - The catalog is `Catalog.Library`, a class whose `titles` field is the
    content of `library.json`.
- **Specification functions.** Most methods are proved equal to a function
  of the old state, for example `Catalog.AddTitleSpec` or
  `Storage.EnsureDir`. The lemmas about these functions state what the
  source promises. The two directory listings, `GetChapters` and
  `ReadDirectoryNames`, depend on the order the OS lists entries in. They
  are specified by predicates instead (`ChaptersReadable`,
  `IsEnumeration`, `NamesParseTo`).
- **Panics.** A Rust panic, such as a failed `unwrap`, becomes a `Panic`
  reply or an `ok == false` flag. Whatever the call had already written to
  disk stays written.
- **Directory order.** The order in which the OS lists a directory is
  chosen freely by the model (`:|`). Listing results are stated up to
  that order.

A few behaviours of the code worth knowing:

- `add_title` leaves the new title folder behind when the cover request
  fails;
- `remove_title_by_id` panics on an unknown id;
- `add_chapter` always downloads.

## Model

| member | source | states |
|---|---|---|
| `Story.NewTitle` | src/story.rs:20-28 | `Title::new` yields a record whose five fields are exactly the arguments |
| `Story.NewChapter` | src/story.rs:32-38 | `Chapter::new` yields a record whose three fields are exactly the arguments |
| `Numbers.AsU32` | src/library.rs:79 | `as u32` keeps the value below 2^32 and is congruent to it modulo 2^32 |
| `Numbers.NatToString` | src/storage.rs:38 | `format!("{}", n)` is a non-empty string of decimal digits |
| `Numbers.ParseU32` | src/storage.rs:18 | `parse::<u32>` accepts only an optional `+` followed by digits |
| `Numbers.NatToStringValue` | src/storage.rs:38 | the decimal rendering of `n` reads back as `n` |
| `Numbers.NatToStringInjective` | src/storage.rs:38 | distinct ids give distinct folder names |
| `Numbers.ParseU32OfNatToString` | src/storage.rs:129 | `parse::<u32>` reads back every folder name the service writes |
| `Numbers.Padded` | src/timestamp.rs:5 | chrono's zero-padded `%Y`, `%m` and `%d` fields: exactly the requested width, all digits; `PaddedValue` and `PaddedOfValue` give its value |
| `Numbers.PaddedValue` | src/timestamp.rs:5 | a zero-padded field reads back as its value when it fits the width |
| `Numbers.PaddedOfValue` | src/timestamp.rs:9 | a digit field is the zero-padded form of its own value |
| `Timestamp.DaysInMonth` | src/timestamp.rs:9 | every month has 28 to 31 days |
| `Timestamp.NextDay` | src/timestamp.rs:11 | the calendar successor of a valid date is a valid, later date |
| `Timestamp.MonthsFillYear` | src/timestamp.rs:11 | the twelve months add up to the year's length |
| `Timestamp.LeapYearByRemainders` | src/timestamp.rs:11 | the year length follows the Gregorian rule (every 4th year, except centuries, except every 400th) |
| `Timestamp.DaysBeforeYearClosedForm` | src/timestamp.rs:11 | the days before year y are 365y + ⌈y/4⌉ − ⌈y/100⌉ + ⌈y/400⌉ |
| `Timestamp.DaysBeforeYearMonotone` | src/timestamp.rs:11 | later years start later |
| `Timestamp.DaysBeforeMonthMonotone` | src/timestamp.rs:11 | later months start later within a year |
| `Timestamp.DayNumberWithinYear` | src/timestamp.rs:11 | a date's day number lies between its year's start and the next year's start |
| `Timestamp.DayNumberBound` | src/timestamp.rs:12 | four-digit-year dates have day numbers below 3652425, so their differences fit in an `i32` |
| `Timestamp.DayNumberOrder` | src/timestamp.rs:11 | one date is earlier than another exactly when its day number is smaller |
| `Timestamp.DayNumberInjective` | src/timestamp.rs:11 | distinct dates have distinct day numbers |
| `Timestamp.NextDayNumber` | src/timestamp.rs:11 | consecutive calendar days, across month ends, year ends and 29 February, differ by exactly one day |
| `Timestamp.MonthFrom` | src/timestamp.rs:11 | the date at a given offset inside a month of a year has exactly that day number |
| `Timestamp.YearFrom` | src/timestamp.rs:11 | the date at a given offset from a year's start has exactly that day number |
| `Timestamp.CivilFromDays` | src/timestamp.rs:11 | every day number is the day number of a valid date |
| `Timestamp.CivilFromDaysOfDayNumber` | src/timestamp.rs:11 | converting a date to its day number and back gives the date |
| `Timestamp.FormatDate` | src/timestamp.rs:5 | `%Y-%m-%d` of a date is ten characters with dashes at positions 4 and 7 |
| `Timestamp.ParseDate` | src/timestamp.rs:9-10 | a parsed date is valid, has a 4-digit year, and formats back to the parsed text |
| `Timestamp.ParseFormat` | src/timestamp.rs:3-10 | parsing the formatted date gives the date back |
| `Timestamp.ParseDateExact` | src/timestamp.rs:9-10 | text parses to a date exactly when it is that date's `%Y-%m-%d` form |
| `Timestamp.GetTime` | src/timestamp.rs:3-6 | the formatted date of the clock reading parses back to that date |
| `Timestamp.AsI32` | src/timestamp.rs:12 | `as i32` gives a value in the `i32` range, equal to the input when it is already in range |
| `Timestamp.DayNumber` | src/timestamp.rs:11 | the number of days from 0000-01-01 to a valid date, the quantity `end - start` subtracts; `DayNumberOrder`, `DayNumberInjective`, `NextDayNumber` and `CivilFromDaysOfDayNumber` state its properties |
| `Timestamp.GetDuration` | src/timestamp.rs:8-13 | the result exists exactly when both texts parse, and is then the end's day number minus the start's |
| `Timestamp.DurationSelf` | src/timestamp.rs:8-13 | a date is 0 days from itself |
| `Timestamp.DurationAntisymmetric` | src/timestamp.rs:11-12 | swapping the arguments negates the duration |
| `Timestamp.DurationAdditive` | src/timestamp.rs:11-12 | durations from a to b and from b to c add up to the duration from a to c |
| `Timestamp.DurationSign` | src/timestamp.rs:11-12 | the duration is 0 exactly when both texts name the same date, and positive exactly when the start is earlier |
| `Timestamp.DurationOfNextDay` | src/timestamp.rs:9-12 | a date and its successor are 1 day apart |
| `Timestamp.RejectsFebruary29OfCommonYear` | src/timestamp.rs:9 | `2023-02-29` does not parse, so `get_duration` panics |
| `Timestamp.RejectsMonth13` | src/timestamp.rs:9 | `2024-13-01` does not parse, so `get_duration` panics |
| `Storage.CreateDirResult` | src/storage.rs:38 | `create_dir`: AlreadyExists on an existing path, a new directory under an existing directory, NotFound or a path-shape error otherwise; its effect is stated by `EnsureDirSpec` |
| `Storage.RemoveDirAllResult` | src/storage.rs:47 | `remove_dir_all`: NotFound on a missing path, an error on a file, otherwise the whole subtree removed; its effect is stated by `PruneSpec` and `RemoveTreeSpec` |
| `Storage.ReadDir` | src/storage.rs:64 | `read_dir`: the direct children of an existing directory, NotFound on a missing path, an error otherwise; `NoChildrenOfNonDir` states that only a directory has children |
| `Storage.CreateFileResult` | src/storage.rs:58 | `File::create`: truncates an existing file, creates one under an existing directory, fails otherwise; its effect is stated by `WriteFileSpec` |
| `Storage.EnsureDir` | src/storage.rs:36-43 | `setup_title`/`setup_chapter`: `create_dir` with AlreadyExists counted as success; `EnsureDirSpec`, `EnsureDirIdempotent` and `EnsureDirWellFormed` state its properties |
| `Storage.RemoveTree` | src/storage.rs:45-54 | `remove_title`/`delete_chapter`: `remove_dir_all` with NotFound counted as success; `RemoveTreeSpec`, `RemoveTreeIdempotent` and `RemoveTreeWellFormed` state its properties |
| `Storage.WriteFile` | src/storage.rs:56-60 | `save_cover`: `File::create` with any error a panic; `WriteFileSpec` and `WriteFileWellFormed` state its properties |
| `Storage.ClearDirs` | src/storage.rs:62-80 | `clear_title`: every subfolder of the title folder removed with its contents, a missing folder tolerated; `ClearDirsSpec` and `ClearDirsIdempotent` state its properties |
| `Storage.NumImages` | src/storage.rs:102-121 | `get_num_images`: the number of plain files in the chapter folder, 0 when it is missing, a panic on any other error; `GetNumImages` is proved equal to it |
| `Storage.TitlePath` | src/storage.rs:38 | the title folder `format!("{}/{}", TITLE_PATH, id)` as a path; `NatToStringInjective` keeps distinct ids in distinct folders |
| `Storage.ChapterPath` | src/storage.rs:84 | the chapter folder `format!("{}/{}/{}", TITLE_PATH, title_id, chapter_id)`, also used at src/storage.rs:93 and src/storage.rs:104 |
| `Storage.CoverPath` | src/storage.rs:58 | the cover file `format!("{COVER_PATH}/{id}.jpeg")` as a path |
| `Storage.ChapterDirText` | src/library.rs:148 | the chapter folder as the text handed to the downloader |
| `Storage.ChaptersReadable` | src/storage.rs:125-139 | `get_chapters` does not panic: the folder is missing, or every subfolder name parses as `u32`; `GetChapters` completes exactly when it holds |
| `Storage.NamesReadable` | src/storage.rs:15-18 | `read_directory_names` does not panic: the folder lists, and every entry name parses as `u32`; `ReadDirectoryNames` completes exactly when it holds |
| `Storage.AncestorIsDir` | src/storage.rs:36-43 | every proper ancestor of an existing entry is an existing directory |
| `Storage.NothingBelowNonDir` | src/storage.rs:45-54 | an entry below a path means that path is an existing directory |
| `Storage.EnsureDirSpec` | src/storage.rs:36-43 | setup succeeds exactly when the path exists or its parent is a directory; afterwards the path exists, a fresh one as a directory, and nothing else changes |
| `Storage.EnsureDirIdempotent` | src/storage.rs:82-89 | setting a folder up twice is setting it up once |
| `Storage.EnsureDirWellFormed` | src/storage.rs:36-43 | folder setup keeps every entry hanging below existing directories |
| `Storage.PruneSpec` | src/storage.rs:47 | `remove_dir_all` removes exactly the path and everything below it |
| `Storage.PruneWellFormed` | src/storage.rs:47 | removing a subtree keeps the layout well formed |
| `Storage.RemoveTreeSpec` | src/storage.rs:45-54 | removal succeeds exactly when the path is a directory or missing and reachable; nothing at or below it remains, nothing else changes, and a missing folder is a no-op |
| `Storage.RemoveTreeIdempotent` | src/storage.rs:45-54 | removing twice is removing once |
| `Storage.RemoveTreeWellFormed` | src/storage.rs:91-100 | removing a folder keeps the layout well formed |
| `Storage.RemoveTitleKeepsCoversAndCatalog` | src/storage.rs:8-10 | removing a title folder never removes a cover or `library.json` |
| `Storage.WriteFileSpec` | src/storage.rs:56-60 | the cover write succeeds exactly when the path is a file or absent under a directory, and then leaves a file; nothing else changes |
| `Storage.FolderThenCover` | src/library.rs:87-92 | after the title folder and the cover were both written, both exist and the cover is a file |
| `Storage.WriteFileWellFormed` | src/storage.rs:56-60 | writing the cover keeps the layout well formed |
| `Storage.ClearDirsSpec` | src/storage.rs:62-80 | clearing keeps the title folder and its plain files, removes every subfolder tree, changes nothing outside it, and is a no-op on a missing folder |
| `Storage.ClearDirsIdempotent` | src/storage.rs:62-80 | clearing twice is clearing once |
| `Storage.NoChildrenOfNonDir` | src/storage.rs:64 | only a directory has entries |
| `Storage.SweepStep` | src/storage.rs:66-69 | one more swept child extends the cleared state by exactly that child's subtree |
| `Storage.FileSystem.CreateDir` | src/storage.rs:38 | `create_dir` adds the directory or reports the error, leaving the entries unchanged |
| `Storage.FileSystem.RemoveDirAll` | src/storage.rs:47 | `remove_dir_all` removes the subtree or reports the error, leaving the entries unchanged |
| `Storage.FileSystem.CreateFile` | src/storage.rs:58 | `File::create` adds the file or reports the error, leaving the entries unchanged |
| `Storage.FileSystem.SetupTitle` | src/storage.rs:36-43 | the new entries and the panic flag are those of `EnsureDir` on `titles/{id}` |
| `Storage.FileSystem.RemoveTitle` | src/storage.rs:45-54 | the new entries and the panic flag are those of `RemoveTree` on `titles/{id}` |
| `Storage.FileSystem.SaveCover` | src/storage.rs:56-60 | the new entries and the panic flag are those of `WriteFile` on `covers/{id}.jpeg` |
| `Storage.FileSystem.SetupChapter` | src/storage.rs:82-89 | the new entries and the panic flag are those of `EnsureDir` on `titles/{t}/{c}` |
| `Storage.FileSystem.DeleteChapter` | src/storage.rs:91-100 | the new entries and the panic flag are those of `RemoveTree` on `titles/{t}/{c}` |
| `Storage.FileSystem.ClearTitle` | src/storage.rs:62-80 | the directory-order loop leaves exactly the state of `ClearDirs` |
| `Storage.FileSystem.SweepChild` | src/storage.rs:66-69 | one step of the listing loop: a child that is a directory is removed with its subtree, and the entries then equal the cleared state with that child swept |
| `Storage.FileSystem.GetNumImages` | src/storage.rs:102-121 | the count is the number of plain files directly in the chapter folder, 0 for a missing folder, and a panic otherwise |
| `Storage.FileSystem.GetChapters` | src/storage.rs:123-142 | it completes exactly when every subfolder name parses as `u32`; the ids are then those names, one per subfolder, in directory order |
| `Storage.FileSystem.ReadDirectoryNames` | src/storage.rs:13-22 | it completes exactly when every entry name parses as `u32`; the ids are then those names, files included, one per entry |
| `Web.Reversed` | src/web.rs:37 | reversal keeps the length |
| `Web.ReversedIndex` | src/web.rs:37 | element k of the reversal is element n−1−k of the input |
| `Web.ReversedTwice` | src/web.rs:37 | reversing twice gives the input back |
| `Web.AnchorLinks` | src/web.rs:32-35 | one link per matched anchor |
| `Web.ScoutLinksReversed` | src/web.rs:32-37 | the links are the anchors in reverse document order, each its own text and `href` |
| `Web.ScoutSucceedsIff` | src/web.rs:20-55 | scouting succeeds exactly when every anchor has an `href`, a title matched and the first cover has a `src`; the title and cover come from the first matches |
| `Web.Reverse` | src/web.rs:37 | the in-place array reversal leaves the reversal of the old contents |
| `Web.ScoutResult` | src/web.rs:20-55 | what `scout_title` returns, or which `unwrap` fails first; `ScoutSucceedsIff` and `ScoutLinksReversed` state its properties |
| `Web.ScoutTitle` | src/web.rs:20-55 | the method returns `ScoutResult` of the page |
| `Web.Jobs` | src/web.rs:68-74 | one job per image |
| `Web.FirstMissing` | src/web.rs:70 | the position of the first image without `src`, with every earlier image having one |
| `Web.ImagePath` | src/web.rs:71 | the destination `{dir}/{i}.png` of image `i`; `ImagePathsDistinct` keeps the destinations apart |
| `Web.ImagePathsDistinct` | src/web.rs:71 | different image positions get different destination paths |
| `Web.JobsSpec` | src/web.rs:68-74 | job i downloads image i's `src` to `{dir}/{i}.png`, and all destinations differ |
| `Web.DownloadPlan` | src/web.rs:57-81 | the jobs `download_chapter` spawns and how the call ends; `DownloadPlanSpec` and `DownloadIgnoresTaskResults` state its properties |
| `Web.DownloadPlanSpec` | src/web.rs:57-81 | the download panics exactly when an image lacks `src`, after spawning the earlier jobs; otherwise it spawns one job per image and completes exactly when every task joins |
| `Web.DownloadIgnoresTaskResults` | src/web.rs:77-79 | whether tasks saved their image never changes how the call ends |
| `Web.DownloadChapter` | src/web.rs:57-81 | the spawn loop and the join loop give exactly the jobs and the status of `DownloadPlan` |
| `Catalog.PositionById` | src/library.rs:126 | `position` by id gives the first matching index, and none exactly when no title has the id |
| `Catalog.PositionByUrl` | src/library.rs:104 | `position` by url gives the first matching index, and none exactly when no title has the url |
| `Catalog.GetTitleById` | src/library.rs:39-41 | the first title with the id, and none exactly when no title has it |
| `Catalog.GetTitleByUrl` | src/library.rs:43-45 | the first title with the url, and none exactly when no title has it |
| `Catalog.IdsCount` | src/library.rs:48-49 | the id set has at most as many elements as there are titles |
| `Catalog.CoveredCount` | src/library.rs:51-53 | a set holding 0..n−1 has at least n elements |
| `Catalog.CoveredPrefixBound` | src/library.rs:50-53 | the ids cannot cover more of 0, 1, 2, … than there are titles |
| `Catalog.FreeFrom` | src/library.rs:51-53 | counting up from a covered prefix reaches the smallest free id, at most the number of titles |
| `Catalog.SmallestFreeId` | src/library.rs:47-55 | no title has this id, every smaller number is some title's id, and it is at most the number of titles |
| `Catalog.SmallestFreeUnique` | src/library.rs:47-55 | the smallest free id is unique |
| `Catalog.GetNewId` | src/library.rs:47-55 | the loop returns the smallest id no title uses, without passing `u32::MAX` |
| `Catalog.BuildChapters` | src/library.rs:76-83 | link `i` becomes chapter `i as u32` with the link text and url; `BuildChaptersSpec` states its properties |
| `Catalog.BuildChaptersSpec` | src/library.rs:76-83 | chapter i has id i (below 2^32) and link i's text and url; with at most 2^32 links the ids are distinct |
| `Catalog.SwapRemove` | src/library.rs:129-133 | `Vec::swap_remove`, which `pop` on the last index equals; `SwapRemoveSpec` and `SwapRemoveKeepsUnique` state its properties |
| `Catalog.SwapRemoveSpec` | src/library.rs:129-133 | `swap_remove(i)` drops exactly element i, keeps every other element, and moves the last one into place i |
| `Catalog.SwapRemoveKeepsUnique` | src/library.rs:129-133 | removing a title keeps ids and urls unique |
| `Catalog.UrlGoneAfterSwapRemove` | src/library.rs:129-133 | with unique urls, swap-removing the title with a url leaves no title with that url |
| `Catalog.AddTitleSpec` | src/library.rs:57-100 | the reply and new state of `add_title`; `AddTitleExistingUrl`, `AddTitleAppends`, `AddTitleKeepsUnique` and `AddTitleCoverFailureLeavesFolder` state its properties |
| `Catalog.RemoveByIdSpec` | src/library.rs:114-140 | the reply and new state of `remove_title_by_id`; `RemoveByIdRemovesThatTitle` states its properties |
| `Catalog.RemoveByUrlSpec` | src/library.rs:102-112 | `remove_title_by_url` as written, passing the position as the id; `RemoveByUrlKeepsCatalogSound`, `RemoveByUrlRemovesPositionId` and `RemoveByUrlMisdirected` state its properties |
| `Catalog.RemoveByUrlFixedSpec` | src/library.rs:102-112 | `remove_title_by_url` passing the found title's id; `RemoveByUrlFixedRemovesThatTitle` states its properties |
| `Catalog.AddChapterSpec` | src/library.rs:142-151 | the reply and new disk of `add_chapter`; `AddChapterSucceedsIff` and `AddChapterFolderFirst` state its properties |
| `Catalog.RemoveChapterSpec` | src/library.rs:153-156 | the reply and new disk of `remove_chapter`; `RemoveChapterKeepsOthers` states its properties |
| `Catalog.AddTitleExistingUrl` | src/library.rs:62-65 | adding a catalogued url returns the first title with that url and changes neither the catalog nor the disk |
| `Catalog.AddTitleAppends` | src/library.rs:67-99 | a successful add appends exactly one title; it has the smallest free id, the url, the scraped name, today's date (parsable back) and chapters numbered by position; its folder and cover exist |
| `Catalog.AddTitleKeepsUnique` | src/library.rs:62-96 | however `add_title` ends, ids and urls stay unique and the catalog grows only on success |
| `Catalog.AddTitleCoverFailureLeavesFolder` | src/library.rs:87-91 | a failed cover request returns an error, leaves the catalog unchanged and leaves the new title folder behind |
| `Catalog.RemoveByIdRemovesThatTitle` | src/library.rs:114-140 | a catalogued id loses exactly its title (every other title kept) and its folder; an unknown id loses its folder, then panics with the catalog unchanged |
| `Catalog.RemoveByUrlKeepsCatalogSound` | src/library.rs:102-112 | as written, an absent url returns `Ok` with catalog and disk unchanged, and every outcome keeps ids and urls unique |
| `Catalog.RemoveByUrlRemovesPositionId` | src/library.rs:102-112 | as written, removing by url removes the title whose id equals the url's position |
| `Catalog.RemoveByUrlMisdirected` | src/library.rs:110-111 | removing url "a" from [(5, "a"), (0, "b")] with both folders on disk removes folder `titles/0` and the title with url "b", and keeps folder `titles/5` and the title with url "a" |
| `Catalog.RemoveByUrlFixedRemovesThatTitle` | src/library.rs:102-112 | corrected: an unknown url changes nothing; otherwise exactly the title with that url is removed and the url is gone |
| `Catalog.AddChapterSucceedsIff` | src/library.rs:142-151 | `add_chapter` never changes the catalog; it succeeds exactly when the folder is made, the title has the chapter, every image has `src` and every task joins; on success its jobs are one per image |
| `Catalog.AddChapterFolderFirst` | src/library.rs:143-148 | a call that fails after the folder step still leaves the chapter folder behind |
| `Catalog.RemoveChapterKeepsOthers` | src/library.rs:153-156 | removing a chapter leaves every other chapter folder and the catalog unchanged |
| `Catalog.Library.Valid` | src/library.rs:57-156 | the catalog invariant that no two titles share an id or a url; every catalog-changing method keeps it |
| `Catalog.Library.AddTitle` | src/library.rs:57-100 | the reply, new catalog and new disk are those of `AddTitleSpec`; a valid catalog stays valid |
| `Catalog.Library.RemoveTitleById` | src/library.rs:114-140 | the reply, new catalog and new disk are those of `RemoveByIdSpec`; the repeated folder removal is a no-op and the `swap_remove`/`pop` branch is a plain swap-remove; a valid catalog stays valid |
| `Catalog.Library.RemoveTitleByUrl` | src/library.rs:102-112 | the reply and new state are those of the as-written `RemoveByUrlSpec`; a valid catalog stays valid |
| `Catalog.Library.RemoveTitleByUrlFixed` | src/library.rs:102-112 | the reply and new state are those of the corrected `RemoveByUrlFixedSpec`; a valid catalog stays valid |
| `Catalog.Library.AddChapter` | src/library.rs:142-151 | the reply and new disk are those of `AddChapterSpec`; the catalog is unchanged |
| `Catalog.Library.RemoveChapter` | src/library.rs:153-156 | the reply and new disk are those of `RemoveChapterSpec` |

## Left out

- HTTP:
  - the client headers and every GET;
  - `response.text()` and `response.bytes()`;
  - HTML parsing and CSS-selector matching.

  The matched elements are inputs (`TitlePage`, the chapter's image
  elements), and so is whether the cover request succeeded.
- `add_chapter` does not fetch the chapter page from the chapter's url: the
  page is given as an input. The chapter-existence check is modelled; the
  url it yields is not tied to the page.
- Concurrency:
  - `tokio::spawn` scheduling: each task is reduced to how it ends;
  - tasks still running after a panic;
  - races between concurrent requests on the same catalog.
- File contents: the image and cover bytes, and the JSON text of
  `library.json`.
  - The download tasks' image files are not added to the filesystem model.
  - `save_cover` is modelled as creating `covers/{id}.jpeg`.
- `load_library` and `save_library` are reads and writes of the `titles`
  field. Their panics on a missing, unreadable or unwritable
  `library.json` are not modelled.
- The clock read in `get_time`: the date is a parameter, with a year
  below 10000.
- Timestamp.ParseDate: accepts only the zero-padded four-digit form
  (`YYYY-MM-DD`). chrono's `%Y-%m-%d` also accepts unpadded fields, signed
  years and other year widths, so the model rejects some texts that the
  source accepts. `Timestamp.RejectsUnpaddedMonth` shows one: the model
  rejects `2024-2-03`, which chrono reads as 3 February 2024. For the same
  reason `Timestamp.ParseDateExact` holds only in the model: its only-if
  half, that a text which parses is the date's formatted text, fails for
  chrono.
- Catalog.GetNewId: requires fewer than 2^32 titles, the most a `u32` id
  space can number. With 2^32 titles holding every id, `new_id += 1` would
  overflow.
- Storage.FileSystem.GetNumImages: counts with an unbounded integer. The
  source's `u32` counter could overflow only past 2^32 files. Failures of
  `next_entry()` or `file_type()` in the middle of the listing are not
  modelled.
- Storage.FileSystem.GetChapters: models neither failures of
  `next_entry()` or `file_type()` in the middle of a listing, nor entry
  names that are not UTF-8. Only the `parse::<u32>` failure is modelled.
- Storage.FileSystem.ReadDirectoryNames: the same holds for the listing in
  `read_directory_names` (`next_entry()`, `into_string()`): only the
  `parse::<u32>` failure is modelled.
- Storage.FileSystem.ClearTitle: failures of `next_entry()` or
  `file_type()` during the listing, and a failing `remove_dir_all` on a
  subfolder, are not modelled. On the modelled disk that removal always
  succeeds.
- The disk model has no permission or I/O faults. Its only error other
  than AlreadyExists and NotFound is `OtherError`, which arises from the
  shape of a path: a file where a directory is needed, or a directory
  where a file is needed. The storage helpers turn it into a panic.
- `library.rs:117` matches `Err` on `storage::remove_title`, which in
  `src/storage.rs` returns `()` and panics instead.
  - The model uses the `storage.rs` behaviour.
  - The second removal at `library.rs:122` is then a proved no-op.
- `library.rs:92` passes the whole response where `save_cover` takes
  bytes. Only the path written is modelled.
- `src/main.rs`, `src/user.rs` and `src/latency.rs` are not part of this
  model. They contain:
  - HTTP routes;
  - the background update loop, whose `Library` methods are not defined in
    `library.rs`;
  - the `.jpg` read paths, which disagree with the `.jpeg`/`.png` write
    paths;
  - user JSON files;
  - timing output.
- `Clone` on `Title` and `Chapter` is value equality here, since Dafny
  datatypes are values.

## Findings

| source | as written | input that shows it | evidently intended | confidence | as-written member | corrected member |
|---|---|---|---|---|---|---|
| src/library.rs:110-111 | `remove_title_by_url` passes the url's position `index as u32` to `remove_title_by_id` as the title id | catalog [(id 5, url "a"), (id 0, url "b")], remove url "a": folder `titles/0` and the title with url "b" are removed, and the title with url "a" stays | pass `library.titles[index].id` | not executed | `Catalog.RemoveByUrlMisdirected` | `Catalog.RemoveByUrlFixedRemovesThatTitle` |
