/**
 * The on-disk layout under the data root `./public`: one folder per title
 * (`titles/{id}`), one folder per downloaded chapter (`titles/{id}/{chapter}`),
 * cover images in `covers/{id}.jpeg`, and the catalog file
 * `titles/library.json`. The filesystem is a map from path to entry kind that
 * the operations update in place; file contents are not modelled.
 *
 * Each operation is a method on `FileSystem` that performs the same OS calls
 * as the source (create_dir, remove_dir_all, read_dir, File::create) and
 * tolerates the same error kinds; its effect is specified by a function on
 * the map, and the lemmas about those functions carry the properties.
 */
module Storage {
  import opened Results
  import opened Numbers

  datatype Kind = Dir | File

  /** A path as its components below the data root; `[]` is the root itself, which always exists. */
  type Path = seq<string>

  /** The filesystem below the root: every existing entry and its kind. */
  type Disk = map<Path, Kind>

  /** The OS error kinds the source tells apart; every other kind is `OtherError`. */
  datatype IoError = AlreadyExists | NotFound | OtherError

  const TITLES: string := "titles"
  const COVERS: string := "covers"

  /** `TITLE_PATH` as text, the prefix of the folder handed to the image downloader. */
  const TITLE_PATH: string := "./public/titles"

  /** The catalog file, `{TITLE_PATH}/library.json`. */
  const LIBRARY_PATH: Path := [TITLES, "library.json"]

  function TitlePath(id: u32): Path {
    [TITLES, NatToString(id)]
  }

  function ChapterPath(titleId: u32, chapterId: u32): Path {
    [TITLES, NatToString(titleId), NatToString(chapterId)]
  }

  function CoverPath(id: u32): Path {
    [COVERS, NatToString(id) + ".jpeg"]
  }

  /** `format!("{TITLE_PATH}/{title_id}/{chapter_id}")`: the chapter folder as text. */
  function ChapterDirText(titleId: u32, chapterId: u32): string {
    TITLE_PATH + "/" + NatToString(titleId) + "/" + NatToString(chapterId)
  }

  function Parent(p: Path): Path
    requires |p| > 0
  {
    p[..|p| - 1]
  }

  function Name(p: Path): string
    requires |p| > 0
  {
    p[|p| - 1]
  }

  /** Every entry hangs below the root through existing directories. */
  ghost predicate WellFormed(m: Disk) {
    && (forall p :: p in m ==> |p| > 0)
    && (forall p {:trigger Parent(p)} :: p in m && |p| > 1 ==> Parent(p) in m && m[Parent(p)] == Dir)
  }

  predicate IsDir(m: Disk, p: Path) {
    p == [] || (p in m && m[p] == Dir)
  }

  /** Some proper ancestor of `p` is a plain file, so resolving `p` fails with ENOTDIR. */
  predicate Blocked(m: Disk, p: Path) {
    exists i :: 0 < i < |p| && p[..i] in m && m[p[..i]] == File
  }

  /** The entries directly inside `p`. */
  function Children(m: Disk, p: Path): set<Path> {
    set q | q in m && |q| == |p| + 1 && p <= q
  }

  function FileChildren(m: Disk, p: Path): set<Path> {
    set q | q in Children(m, p) && m[q] == File
  }

  function DirChildren(m: Disk, p: Path): set<Path> {
    set q | q in Children(m, p) && m[q] == Dir
  }

  /** `m` and `m'` agree on every path that is not strictly below `p`. */
  ghost predicate SameOutside(m: Disk, m': Disk, p: Path) {
    forall q :: !(p < q) ==> (q in m <==> q in m') && (q in m ==> m[q] == m'[q])
  }

  /** `order` lists the set `s`, each element once. */
  ghost predicate IsEnumeration(order: seq<Path>, s: set<Path>) {
    && (forall i :: 0 <= i < |order| ==> order[i] in s)
    && (forall c :: c in s ==> c in order)
    && (forall i, j :: 0 <= i < j < |order| ==> order[i] != order[j])
  }

  // ---------------------------------------------------------------------------
  // The OS calls

  /** `create_dir(p)`. */
  function CreateDirResult(m: Disk, p: Path): Result<Disk, IoError>
    requires |p| > 0
  {
    if p in m then Err(AlreadyExists)
    else if IsDir(m, Parent(p)) then Ok(m[p := Dir])
    else if Parent(p) in m || Blocked(m, Parent(p)) then Err(OtherError)
    else Err(NotFound)
  }

  /** Everything in `m` except `p` and the entries below it. */
  function Prune(m: Disk, p: Path): Disk {
    map q | q in m && !(p <= q) :: m[q]
  }

  /** `remove_dir_all(p)`. */
  function RemoveDirAllResult(m: Disk, p: Path): Result<Disk, IoError>
    requires |p| > 0
  {
    if p !in m then Err(if Blocked(m, p) then OtherError else NotFound)
    else if m[p] == File then Err(OtherError)
    else Ok(Prune(m, p))
  }

  /** `read_dir(p)`: the entries directly inside the directory `p`. */
  function ReadDir(m: Disk, p: Path): Result<set<Path>, IoError> {
    if IsDir(m, p) then Ok(Children(m, p))
    else if p in m || Blocked(m, p) then Err(OtherError)
    else Err(NotFound)
  }

  /** `File::create(p)`: creates or truncates a plain file. */
  function CreateFileResult(m: Disk, p: Path): Result<Disk, IoError>
    requires |p| > 0
  {
    if p in m then (if m[p] == File then Ok(m) else Err(OtherError))
    else if IsDir(m, Parent(p)) then Ok(m[p := File])
    else if Parent(p) in m || Blocked(m, Parent(p)) then Err(OtherError)
    else Err(NotFound)
  }

  // ---------------------------------------------------------------------------
  // The effect of each storage operation on the disk

  /** What a storage operation leaves behind; `ok == false` means it panicked there. */
  datatype Effect = Effect(disk: Disk, ok: bool)

  /** `setup_title` / `setup_chapter`: create the folder, AlreadyExists counting as success. */
  function EnsureDir(m: Disk, p: Path): Effect
    requires |p| > 0
  {
    match CreateDirResult(m, p)
    case Ok(m') => Effect(m', true)
    case Err(e) => Effect(m, e == AlreadyExists)
  }

  /** `remove_title` / `delete_chapter`: remove the folder tree, NotFound counting as success. */
  function RemoveTree(m: Disk, p: Path): Effect
    requires |p| > 0
  {
    match RemoveDirAllResult(m, p)
    case Ok(m') => Effect(m', true)
    case Err(e) => Effect(m, e == NotFound)
  }

  /** `save_cover`: create (or truncate) the cover file, panicking on any error. */
  function WriteFile(m: Disk, p: Path): Effect
    requires |p| > 0
  {
    match CreateFileResult(m, p)
    case Ok(m') => Effect(m', true)
    case Err(_) => Effect(m, false)
  }

  /** `q` lies in (or is) a directory child of `p` that is already in `done`. */
  predicate Swept(m: Disk, p: Path, done: set<Path>, q: Path) {
    |q| > |p| && q[..|p| + 1] in done && q[..|p| + 1] in m && m[q[..|p| + 1]] == Dir
  }

  function SweptAway(m: Disk, p: Path, done: set<Path>): Disk {
    map q | q in m && !Swept(m, p, done, q) :: m[q]
  }

  /** `clear_title`: remove every directory child of `p` with its contents. */
  function ClearDirs(m: Disk, p: Path): Effect {
    match ReadDir(m, p)
    case Ok(children) => Effect(SweptAway(m, p, children), true)
    case Err(e) => Effect(m, e == NotFound)
  }

  /** `get_num_images`: the number of plain files in `p`, `None` where the source panics. */
  function NumImages(m: Disk, p: Path): Option<nat> {
    match ReadDir(m, p)
    case Ok(_) => Some(|FileChildren(m, p)|)
    case Err(e) => if e == NotFound then Some(0) else None
  }

  /** `get_chapters` completes without panicking. */
  predicate ChaptersReadable(m: Disk, p: Path) {
    match ReadDir(m, p)
    case Ok(children) => forall c :: c in children && m[c] == Dir ==> ParseU32(Name(c)).Some?
    case Err(e) => e == NotFound
  }

  /** `read_directory_names` completes without panicking. */
  predicate NamesReadable(m: Disk, p: Path) {
    match ReadDir(m, p)
    case Ok(children) => forall c :: c in children ==> ParseU32(Name(c)).Some?
    case Err(_) => false
  }

  /** `ids` are the parsed names of `order`, position by position. */
  ghost predicate NamesParseTo(order: seq<Path>, ids: seq<u32>) {
    |order| == |ids| && forall i :: 0 <= i < |order| ==> |order[i]| > 0 && ParseU32(Name(order[i])) == Some(ids[i])
  }

  // ---------------------------------------------------------------------------
  // Lemmas

  /** Every proper ancestor of an entry is an existing directory. */
  lemma {:induction false} AncestorIsDir(m: Disk, q: Path, k: nat)
    requires WellFormed(m) && q in m && 0 < k < |q|
    ensures q[..k] in m && m[q[..k]] == Dir
    decreases |q| - k
  {
    if k < |q| - 1 {
      AncestorIsDir(m, Parent(q), k);
      assert Parent(q)[..k] == q[..k];
    }
  }

  /** Under a well-formed disk nothing is below a missing or a plain-file path. */
  lemma NothingBelowNonDir(m: Disk, p: Path, q: Path)
    requires WellFormed(m) && |p| > 0 && p < q && q in m
    ensures p in m && m[p] == Dir
  {
    AncestorIsDir(m, q, |p|);
    assert q[..|p|] == p;
  }

  /** `setup_*`: succeeds exactly when the path exists or its parent is a directory;
      afterwards the path exists (a directory unless a file was already there), and nothing else changed. */
  lemma EnsureDirSpec(m: Disk, p: Path)
    requires |p| > 0
    ensures var e := EnsureDir(m, p);
      && (e.ok <==> p in m || IsDir(m, Parent(p)))
      && (e.ok ==> p in e.disk && (p !in m ==> e.disk[p] == Dir))
      && (forall q :: q != p ==> (q in e.disk <==> q in m) && (q in m ==> e.disk[q] == m[q]))
      && (p in m ==> e.disk == m)
  {
  }

  /** `setup_*` twice is `setup_*` once. */
  lemma EnsureDirIdempotent(m: Disk, p: Path)
    requires |p| > 0
    ensures EnsureDir(EnsureDir(m, p).disk, p) == EnsureDir(m, p)
  {
  }

  lemma EnsureDirWellFormed(m: Disk, p: Path)
    requires |p| > 0 && WellFormed(m)
    ensures WellFormed(EnsureDir(m, p).disk)
  {
  }

  /** After removing `p` nothing at or below it remains, and everything else is as it was. */
  lemma PruneSpec(m: Disk, p: Path)
    ensures forall q :: q in Prune(m, p) ==> !(p <= q)
    ensures forall q :: !(p <= q) ==> (q in Prune(m, p) <==> q in m) && (q in m ==> Prune(m, p)[q] == m[q])
  {
  }

  lemma PruneWellFormed(m: Disk, p: Path)
    requires WellFormed(m)
    ensures WellFormed(Prune(m, p))
  {
    var m' := Prune(m, p);
    forall q | q in m' && |q| > 1
      ensures Parent(q) in m' && m'[Parent(q)] == Dir
    {
      assert !(p <= q);
    }
  }

  /** `remove_title` / `delete_chapter`: fails only when `p` is a file or cannot be resolved;
      on success nothing at or below `p` remains and everything else is untouched. */
  lemma RemoveTreeSpec(m: Disk, p: Path)
    requires |p| > 0 && WellFormed(m)
    ensures var e := RemoveTree(m, p);
      && (e.ok <==> (p in m && m[p] == Dir) || (p !in m && !Blocked(m, p)))
      && (e.ok ==> forall q :: q in e.disk ==> !(p <= q))
      && (forall q :: !(p <= q) ==> (q in e.disk <==> q in m) && (q in m ==> e.disk[q] == m[q]))
      && (p !in m ==> e.disk == m)
  {
    PruneSpec(m, p);
    if p !in m {
      forall q | q in m
        ensures !(p <= q)
      {
        if p <= q {
          assert p != q && p < q;
          NothingBelowNonDir(m, p, q);
        }
      }
    }
  }

  /** Removing twice is removing once: the second call finds nothing and changes nothing. */
  lemma RemoveTreeIdempotent(m: Disk, p: Path)
    requires |p| > 0 && WellFormed(m)
    ensures RemoveTree(RemoveTree(m, p).disk, p) == RemoveTree(m, p)
  {
    var e := RemoveTree(m, p);
    if e.ok && p in m {
      PruneSpec(m, p);
      assert p !in e.disk;
      if Blocked(e.disk, p) {
        var i :| 0 < i < |p| && p[..i] in e.disk && e.disk[p[..i]] == File;
        AncestorIsDir(m, p, i);
      }
    }
  }

  lemma RemoveTreeWellFormed(m: Disk, p: Path)
    requires |p| > 0 && WellFormed(m)
    ensures WellFormed(RemoveTree(m, p).disk)
  {
    PruneWellFormed(m, p);
  }

  /** Title folders hold only numerals, so removing one never touches a cover or the catalog file. */
  lemma RemoveTitleKeepsCoversAndCatalog(m: Disk, id: u32, other: u32)
    ensures var d := RemoveTree(m, TitlePath(id)).disk;
      && (CoverPath(other) in m ==> CoverPath(other) in d)
      && (LIBRARY_PATH in m ==> LIBRARY_PATH in d)
  {
    var name := NatToString(id);
    assert IsDigit(name[0]) && !IsDigit("library.json"[0]);
    assert TitlePath(id)[1] != LIBRARY_PATH[1];
    assert TitlePath(id)[0][0] != CoverPath(other)[0][0];
    PruneSpec(m, TitlePath(id));
  }

  /** `save_cover` succeeds exactly when `covers/` exists as a directory and the cover path is not a directory. */
  lemma WriteFileSpec(m: Disk, p: Path)
    requires |p| > 0
    ensures var e := WriteFile(m, p);
      && (e.ok <==> (p in m && m[p] == File) || (p !in m && IsDir(m, Parent(p))))
      && (e.ok ==> p in e.disk && e.disk[p] == File)
      && (forall q :: q != p ==> (q in e.disk <==> q in m) && (q in m ==> e.disk[q] == m[q]))
  {
  }

  /** `setup_title` then `save_cover` for the same id: both the folder and the cover file exist afterwards. */
  lemma FolderThenCover(m: Disk, id: u32)
    requires EnsureDir(m, TitlePath(id)).ok
    requires WriteFile(EnsureDir(m, TitlePath(id)).disk, CoverPath(id)).ok
    ensures var d := WriteFile(EnsureDir(m, TitlePath(id)).disk, CoverPath(id)).disk;
      TitlePath(id) in d && CoverPath(id) in d && d[CoverPath(id)] == File
  {
    var folder := EnsureDir(m, TitlePath(id));
    EnsureDirSpec(m, TitlePath(id));
    WriteFileSpec(folder.disk, CoverPath(id));
    assert TitlePath(id)[0][0] != CoverPath(id)[0][0];
  }

  lemma WriteFileWellFormed(m: Disk, p: Path)
    requires |p| > 0 && WellFormed(m)
    ensures WellFormed(WriteFile(m, p).disk)
  {
  }

  /** `clear_title` on a title folder: the folder and its plain files stay, every subfolder and
      everything below it goes, and nothing outside the folder changes. A missing folder is a no-op. */
  lemma ClearDirsSpec(m: Disk, p: Path)
    requires WellFormed(m) && |p| > 0
    ensures var e := ClearDirs(m, p);
      && (e.ok <==> IsDir(m, p) || (p !in m && !Blocked(m, p)))
      && (!IsDir(m, p) ==> e.disk == m)
      && (IsDir(m, p) ==> p in e.disk && DirChildren(e.disk, p) == {} && FileChildren(e.disk, p) == FileChildren(m, p))
      && (forall q :: q in e.disk && p < q ==> |q| == |p| + 1 && e.disk[q] == File)
      && SameOutside(m, e.disk, p)
  {
    var e := ClearDirs(m, p);
    if IsDir(m, p) {
      var cs := Children(m, p);
      forall q | q in e.disk && p < q
        ensures |q| == |p| + 1 && e.disk[q] == File
      {
        assert q[..|p|] == p;
        if |q| > |p| + 1 {
          AncestorIsDir(m, q, |p| + 1);
          assert false;
        } else {
          assert q[..|p| + 1] == q;
        }
      }
      assert DirChildren(e.disk, p) == {};
      forall q | q in FileChildren(m, p)
        ensures q in FileChildren(e.disk, p)
      {
        assert q[..|p| + 1] == q;
      }
    } else {
      forall q | q in m && p < q
        ensures false
      {
        NothingBelowNonDir(m, p, q);
      }
    }
  }

  /** Clearing twice is clearing once. */
  lemma ClearDirsIdempotent(m: Disk, p: Path)
    requires WellFormed(m) && |p| > 0
    ensures ClearDirs(ClearDirs(m, p).disk, p) == ClearDirs(m, p)
  {
    ClearDirsSpec(m, p);
    var d := ClearDirs(m, p).disk;
    if IsDir(m, p) {
      var d2 := ClearDirs(d, p).disk;
      assert d2 == d;
    }
  }

  /** A path that is not an existing directory has no entries inside it. */
  lemma NoChildrenOfNonDir(m: Disk, p: Path)
    requires WellFormed(m) && !IsDir(m, p)
    ensures Children(m, p) == {}
  {
    forall q | q in Children(m, p)
      ensures false
    {
      assert p < q;
      NothingBelowNonDir(m, p, q);
    }
  }

  // ---------------------------------------------------------------------------
  // The filesystem as mutable state

  class FileSystem {
    var entries: Disk

    ghost predicate Valid()
      reads this
    {
      WellFormed(entries)
    }

    constructor (initial: Disk)
      requires WellFormed(initial)
      ensures Valid() && entries == initial
    {
      entries := initial;
    }

    /** The OS call `create_dir(p)`. */
    method CreateDir(p: Path) returns (err: Option<IoError>)
      requires Valid() && |p| > 0
      modifies this
      ensures Valid()
      ensures CreateDirResult(old(entries), p).Ok? ==> err.None? && entries == CreateDirResult(old(entries), p).value
      ensures CreateDirResult(old(entries), p).Err? ==> err == Some(CreateDirResult(old(entries), p).error) && entries == old(entries)
    {
      EnsureDirWellFormed(entries, p);
      var outcome := CreateDirResult(entries, p);
      if outcome.Ok? {
        entries := outcome.value;
        err := None;
      } else {
        err := Some(outcome.error);
      }
    }

    /** The OS call `remove_dir_all(p)`. */
    method RemoveDirAll(p: Path) returns (err: Option<IoError>)
      requires Valid() && |p| > 0
      modifies this
      ensures Valid()
      ensures RemoveDirAllResult(old(entries), p).Ok? ==> err.None? && entries == RemoveDirAllResult(old(entries), p).value
      ensures RemoveDirAllResult(old(entries), p).Err? ==> err == Some(RemoveDirAllResult(old(entries), p).error) && entries == old(entries)
    {
      RemoveTreeWellFormed(entries, p);
      var outcome := RemoveDirAllResult(entries, p);
      if outcome.Ok? {
        entries := outcome.value;
        err := None;
      } else {
        err := Some(outcome.error);
      }
    }

    /** The OS call `File::create(p)`. */
    method CreateFile(p: Path) returns (err: Option<IoError>)
      requires Valid() && |p| > 0
      modifies this
      ensures Valid()
      ensures CreateFileResult(old(entries), p).Ok? ==> err.None? && entries == CreateFileResult(old(entries), p).value
      ensures CreateFileResult(old(entries), p).Err? ==> err == Some(CreateFileResult(old(entries), p).error) && entries == old(entries)
    {
      WriteFileWellFormed(entries, p);
      var outcome := CreateFileResult(entries, p);
      if outcome.Ok? {
        entries := outcome.value;
        err := None;
      } else {
        err := Some(outcome.error);
      }
    }

    /** `setup_title`: returns false where the source panics. */
    method SetupTitle(id: u32) returns (ok: bool)
      requires Valid()
      modifies this
      ensures Valid()
      ensures Effect(entries, ok) == EnsureDir(old(entries), TitlePath(id))
    {
      var err := CreateDir(TitlePath(id));
      ok := err.None? || err.value == AlreadyExists;
    }

    /** `remove_title`: returns false where the source panics. */
    method RemoveTitle(id: u32) returns (ok: bool)
      requires Valid()
      modifies this
      ensures Valid()
      ensures Effect(entries, ok) == RemoveTree(old(entries), TitlePath(id))
    {
      var err := RemoveDirAll(TitlePath(id));
      ok := err.None? || err.value == NotFound;
    }

    /** `save_cover`, without the bytes: creates `covers/{id}.jpeg`; returns false where the source panics. */
    method SaveCover(id: u32) returns (ok: bool)
      requires Valid()
      modifies this
      ensures Valid()
      ensures Effect(entries, ok) == WriteFile(old(entries), CoverPath(id))
    {
      var err := CreateFile(CoverPath(id));
      ok := err.None?;
    }

    /** `setup_chapter`: returns false where the source panics. */
    method SetupChapter(titleId: u32, chapterId: u32) returns (ok: bool)
      requires Valid()
      modifies this
      ensures Valid()
      ensures Effect(entries, ok) == EnsureDir(old(entries), ChapterPath(titleId, chapterId))
    {
      var err := CreateDir(ChapterPath(titleId, chapterId));
      ok := err.None? || err.value == AlreadyExists;
    }

    /** `delete_chapter`: returns false where the source panics. */
    method DeleteChapter(titleId: u32, chapterId: u32) returns (ok: bool)
      requires Valid()
      modifies this
      ensures Valid()
      ensures Effect(entries, ok) == RemoveTree(old(entries), ChapterPath(titleId, chapterId))
    {
      var err := RemoveDirAll(ChapterPath(titleId, chapterId));
      ok := err.None? || err.value == NotFound;
    }

    /** `clear_title`: walks the title folder in directory order and removes each subfolder tree. */
    method ClearTitle(id: u32) returns (ok: bool)
      requires Valid()
      modifies this
      ensures Valid()
      ensures Effect(entries, ok) == ClearDirs(old(entries), TitlePath(id))
    {
      var p := TitlePath(id);
      var listing := ReadDir(entries, p);
      if listing.Err? {
        ok := listing.error == NotFound;
        return;
      }
      ghost var m0 := entries;
      var remaining := listing.value;
      ghost var done: set<Path> := {};
      while remaining != {}
        invariant Valid()
        invariant remaining <= listing.value && done == listing.value - remaining
        invariant entries == SweptAway(m0, p, done)
        decreases remaining
      {
        var c :| c in remaining;
        SweepChild(m0, p, done, c);
        remaining := remaining - {c};
        done := done + {c};
      }
      ok := true;
    }

    /** One entry of `clear_title`'s walk: a subfolder is removed with its contents, a plain file is kept. */
    method SweepChild(ghost m0: Disk, p: Path, ghost done: set<Path>, c: Path)
      requires Valid() && c in Children(m0, p) && c !in done && entries == SweptAway(m0, p, done)
      modifies this
      ensures Valid() && entries == SweptAway(m0, p, done + {c})
    {
      SweepStep(m0, p, done, c);
      if entries[c] == Dir {
        var err := RemoveDirAll(c);
        assert err.None?;  // `unwrap` cannot fail: `c` is an existing directory
      }
    }

    /** `get_num_images`: counts the plain files in the chapter folder; `ok == false` where the source panics. */
    method GetNumImages(titleId: u32, chapterId: u32) returns (n: nat, ok: bool)
      requires Valid()
      ensures (if ok then Some(n) else None) == NumImages(entries, ChapterPath(titleId, chapterId))
    {
      var p := ChapterPath(titleId, chapterId);
      n := 0;
      var listing := ReadDir(entries, p);
      if listing.Err? {
        ok := listing.error == NotFound;
        return;
      }
      var remaining := listing.value;
      ghost var counted: set<Path> := {};
      while remaining != {}
        invariant remaining <= listing.value
        invariant counted == set q | q in listing.value - remaining && entries[q] == File
        invariant n == |counted|
        decreases remaining
      {
        var e :| e in remaining;
        if entries[e] == File {
          n := n + 1;
          counted := counted + {e};
        }
        remaining := remaining - {e};
      }
      assert counted == FileChildren(entries, p);
      ok := true;
    }

    /**
     * `get_chapters`: the numeric names of the subfolders of the title folder,
     * in directory order (`order`), skipping plain files; empty for a missing
     * folder; `ok == false` where a subfolder name is not a `u32` (the source panics).
     */
    method GetChapters(titleId: u32) returns (ids: seq<u32>, ok: bool, ghost order: seq<Path>)
      requires Valid()
      ensures ok <==> ChaptersReadable(entries, TitlePath(titleId))
      ensures ok ==> IsEnumeration(order, DirChildren(entries, TitlePath(titleId))) && NamesParseTo(order, ids)
    {
      var p := TitlePath(titleId);
      ids, order := [], [];
      var listing := ReadDir(entries, p);
      if listing.Err? {
        ok := listing.error == NotFound;
        NoChildrenOfNonDir(entries, p);
        return;
      }
      var remaining := listing.value;
      ghost var listed: set<Path> := {};
      while remaining != {}
        invariant remaining <= listing.value
        invariant listed == DirChildren(entries, p) - remaining
        invariant IsEnumeration(order, listed) && NamesParseTo(order, ids)
        decreases remaining
      {
        var c :| c in remaining;
        if entries[c] == Dir {
          var id := ParseU32(Name(c));
          if id.None? {
            ok := false;
            return;
          }
          EnumerationAppend(order, listed, c);
          ids, order := ids + [id.value], order + [c];
          listed := listed + {c};
        }
        remaining := remaining - {c};
      }
      ok := true;
      EnumeratedNamesParse(order, ids, listed);
    }

    /**
     * `read_directory_names`: the numeric names of every entry of `p`, files
     * included, in directory order; `ok == false` where the source panics (the
     * folder cannot be read, or a name is not a `u32`).
     */
    method ReadDirectoryNames(p: Path) returns (ids: seq<u32>, ok: bool, ghost order: seq<Path>)
      requires Valid()
      ensures ok <==> NamesReadable(entries, p)
      ensures ok ==> IsEnumeration(order, Children(entries, p)) && NamesParseTo(order, ids)
    {
      ids, order := [], [];
      var listing := ReadDir(entries, p);
      if listing.Err? {
        ok := false;
        return;
      }
      var remaining := listing.value;
      while remaining != {}
        invariant remaining <= listing.value
        invariant forall i :: 0 <= i < |order| ==> order[i] in listing.value - remaining
        invariant forall c :: c in listing.value - remaining ==> c in order && ParseU32(Name(c)).Some?
        invariant forall i, j :: 0 <= i < j < |order| ==> order[i] != order[j]
        invariant NamesParseTo(order, ids)
        decreases remaining
      {
        var c :| c in remaining;
        var id := ParseU32(Name(c));
        if id.None? {
          ok := false;
          return;
        }
        ids, order := ids + [id.value], order + [c];
        remaining := remaining - {c};
      }
      ok := true;
    }
  }

  /** Appending a new element to an enumeration of `s` enumerates `s + {c}`. */
  lemma EnumerationAppend(order: seq<Path>, s: set<Path>, c: Path)
    requires IsEnumeration(order, s) && c !in s
    ensures IsEnumeration(order + [c], s + {c})
  {
  }

  /** Every path an enumeration lists has a name that parses to the id at its position. */
  lemma EnumeratedNamesParse(order: seq<Path>, ids: seq<u32>, s: set<Path>)
    requires IsEnumeration(order, s) && NamesParseTo(order, ids)
    ensures forall c :: c in s ==> |c| > 0 && ParseU32(Name(c)).Some?
  {
    forall c | c in s
      ensures |c| > 0 && ParseU32(Name(c)).Some?
    {
      var i :| 0 <= i < |order| && order[i] == c;
    }
  }

  /** One step of `clear_title`: the child `c` is still there, and removing it when it is a
      folder (or skipping it when it is a file) sweeps exactly its subtree. */
  lemma SweepStep(m: Disk, p: Path, done: set<Path>, c: Path)
    requires c in Children(m, p) && c !in done
    ensures c in SweptAway(m, p, done) && SweptAway(m, p, done)[c] == m[c]
    ensures m[c] == Dir ==> Prune(SweptAway(m, p, done), c) == SweptAway(m, p, done + {c})
    ensures m[c] == File ==> SweptAway(m, p, done) == SweptAway(m, p, done + {c})
  {
    assert c[..|p| + 1] == c;
    var lhs, rhs := Prune(SweptAway(m, p, done), c), SweptAway(m, p, done + {c});
    if m[c] == Dir {
      forall q
        ensures q in lhs <==> q in rhs
      {
        if q in m && |q| > |p| {
          assert c <= q <==> q[..|p| + 1] == c;
        }
      }
      assert lhs == rhs;
    }
  }
}
