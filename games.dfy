/**
 * The Games archive: one item per game, its files kept under their own names
 * in the item's `media` directory.
 */
module Games {
  import opened Wrappers
  import opened Text
  import opened FileTree
  import opened Archive
  import Sorting
  import Responses

  /** `game_file(filename)`: a game file is stored under the name it is asked for. */
  function GameFile(filename: string): (r: string)
    ensures |r| == |filename| && forall i :: 0 <= i < |r| ==> r[i] == filename[i]
  {
    filename
  }

  /** What the listing keeps of entry n of the media directory: a regular file, by its name. */
  function FileEntry(t: Tree, media: Path, n: string): (r: Option<string>)
    ensures r.Some? ==> r.value == n
  {
    if IsFile(t, media + [n]) then Some(n) else None
  }

  ghost function GameFiles(t: Tree, media: Path): multiset<string> {
    Gather(Children(t, media), n => FileEntry(t, media, n))
  }

  /** A name is listed exactly when it is an entry of the media directory and a regular file, and then once. */
  lemma GameFilesExactly(t: Tree, media: Path, n: string)
    ensures n in GameFiles(t, media) <==> IsFile(t, media + [n])
    ensures GameFiles(t, media)[n] <= 1
  {
    GatherMember(Children(t, media), m => FileEntry(t, media, m), n);
    GatherInjective(Children(t, media), m => FileEntry(t, media, m), n);
  }

  /**
   * `list_game_files(id)`: `not_in_archive` for an unknown item; otherwise
   * the regular files of its media directory in ascending order, none when
   * that directory is missing.
   */
  method ListGameFiles(archive: ArchiveHandler, id: int) returns (r: Answer<seq<string>>)
    requires archive.Valid()
    ensures var t, media := archive.fs.tree, BranchPath(archive.path, id, "media");
      && (!CheckItem(t, archive.path, id) ==> r == Replied(Responses.Plain("not_in_archive")))
      && (CheckItem(t, archive.path, id) && !IsDir(t, media) ==> r == Body([]))
      && (CheckItem(t, archive.path, id) && IsDir(t, media) ==>
            r.Body? && Sorting.Sorted(r.value, Sorting.StrLe) && multiset(r.value) == GameFiles(t, media))
  {
    var t := archive.fs.tree;
    if !CheckItem(t, archive.path, id) {
      return Replied(Responses.Plain("not_in_archive"));
    }
    var media := BranchPath(archive.path, id, "media");
    var files: seq<string> := [];
    if IsDir(t, media) {
      files := Collect(Children(t, media), n => FileEntry(t, media, n));
      Sorting.StrLeIsTotalPreorder();
      files := Sorting.SortBy(files, Sorting.StrLe);
    }
    r := Body(files);
  }

  /** A game file uploaded under a plain name (no `/`, not empty) is then listed under that name. */
  lemma UploadedGameListed(t: Tree, root: Path, id: int, filename: string, body: seq<bv8>)
    requires filename != "" && '/' !in filename
    requires Store(t, BranchPath(root, id, "media"), FilePath(root, id, "media", GameFile(filename)), body).1.None?
    ensures var t' := Store(t, BranchPath(root, id, "media"), FilePath(root, id, "media", GameFile(filename)), body).0;
      filename in GameFiles(t', BranchPath(root, id, "media"))
  {
    var media := BranchPath(root, id, "media");
    PathPartsOfName(filename);
    assert FilePath(root, id, "media", filename) == media + [filename];
    StoredIsFile(t, media, media + [filename], body);
    GameFilesExactly(Store(t, media, media + [filename], body).0, media, filename);
  }
}
