/**
 * The Linux archive: one item per distribution release, its ISO images in the
 * item's `media` directory.
 */
module Linux {
  import opened Wrappers
  import opened Text
  import opened FileTree
  import opened Archive
  import Sorting
  import Responses

  /** `linux_file(filename)`: the stored name, with `.iso` appended unless already there. */
  function LinuxFile(filename: string): (r: string)
    ensures EndsWith(r, ".iso")
    ensures r == filename || r == filename + ".iso"
  {
    if EndsWith(filename, ".iso") then filename else filename + ".iso"
  }

  /** Asking for a stored name gives that name back: `linux_file` is idempotent and changes nothing ending in `.iso`. */
  lemma LinuxFileIdempotent(filename: string)
    ensures LinuxFile(LinuxFile(filename)) == LinuxFile(filename)
    ensures EndsWith(filename, ".iso") ==> LinuxFile(filename) == filename
  {
  }

  /** What the listing keeps of entry n of the media directory: a regular file whose suffix is `.iso`, by its full name. */
  function IsoEntry(t: Tree, media: Path, n: string): (r: Option<string>)
    ensures r.Some? ==> r.value == n
  {
    if Suffix(n) == ".iso" && IsFile(t, media + [n]) then Some(n) else None
  }

  ghost function IsoFiles(t: Tree, media: Path): multiset<string> {
    Gather(Children(t, media), n => IsoEntry(t, media, n))
  }

  /** A name is listed exactly when it is a regular file of the media directory with suffix `.iso`, and then once. */
  lemma IsoFilesExactly(t: Tree, media: Path, n: string)
    ensures n in IsoFiles(t, media) <==> Suffix(n) == ".iso" && IsFile(t, media + [n])
    ensures IsoFiles(t, media)[n] <= 1
  {
    GatherMember(Children(t, media), m => IsoEntry(t, media, m), n);
    GatherInjective(Children(t, media), m => IsoEntry(t, media, m), n);
  }

  /**
   * `list_linux_files(id)`: `not_in_archive` for an unknown item; otherwise
   * the ISO files of its media directory in ascending order, none when that
   * directory is missing.
   */
  method ListLinuxFiles(archive: ArchiveHandler, id: int) returns (r: Answer<seq<string>>)
    requires archive.Valid()
    ensures var t, media := archive.fs.tree, BranchPath(archive.path, id, "media");
      && (!CheckItem(t, archive.path, id) ==> r == Replied(Responses.Plain("not_in_archive")))
      && (CheckItem(t, archive.path, id) && !IsDir(t, media) ==> r == Body([]))
      && (CheckItem(t, archive.path, id) && IsDir(t, media) ==>
            r.Body? && Sorting.Sorted(r.value, Sorting.StrLe) && multiset(r.value) == IsoFiles(t, media))
  {
    var t := archive.fs.tree;
    if !CheckItem(t, archive.path, id) {
      return Replied(Responses.Plain("not_in_archive"));
    }
    var media := BranchPath(archive.path, id, "media");
    var files: seq<string> := [];
    if IsDir(t, media) {
      files := Collect(Children(t, media), n => IsoEntry(t, media, n));
      Sorting.StrLeIsTotalPreorder();
      files := Sorting.SortBy(files, Sorting.StrLe);
    }
    r := Body(files);
  }

  /** A regular file in the media directory named by `linux_file(f)` is listed, unless that name is the bare `.iso`. */
  lemma StoredIsoListed(t: Tree, media: Path, filename: string)
    requires LinuxFile(filename) != ".iso" && IsFile(t, media + [LinuxFile(filename)])
    ensures LinuxFile(filename) in IsoFiles(t, media)
  {
    var g := LinuxFile(filename);
    var stem := g[..|g| - 4];
    assert g == stem + ".iso";
    SuffixOfAppended(stem, ".iso");
    IsoFilesExactly(t, media, g);
  }

  /** A file uploaded through `linux_file(f)`, for an f without `/`, is then listed, unless the stored name is the bare `.iso`. */
  lemma UploadedIsoListed(t: Tree, root: Path, id: int, filename: string, body: seq<bv8>)
    requires '/' !in filename && LinuxFile(filename) != ".iso"
    requires Store(t, BranchPath(root, id, "media"), FilePath(root, id, "media", LinuxFile(filename)), body).1.None?
    ensures var t' := Store(t, BranchPath(root, id, "media"), FilePath(root, id, "media", LinuxFile(filename)), body).0;
      LinuxFile(filename) in IsoFiles(t', BranchPath(root, id, "media"))
  {
    var g := LinuxFile(filename);
    var media := BranchPath(root, id, "media");
    PathPartsOfName(g);
    assert FilePath(root, id, "media", g) == media + [g];
    StoredIsFile(t, media, media + [g], body);
    StoredIsoListed(Store(t, media, media + [g], body).0, media, filename);
  }

  /** An empty filename is stored as `.iso`, a hidden file without a suffix, which the listing never shows. */
  lemma EmptyNameNeverListed(t: Tree, media: Path)
    ensures LinuxFile("") == ".iso"
    ensures ".iso" !in IsoFiles(t, media)
  {
    var i := RFind(".iso", '.');
    assert i <= 0;
    IsoFilesExactly(t, media, ".iso");
  }
}
