/**
 * The Manga archive: one item per manga, each chapter a `.cbz` file in the
 * item's `media` directory, listed in version order of the chapter names.
 *
 * Version parsing (`packaging.version.Version`) is not modelled: the listing
 * takes which names parse (`isVersion`) and the order of parsed versions
 * (`versionLe`) as parameters.
 */
module Manga {
  import opened Wrappers
  import opened Text
  import opened FileTree
  import opened Archive
  import Sorting
  import Responses

  /** `manga_chapters(chapter)`: chapter c is stored as `c.cbz`. */
  function ChapterFile(chapter: string): (r: string)
    ensures |r| == |chapter| + 4 && r[..|chapter|] == chapter && r[|chapter|..] == ".cbz"
  {
    chapter + ".cbz"
  }

  /** A chapter name survives the trip to its file name and back through `stem`, unless it is empty. */
  lemma ChapterFileStem(chapter: string)
    requires chapter != ""
    ensures Suffix(ChapterFile(chapter)) == ".cbz" && Stem(ChapterFile(chapter)) == chapter
  {
    SuffixOfAppended(chapter, ".cbz");
  }

  /** What the listing keeps of entry n of the media directory: a regular `.cbz` file, by its stem. */
  function ChapterEntry(t: Tree, media: Path, n: string): (r: Option<string>)
    ensures r.Some? ==> n == ChapterFile(r.value) && r.value != ""
  {
    StemSuffix(n);
    if Suffix(n) == ".cbz" && IsFile(t, media + [n]) then Some(Stem(n)) else None
  }

  ghost function Chapters(t: Tree, media: Path): multiset<string> {
    Gather(Children(t, media), n => ChapterEntry(t, media, n))
  }

  /** A chapter is listed exactly when it is not empty and its `.cbz` file is a regular file of the media directory, and then once. */
  lemma ChaptersExactly(t: Tree, media: Path, chapter: string)
    ensures chapter in Chapters(t, media) <==> chapter != "" && IsFile(t, media + [ChapterFile(chapter)])
    ensures Chapters(t, media)[chapter] <= 1
  {
    var sel := n => ChapterEntry(t, media, n);
    GatherMember(Children(t, media), sel, chapter);
    if chapter != "" && IsFile(t, media + [ChapterFile(chapter)]) {
      ChapterFileStem(chapter);
      assert sel(ChapterFile(chapter)) == Some(chapter);
    }
    GatherInjective(Children(t, media), sel, chapter);
  }

  /**
   * Sorting by key computes every key before comparing anything, so a single
   * name that is not a version aborts the sort, even in a one-element list.
   */
  method AllVersions(chapters: seq<string>, isVersion: string -> bool) returns (valid: bool)
    ensures valid <==> forall c :: c in multiset(chapters) ==> isVersion(c)
  {
    for i := 0 to |chapters|
      invariant forall j :: 0 <= j < i ==> isVersion(chapters[j])
    {
      if !isVersion(chapters[i]) {
        assert chapters[i] in multiset(chapters);
        return false;
      }
    }
    return true;
  }

  /**
   * `list_manga_chapters(id)`: `not_in_archive` for an unknown item; none when
   * the media directory is missing; otherwise the chapters sorted by version,
   * or `InvalidVersion` raised when any chapter name is not a version.
   */
  method ListMangaChapters(archive: ArchiveHandler, id: int, isVersion: string -> bool, versionLe: (string, string) -> bool)
    returns (r: Answer<seq<string>>)
    requires archive.Valid()
    requires Sorting.TotalPreorder(versionLe)
    ensures var t, media := archive.fs.tree, BranchPath(archive.path, id, "media");
      && (!CheckItem(t, archive.path, id) ==> r == Replied(Responses.Plain("not_in_archive")))
      && (CheckItem(t, archive.path, id) && !IsDir(t, media) ==> r == Body([]))
      && (CheckItem(t, archive.path, id) && IsDir(t, media) ==>
            && (r.Body? || r == Raised(InvalidVersion))
            && (r == Raised(InvalidVersion) <==> exists c :: c in Chapters(t, media) && !isVersion(c))
            && (r.Body? ==> Sorting.Sorted(r.value, versionLe) && multiset(r.value) == Chapters(t, media)))
  {
    var t := archive.fs.tree;
    if !CheckItem(t, archive.path, id) {
      return Replied(Responses.Plain("not_in_archive"));
    }
    var media := BranchPath(archive.path, id, "media");
    var chapters: seq<string> := [];
    if IsDir(t, media) {
      chapters := Collect(Children(t, media), n => ChapterEntry(t, media, n));
      var valid := AllVersions(chapters, isVersion);
      if !valid {
        return Raised(InvalidVersion);
      }
      chapters := Sorting.SortBy(chapters, versionLe);
    }
    r := Body(chapters);
  }

  /** A chapter uploaded under a plain, non-empty name (no `/`) is then listed under that name. */
  lemma UploadedChapterListed(t: Tree, root: Path, id: int, chapter: string, body: seq<bv8>)
    requires chapter != "" && '/' !in chapter
    requires Store(t, BranchPath(root, id, "media"), FilePath(root, id, "media", ChapterFile(chapter)), body).1.None?
    ensures var t' := Store(t, BranchPath(root, id, "media"), FilePath(root, id, "media", ChapterFile(chapter)), body).0;
      chapter in Chapters(t', BranchPath(root, id, "media"))
  {
    var media := BranchPath(root, id, "media");
    var f := ChapterFile(chapter);
    assert '/' !in f by {
      assert forall i :: 0 <= i < |f| ==> f[i] == if i < |chapter| then chapter[i] else ".cbz"[i - |chapter|];
    }
    PathPartsOfName(f);
    assert FilePath(root, id, "media", f) == media + [f];
    StoredIsFile(t, media, media + [f], body);
    ChaptersExactly(Store(t, media, media + [f], body).0, media, chapter);
  }

  /** The empty chapter is stored as `.cbz`, a hidden file without a suffix, which the listing never shows. */
  lemma EmptyChapterNeverListed(t: Tree, media: Path)
    ensures ChapterFile("") == ".cbz"
    ensures "" !in Chapters(t, media)
  {
    ChaptersExactly(t, media, "");
  }
}
