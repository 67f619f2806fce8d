/**
 * The Anime archive: one item per series, film or season. Episodes are
 * stored as `NN.mkv` in the item's `media` directory, bonus content as
 * `media/bonus/NAME.mkv`, and their thumbnails in the `images` branch.
 */
module Anime {
  import opened Wrappers
  import opened Text
  import opened FileTree
  import opened Archive
  import Sorting

  /** The stored names of the series' fixed images. */
  const Thumbnail := "thumbnail.jpg"
  const Banner := "banner.png"
  const Logo := "logo.png"

  // ---------------------------------------------------------------------------
  // From a URL parameter to a stored file name
  // ---------------------------------------------------------------------------

  /**
   * `anime_media_thumbnail(media)`: an episode number gives `EP-` and the
   * number in at least two digits; any other name is upper-cased. Both end
   * in `.png`.
   */
  function MediaThumbnail(media: string): (r: string)
    ensures EndsWith(r, ".png") && |r| >= 4
    ensures IsNumeric(media) ==>
      && StartsWith(r, "EP-") && |r| >= 9
      && var d := r[3..|r| - 4]; IsNumeric(d) && |d| >= 2 && ParseDecimal(d) == ParseDecimal(media) && (|d| > 2 ==> d[0] != '0')
    ensures !IsNumeric(media) ==> r[..|r| - 4] == Upper(media)
  {
    if IsNumeric(media) then
      var d := ZeroPad2(ParseDecimal(media));
      var r := "EP-" + d + ".png";
      assert r[3..|r| - 4] == d;
      r
    else
      var r := Upper(media) + ".png";
      assert r[..|r| - 4] == Upper(media);
      r
  }

  /**
   * `anime_media(media)`: an episode number gives the number in at least two
   * digits with `.mkv`; any other name is upper-cased into the `bonus`
   * sub-directory.
   */
  function MediaFile(media: string): (r: string)
    ensures EndsWith(r, ".mkv") && |r| >= 4
    ensures IsNumeric(media) ==> var d := r[..|r| - 4]; IsNumeric(d) && |d| >= 2 && ParseDecimal(d) == ParseDecimal(media)
    ensures !IsNumeric(media) ==> StartsWith(r, "bonus/") && |r| >= 10 && r[6..|r| - 4] == Upper(media)
  {
    if IsNumeric(media) then
      var d := ZeroPad2(ParseDecimal(media));
      var r := d + ".mkv";
      assert r[..|r| - 4] == d;
      r
    else
      var r := "bonus/" + Upper(media) + ".mkv";
      assert r[6..|r| - 4] == Upper(media);
      r
  }

  /** An episode or bonus thumbnail never takes the name of the thumbnail, banner or logo. */
  lemma ThumbnailsNeverFixedImages(media: string)
    ensures MediaThumbnail(media) != Thumbnail
    ensures MediaThumbnail(media) != Banner
    ensures MediaThumbnail(media) != Logo
  {
    var r := MediaThumbnail(media);
    if IsNumeric(media) {
      assert r[0] == 'E';
    } else {
      assert r[|r| - 3..] == "png";
    }
  }

  /** Two episode numbers share a thumbnail exactly when they are the same number (`1`, `01` and `001` are one episode). */
  lemma EpisodeThumbnailsAgree(a: string, b: string)
    requires IsNumeric(a) && IsNumeric(b)
    ensures MediaThumbnail(a) == MediaThumbnail(b) <==> ParseDecimal(a) == ParseDecimal(b)
  {
    var ta, tb := MediaThumbnail(a), MediaThumbnail(b);
    assert ta == "EP-" + ZeroPad2(ParseDecimal(a)) + ".png";
    assert tb == "EP-" + ZeroPad2(ParseDecimal(b)) + ".png";
    if ta == tb {
      assert ta[3..|ta| - 4] == tb[3..|tb| - 4];
    }
  }

  /** Two episode numbers share a file exactly when they are the same number. */
  lemma EpisodeFilesAgree(a: string, b: string)
    requires IsNumeric(a) && IsNumeric(b)
    ensures MediaFile(a) == MediaFile(b) <==> ParseDecimal(a) == ParseDecimal(b)
  {
  }

  /** An episode and a bonus item never share a file: only bonus files sit in a sub-directory. */
  lemma EpisodeAndBonusFilesDiffer(episode: string, bonus: string)
    requires IsNumeric(episode) && !IsNumeric(bonus)
    ensures MediaFile(episode) != MediaFile(bonus)
  {
    var e := MediaFile(episode);
    var d := e[..|e| - 4];
    assert IsDigit(d[0]) && e[0] == d[0];
    assert MediaFile(bonus)[0] == 'b';
  }

  /** Bonus item `ep-01` gets the thumbnail of episode 1: the two name spaces meet in the `images` branch. */
  lemma BonusThumbnailMeetsEpisode()
    ensures MediaThumbnail("1") == MediaThumbnail("ep-01")
  {
    assert ParseDecimal("1") == 1 by {
      assert "1"[..0] == "";
    }
    assert ZeroPad2(1) == "01" by {
      assert NatToDecimal(1) == "1";
    }
    EpisodeThumbnailPath([], 0, "1");
    UpperOfEp01();
    BonusThumbnailName("ep-01");
  }

  /** Any name that is not an episode number has the thumbnail of its upper-cased form. */
  lemma BonusThumbnailName(media: string)
    requires !IsNumeric(media)
    ensures MediaThumbnail(media) == Upper(media) + ".png"
  {
  }

  lemma UpperOfEp01()
    ensures !IsNumeric("ep-01") && Upper("ep-01") == "EP-01"
  {
    assert !IsDigit("ep-01"[0]);
  }

  // ---------------------------------------------------------------------------
  // Listing episodes and bonus content
  // ---------------------------------------------------------------------------

  /** The listing: episode numbers and bonus names. */
  datatype AnimeMedia = AnimeMedia(episodes: seq<int>, bonus: seq<string>)

  /** What the listing keeps of entry n of the media directory: a regular file with a numeric stem, by that number. */
  function EpisodeEntry(t: Tree, media: Path, n: string): Option<int> {
    if IsNumeric(Stem(n)) && IsFile(t, media + [n]) then Some(ParseDecimal(Stem(n))) else None
  }

  ghost function Episodes(t: Tree, media: Path): multiset<int> {
    Gather(Children(t, media), n => EpisodeEntry(t, media, n))
  }

  /** Whether a stem names bonus content: not hidden, not private, upper case. */
  predicate BonusStem(s: string) {
    !StartsWith(s, ".") && !StartsWith(s, "_") && IsUpper(s)
  }

  /** What the listing keeps of entry n of the bonus directory: a regular file with a bonus stem, by that stem. */
  function BonusEntry(t: Tree, bonusDir: Path, n: string): Option<string> {
    if BonusStem(Stem(n)) && IsFile(t, bonusDir + [n]) then Some(Stem(n)) else None
  }

  ghost function Bonus(t: Tree, bonusDir: Path): multiset<string> {
    Gather(Children(t, bonusDir), n => BonusEntry(t, bonusDir, n))
  }

  /** Episode e is listed exactly when some regular file of the media directory has a numeric stem reading e. */
  lemma EpisodesExactly(t: Tree, media: Path, e: int)
    ensures e in Episodes(t, media) <==>
      exists n :: IsFile(t, media + [n]) && IsNumeric(Stem(n)) && ParseDecimal(Stem(n)) == e
  {
    var sel := n => EpisodeEntry(t, media, n);
    GatherMember(Children(t, media), sel, e);
    if exists n :: IsFile(t, media + [n]) && IsNumeric(Stem(n)) && ParseDecimal(Stem(n)) == e {
      var n :| IsFile(t, media + [n]) && IsNumeric(Stem(n)) && ParseDecimal(Stem(n)) == e;
      assert n in Children(t, media) && sel(n) == Some(e);
    }
  }

  /** Every file counts: two files whose stems read the same number (`01.mkv` and `01.srt`, or `1.mkv`) list that episode twice. */
  lemma EpisodeListedPerFile(t: Tree, media: Path, n1: string, n2: string)
    requires n1 != n2 && IsFile(t, media + [n1]) && IsFile(t, media + [n2])
    requires IsNumeric(Stem(n1)) && IsNumeric(Stem(n2)) && ParseDecimal(Stem(n1)) == ParseDecimal(Stem(n2))
    ensures Episodes(t, media)[ParseDecimal(Stem(n1))] >= 2
  {
    var sel := n => EpisodeEntry(t, media, n);
    var names := Children(t, media);
    GatherRemove(names, sel, n1);
    GatherRemove(names - {n1}, sel, n2);
  }

  /** Bonus name b is listed exactly when it is a bonus stem and some regular file of the bonus directory has stem b. */
  lemma BonusExactly(t: Tree, bonusDir: Path, b: string)
    ensures b in Bonus(t, bonusDir) <==>
      BonusStem(b) && exists n :: IsFile(t, bonusDir + [n]) && Stem(n) == b
  {
    var sel := n => BonusEntry(t, bonusDir, n);
    GatherMember(Children(t, bonusDir), sel, b);
    if BonusStem(b) && exists n :: IsFile(t, bonusDir + [n]) && Stem(n) == b {
      var n :| IsFile(t, bonusDir + [n]) && Stem(n) == b;
      assert n in Children(t, bonusDir) && sel(n) == Some(b);
    }
  }

  /**
   * `list_anime_media(id)`: `FileNotFoundError` for an unknown item; the
   * error of `iterdir` when the media directory is missing or a file;
   * otherwise the episodes and the bonus names, each in ascending order, no
   * bonus names when the bonus directory is missing.
   */
  method ListAnimeMedia(archive: ArchiveHandler, id: int) returns (r: Answer<AnimeMedia>)
    requires archive.Valid()
    ensures var t, media := archive.fs.tree, BranchPath(archive.path, id, "media");
      && (!CheckItem(t, archive.path, id) ==> r == Raised(Io(FileNotFound)))
      && (CheckItem(t, archive.path, id) && media !in t ==> r == Raised(Io(FileNotFound)))
      && (CheckItem(t, archive.path, id) && IsFile(t, media) ==> r == Raised(Io(NotADirectory)))
      && (CheckItem(t, archive.path, id) && IsDir(t, media) ==>
            && r.Body?
            && Sorting.Sorted(r.value.episodes, Sorting.IntLe)
            && multiset(r.value.episodes) == Episodes(t, media)
            && Sorting.Sorted(r.value.bonus, Sorting.StrLe)
            && (IsDir(t, media + ["bonus"]) ==> multiset(r.value.bonus) == Bonus(t, media + ["bonus"]))
            && (!IsDir(t, media + ["bonus"]) ==> r.value.bonus == []))
  {
    var t := archive.fs.tree;
    if !CheckItem(t, archive.path, id) {
      return Raised(Io(FileNotFound));
    }
    var media := BranchPath(archive.path, id, "media");
    if media !in t {
      return Raised(Io(FileNotFound));
    } else if !t[media].Dir? {
      return Raised(Io(NotADirectory));
    }
    var episodes := Collect(Children(t, media), n => EpisodeEntry(t, media, n));
    Sorting.IntLeIsTotalPreorder();
    episodes := Sorting.SortBy(episodes, Sorting.IntLe);
    var bonusDir := media + ["bonus"];
    var bonus: seq<string> := [];
    if IsDir(t, bonusDir) {
      bonus := Collect(Children(t, bonusDir), n => BonusEntry(t, bonusDir, n));
      Sorting.StrLeIsTotalPreorder();
      bonus := Sorting.SortBy(bonus, Sorting.StrLe);
    }
    r := Body(AnimeMedia(episodes, bonus));
  }

  // ---------------------------------------------------------------------------
  // Uploads and the listing
  // ---------------------------------------------------------------------------

  /** The file of an episode number is a single name in the media directory. */
  lemma EpisodeFilePath(root: Path, id: int, media: string)
    requires IsNumeric(media)
    ensures MediaFile(media) == ZeroPad2(ParseDecimal(media)) + ".mkv"
    ensures FilePath(root, id, "media", MediaFile(media)) == BranchPath(root, id, "media") + [MediaFile(media)]
  {
    var f := MediaFile(media);
    var d := ZeroPad2(ParseDecimal(media));
    assert f == d + ".mkv";
    assert '/' !in f by {
      assert forall i :: 0 <= i < |f| ==> f[i] == if i < |d| then d[i] else ".mkv"[i - |d|];
    }
    PathPartsOfName(f);
  }

  /** An episode's thumbnail is `EP-` and the number formatted as `%02d`, then `.png`, directly in `images`. */
  lemma EpisodeThumbnailPath(root: Path, id: int, media: string)
    requires IsNumeric(media)
    ensures MediaThumbnail(media) == "EP-" + ZeroPad2(ParseDecimal(media)) + ".png"
    ensures FilePath(root, id, "images", MediaThumbnail(media)) == BranchPath(root, id, "images") + [MediaThumbnail(media)]
  {
    var f := MediaThumbnail(media);
    var d := ZeroPad2(ParseDecimal(media));
    assert f == "EP-" + d + ".png";
    assert '/' !in d by {
      forall i | 0 <= i < |d| ensures d[i] != '/' { assert IsDigit(d[i]); }
    }
    assert '/' !in "EP-" && '/' !in ".png";
    PathPartsOfName(f);
  }

  /** A regular file `D.mkv` in the media directory, D a string of digits, is listed as the number D reads. */
  lemma DigitsFileListed(t: Tree, dir: Path, d: string)
    requires IsNumeric(d) && IsFile(t, dir + [d + ".mkv"])
    ensures ParseDecimal(d) in Episodes(t, dir)
  {
    var f := d + ".mkv";
    SuffixOfAppended(d, ".mkv");
    assert IsFile(t, dir + [f]) && IsNumeric(Stem(f)) && ParseDecimal(Stem(f)) == ParseDecimal(d);
    EpisodesExactly(t, dir, ParseDecimal(d));
  }

  /** An episode uploaded under a number is then listed under that number. */
  lemma UploadedEpisodeListed(t: Tree, root: Path, id: int, media: string, body: seq<bv8>)
    requires IsNumeric(media)
    requires Store(t, BranchPath(root, id, "media"), FilePath(root, id, "media", MediaFile(media)), body).1.None?
    ensures var t' := Store(t, BranchPath(root, id, "media"), FilePath(root, id, "media", MediaFile(media)), body).0;
      ParseDecimal(media) in Episodes(t', BranchPath(root, id, "media"))
  {
    var dir := BranchPath(root, id, "media");
    var d := ZeroPad2(ParseDecimal(media));
    EpisodeFilePath(root, id, media);
    StoredIsFile(t, dir, dir + [d + ".mkv"], body);
    DigitsFileListed(Store(t, dir, dir + [d + ".mkv"], body).0, dir, d);
  }

  /** Upper-casing keeps every character that is not a lower-case letter, `/` among them. */
  lemma UpperKeepsSlash(s: string)
    requires '/' !in s
    ensures '/' !in Upper(s)
  {
    var r := Upper(s);
    forall i | 0 <= i < |r|
      ensures r[i] != '/'
    {
      assert s[i] != '/';
    }
  }

  /** The file a bonus upload writes: `bonus/NAME.mkv` inside the media directory. */
  lemma BonusFilePath(root: Path, id: int, media: string)
    requires !IsNumeric(media) && '/' !in media
    ensures FilePath(root, id, "media", MediaFile(media)) == BranchPath(root, id, "media") + ["bonus", Upper(media) + ".mkv"]
  {
    var g := Upper(media) + ".mkv";
    UpperKeepsSlash(media);
    assert '/' !in g by {
      assert forall i :: 0 <= i < |g| ==> g[i] == if i < |media| then Upper(media)[i] else ".mkv"[i - |media|];
    }
    assert MediaFile(media) == "bonus" + "/" + g;
    PathPartsOfPair("bonus", g);
  }

  /** A regular file `NAME.mkv` in the bonus directory, for an upper-cased name with a letter and no leading `.` or `_`, is listed as NAME. */
  lemma BonusFileListed(t: Tree, bonusDir: Path, media: string)
    requires media != "" && media[0] != '.' && media[0] != '_'
    requires exists i :: 0 <= i < |media| && IsAsciiLetter(media[i])
    requires IsFile(t, bonusDir + [Upper(media) + ".mkv"])
    ensures Upper(media) in Bonus(t, bonusDir)
  {
    var u := Upper(media);
    SuffixOfAppended(u, ".mkv");
    UpperIsUpper(media);
    assert u[0] != '.' && u[0] != '_';
    assert !StartsWith(u, ".") && !StartsWith(u, "_") by {
      assert u[..1][0] == u[0];
    }
    BonusExactly(t, bonusDir, u);
  }

  /**
   * Bonus content uploaded under a name with a letter that does not start
   * with `.` or `_` is then listed under the upper-cased name.
   */
  lemma UploadedBonusListed(t: Tree, root: Path, id: int, media: string, body: seq<bv8>)
    requires !IsNumeric(media) && '/' !in media
    requires exists i :: 0 <= i < |media| && IsAsciiLetter(media[i])
    requires media[0] != '.' && media[0] != '_'
    requires Store(t, BranchPath(root, id, "media"), FilePath(root, id, "media", MediaFile(media)), body).1.None?
    ensures var t' := Store(t, BranchPath(root, id, "media"), FilePath(root, id, "media", MediaFile(media)), body).0;
      Upper(media) in Bonus(t', BranchPath(root, id, "media") + ["bonus"])
  {
    var dir := BranchPath(root, id, "media");
    var bonusDir := dir + ["bonus"];
    var g := Upper(media) + ".mkv";
    BonusFilePath(root, id, media);
    assert dir + ["bonus", g] == bonusDir + [g];
    StoredIsFile(t, dir, bonusDir + [g], body);
    BonusFileListed(Store(t, dir, bonusDir + [g], body).0, bonusDir, media);
  }

  /** A bonus name without a letter (`-1`, `2nd`) is stored but never listed: its upper-cased stem fails `isupper`. */
  lemma BonusWithoutLetterUnlisted(t: Tree, bonusDir: Path, media: string)
    requires forall i :: 0 <= i < |media| ==> !IsAsciiLetter(media[i])
    ensures Upper(media) !in Bonus(t, bonusDir)
  {
    UpperIsUpper(media);
    BonusExactly(t, bonusDir, Upper(media));
  }

  /** The upload makes the media directory when missing, but not `media/bonus`: without it a bonus upload fails with `FileNotFoundError`. */
  lemma BonusUploadNeedsBonusDir(t: Tree, root: Path, id: int, media: string, body: seq<bv8>)
    requires WellFormed(t) && !IsNumeric(media) && '/' !in media
    requires MakeBranch(t, BranchPath(root, id, "media")).Ok?
    requires BranchPath(root, id, "media") + ["bonus"] !in t
    ensures Store(t, BranchPath(root, id, "media"), FilePath(root, id, "media", MediaFile(media)), body).1 == Some(FileNotFound)
  {
    var dir := BranchPath(root, id, "media");
    var g := Upper(media) + ".mkv";
    BonusFilePath(root, id, media);
    var p := dir + ["bonus", g];
    assert Parent(p) == dir + ["bonus"];
    assert p !in t;
    var t1 := MakeBranch(t, dir).value;
    assert t1 == t || t1 == t[dir := Dir];
    assert dir + ["bonus"] != dir && p != dir;
    assert OpenForWrite(t1, p) == Err(FileNotFound);
  }
}
