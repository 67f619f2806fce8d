/**
 * An archive: a directory holding one sub-directory per item, named by the
 * item's integer id, with the item's metadata in `crumb.json` and its files in
 * branch directories (`images`, `media`). `ArchiveHandler` reads and writes
 * that layout; `ArchiveRouter` is the set of endpoints built on it.
 *
 * The disk is a `FileSystem` shared by every handler. Endpoints that only read
 * are functions of a snapshot of the disk; endpoints that write are methods.
 */
module Archive {
  import opened Wrappers
  import opened JsonValue
  import opened Text
  import opened FileTree
  import Sorting
  import Responses

  // ---------------------------------------------------------------------------
  // Archive names
  // ---------------------------------------------------------------------------

  /** The `count` consecutive characters from `first` on, as `string.ascii_lowercase` lists a–z. */
  function CharRange(first: char, count: nat): (r: string)
    requires first as int + count <= 0xD800
    ensures |r| == count
    ensures forall i :: 0 <= i < count ==> r[i] as int == first as int + i
  {
    seq(count, i requires 0 <= i < count => (first as int + i) as char)
  }

  /** `string.ascii_letters + string.digits + '_-'`: the characters an archive name may use. */
  const NameChars: string := CharRange('a', 26) + CharRange('A', 26) + CharRange('0', 10) + "_-"

  predicate ValidName(name: string) {
    forall i :: 0 <= i < |name| ==> name[i] in NameChars
  }

  /** A character is allowed exactly when it is an ASCII letter, a digit, `_` or `-`. */
  lemma NameCharsExactly(c: char)
    ensures c in NameChars <==> IsAsciiLetter(c) || IsDigit(c) || c == '_' || c == '-'
  {
    var lower, upper, digits := CharRange('a', 26), CharRange('A', 26), CharRange('0', 10);
    assert NameChars == lower + upper + digits + "_-";
    if c in NameChars {
      assert c in lower || c in upper || c in digits || c in "_-";
      if c in lower {
        var i :| 0 <= i < 26 && lower[i] == c;
      } else if c in upper {
        var i :| 0 <= i < 26 && upper[i] == c;
      } else if c in digits {
        var i :| 0 <= i < 10 && digits[i] == c;
      }
    }
    if 'a' <= c <= 'z' {
      assert lower[c as int - 'a' as int] == c;
    } else if 'A' <= c <= 'Z' {
      assert upper[c as int - 'A' as int] == c;
    } else if IsDigit(c) {
      assert digits[c as int - '0' as int] == c;
    }
  }

  /** A name is accepted exactly when each character is an ASCII letter, a digit, `_` or `-`; the empty name passes. */
  lemma ValidNameChars(name: string)
    ensures ValidName(name) <==>
      forall i :: 0 <= i < |name| ==> IsAsciiLetter(name[i]) || IsDigit(name[i]) || name[i] == '_' || name[i] == '-'
    ensures ValidName("")
  {
    forall i | 0 <= i < |name| {
      NameCharsExactly(name[i]);
    }
  }

  // ---------------------------------------------------------------------------
  // Outcomes of an endpoint
  // ---------------------------------------------------------------------------

  /** The exceptions an endpoint can let escape; each becomes a server error. */
  datatype Failure = Io(error: IoError) | TypeError | InvalidVersion

  /** A value the endpoint returns, a structured reply it returns, or an exception it raises. */
  datatype Answer<T> = Body(value: T) | Replied(reply: Responses.Reply) | Raised(failure: Failure)

  function OptStr(o: Option<string>): Json {
    if o.Some? then JStr(o.value) else JNull
  }

  function OptNum(o: Option<int>): Json {
    if o.Some? then JNum(o.value) else JNull
  }

  // ---------------------------------------------------------------------------
  // Where things are
  // ---------------------------------------------------------------------------

  /** `path / str(id)`. */
  function ItemPath(root: Path, id: int): Path {
    root + [IntToString(id)]
  }

  /** `path / str(id) / 'crumb.json'`. */
  function CrumbPath(root: Path, id: int): (p: Path)
    ensures p != [] && Parent(p) == ItemPath(root, id)
  {
    assert (root + [IntToString(id), "crumb.json"])[..|root| + 1] == root + [IntToString(id)];
    root + [IntToString(id), "crumb.json"]
  }

  /** `path / str(id) / branch`. */
  function BranchPath(root: Path, id: int, branch: string): (p: Path)
    ensures p != [] && Parent(p) == ItemPath(root, id)
  {
    assert (root + [IntToString(id), branch])[..|root| + 1] == root + [IntToString(id)];
    root + [IntToString(id), branch]
  }

  /** `path / str(id) / branch / filename`; a `/` in the filename descends further. */
  function FilePath(root: Path, id: int, branch: string, filename: string): Path {
    BranchPath(root, id, branch) + PathParts(filename)
  }

  /** Distinct ids have distinct item directories, metadata files and branches. */
  lemma DistinctItems(root: Path, id: int, id': int, branch: string)
    requires id != id'
    ensures ItemPath(root, id) != ItemPath(root, id')
    ensures CrumbPath(root, id) != CrumbPath(root, id')
    ensures BranchPath(root, id, branch) != CrumbPath(root, id')
  {
    if IntToString(id) == IntToString(id') {
      IntToStringInjective(id, id');
    }
    assert ItemPath(root, id)[|root|] == IntToString(id);
    assert ItemPath(root, id')[|root|] == IntToString(id');
    assert CrumbPath(root, id')[|root|] == IntToString(id');
  }

  // ---------------------------------------------------------------------------
  // Item metadata
  // ---------------------------------------------------------------------------

  /** `check_item(id)`: the item's `crumb.json` is a regular file, which is when `get_item_info` can open it. */
  predicate CheckItem(t: Tree, root: Path, id: int): (b: bool)
    ensures b <==> OpenForRead(t, CrumbPath(root, id)).Ok?
  {
    IsFile(t, CrumbPath(root, id))
  }

  /**
   * `get_item_info(id)`: the decoded content of the item's `crumb.json`. The
   * open fails with `FileNotFoundError` when neither it nor a file in place of
   * the item directory exists.
   */
  function GetItemInfo(t: Tree, root: Path, id: int): (r: Result<Json, IoError>)
    ensures r.Ok? <==> CheckItem(t, root, id) && t[CrumbPath(root, id)].content.JsonText?
    ensures r.Ok? ==> r.value == t[CrumbPath(root, id)].content.doc
    ensures r == Err(FileNotFound) <==> CrumbPath(root, id) !in t && !IsFile(t, ItemPath(root, id))
  {
    match OpenForRead(t, CrumbPath(root, id))
    case Err(e) => Err(e)
    case Ok(c) => if c.JsonText? then Ok(c.doc) else Err(JsonDecode)
  }

  /**
   * The disk after `set_item_info(id, doc)` and the error it raised, if any:
   * the item directory is made when nothing is there, then `crumb.json` is
   * opened for writing and the document stored. A failed open leaves the
   * directory made.
   */
  function WriteInfo(t: Tree, root: Path, id: int, doc: Json): (Tree, Option<IoError>) {
    var item := ItemPath(root, id);
    var made := if item in t then Ok(t) else Mkdir(t, item);
    match made
    case Err(e) => (t, Some(e))
    case Ok(t1) =>
      match OpenForWrite(t1, CrumbPath(root, id))
      case Err(e) => (t1, Some(e))
      case Ok(t2) => (t2[CrumbPath(root, id) := File(JsonText(doc))], None)
  }

  /**
   * Storing metadata in an archive directory succeeds unless a file stands in
   * place of the item directory or a directory in place of `crumb.json`.
   * Afterwards the item exists, reads back the document, its directory was
   * made only if absent, and no other path changed.
   */
  lemma WriteInfoResult(t: Tree, root: Path, id: int, doc: Json)
    requires WellFormed(t) && IsDir(t, root)
    ensures var (t', err) := WriteInfo(t, root, id, doc);
      && WellFormed(t') && IsDir(t', root)
      && (err.None? <==> !IsFile(t, ItemPath(root, id)) && !IsDir(t, CrumbPath(root, id)))
      && (err.None? ==> CheckItem(t', root, id) && GetItemInfo(t', root, id) == Ok(doc) && IsDir(t', ItemPath(root, id)))
      && (ItemPath(root, id) in t ==> t'[ItemPath(root, id)] == t[ItemPath(root, id)])
      && (forall p :: p != ItemPath(root, id) && p != CrumbPath(root, id) ==>
            (p in t' <==> p in t) && (p in t ==> t'[p] == t[p]))
  {
    var item := ItemPath(root, id);
    assert Parent(item) == root by {
      assert item[..|item| - 1] == root;
    }
  }

  /** Storing one item's metadata leaves every other item's existence and metadata as they were. */
  lemma WriteInfoKeepsOthers(t: Tree, root: Path, id: int, doc: Json, other: int)
    requires WellFormed(t) && IsDir(t, root) && other != id
    ensures CheckItem(WriteInfo(t, root, id, doc).0, root, other) == CheckItem(t, root, other)
    ensures GetItemInfo(WriteInfo(t, root, id, doc).0, root, other) == GetItemInfo(t, root, other)
  {
    var t' := WriteInfo(t, root, id, doc).0;
    WriteInfoResult(t, root, id, doc);
    DistinctItems(root, id, other, "crumb.json");
    var item, crumb := ItemPath(root, other), CrumbPath(root, other);
    assert |item| != |CrumbPath(root, id)| && |crumb| != |ItemPath(root, id)|;
    assert (item in t' <==> item in t) && (item in t ==> t'[item] == t[item]);
    assert (crumb in t' <==> crumb in t) && (crumb in t ==> t'[crumb] == t[crumb]);
    ReadsAgree(t, t', root, other);
  }

  /** Whether an item exists and what its metadata reads depend only on its directory and its `crumb.json`. */
  lemma ReadsAgree(t: Tree, t': Tree, root: Path, id: int)
    requires forall p | p == ItemPath(root, id) || p == CrumbPath(root, id) :: (p in t' <==> p in t) && (p in t ==> t'[p] == t[p])
    ensures CheckItem(t', root, id) == CheckItem(t, root, id)
    ensures GetItemInfo(t', root, id) == GetItemInfo(t, root, id)
  {
    assert Parent(CrumbPath(root, id)) == ItemPath(root, id);
  }

  // ---------------------------------------------------------------------------
  // Listing items
  // ---------------------------------------------------------------------------

  /**
   * The id `list_items` reads from entry n of the archive directory, as
   * written: any directory with an all-digit name and a `crumb.json` file.
   */
  function ListedIdAsWritten(t: Tree, root: Path, n: string): Option<int> {
    if IsDir(t, root + [n]) && IsNumeric(n) && IsFile(t, root + [n, "crumb.json"]) then Some(ParseDecimal(n)) else None
  }

  /**
   * The same, keeping only names that are the canonical spelling `str(id)`
   * of the id they denote, so that a listed id is one `check_item` finds.
   */
  function ListedId(t: Tree, root: Path, n: string): (r: Option<int>)
    ensures r.Some? ==> r.value >= 0 && n == IntToString(r.value)
  {
    if IsDir(t, root + [n]) && IsNumeric(n) && n == NatToDecimal(ParseDecimal(n)) && IsFile(t, root + [n, "crumb.json"])
    then Some(ParseDecimal(n)) else None
  }

  ghost function ListedIdsAsWritten(t: Tree, root: Path): multiset<int> {
    Gather(Children(t, root), n => ListedIdAsWritten(t, root, n))
  }

  ghost function ListedIds(t: Tree, root: Path): multiset<int> {
    Gather(Children(t, root), n => ListedId(t, root, n))
  }

  /**
   * As written, an item directory spelled `007` is listed as id 7, which
   * `check_item` and `get_item_info` then look for under `7` and do not find.
   */
  lemma ListedIdNotFound(t: Tree, root: Path)
    requires WellFormed(t) && IsDir(t, root + ["007"]) && IsFile(t, root + ["007", "crumb.json"]) && root + ["7"] !in t
    ensures 7 in ListedIdsAsWritten(t, root)
    ensures !CheckItem(t, root, 7) && GetItemInfo(t, root, 7) == Err(FileNotFound)
  {
    assert "007"[..2] == "00" && "00"[..1] == "0";
    assert ParseDecimal("007") == 7;
    assert ListedIdAsWritten(t, root, "007") == Some(7);
    GatherMember(Children(t, root), n => ListedIdAsWritten(t, root, n), 7);
    assert IntToString(7) == "7";
    assert CrumbPath(root, 7) == root + ["7", "crumb.json"];
    assert Parent(root + ["7", "crumb.json"]) == root + ["7"];
  }

  /** Every id the corrected listing reports is an item `check_item` finds, and every item with a non-negative id is reported. */
  lemma ListedIdsAreItems(t: Tree, root: Path, id: int)
    requires WellFormed(t)
    ensures id in ListedIds(t, root) <==> id >= 0 && CheckItem(t, root, id)
  {
    var sel := n => ListedId(t, root, n);
    GatherMember(Children(t, root), sel, id);
    if id >= 0 && CheckItem(t, root, id) {
      var n := IntToString(id);
      ParseNatToDecimal(id);
      assert CrumbPath(root, id) == root + [n, "crumb.json"];
      assert IsDir(t, root + [n]);
      assert sel(n) == Some(id);
    }
  }

  /** The corrected listing reports each id once. */
  lemma ListedIdsDistinct(t: Tree, root: Path, id: int)
    ensures ListedIds(t, root)[id] <= 1
  {
    GatherInjective(Children(t, root), n => ListedId(t, root, n), id);
  }

  /** A negative id can be stored and checked but is never listed: its directory name has a `-`. */
  lemma NegativeIdUnlisted(t: Tree, root: Path, id: int)
    requires id < 0
    ensures id !in ListedIds(t, root) && id !in ListedIdsAsWritten(t, root)
  {
    GatherMember(Children(t, root), n => ListedId(t, root, n), id);
    GatherMember(Children(t, root), n => ListedIdAsWritten(t, root, n), id);
  }

  // ---------------------------------------------------------------------------
  // The handler
  // ---------------------------------------------------------------------------

  /** `ArchiveHandler`: an archive directory on the shared disk. */
  class ArchiveHandler {
    const fs: FileSystem
    const path: Path

    /** The disk is well formed and the archive directory exists. */
    ghost predicate Valid()
      reads fs
    {
      WellFormed(fs.tree) && IsDir(fs.tree, path)
    }

    constructor (fs: FileSystem, path: Path)
      requires WellFormed(fs.tree) && IsDir(fs.tree, path)
      ensures this.fs == fs && this.path == path && Valid()
    {
      this.fs := fs;
      this.path := path;
    }

    /**
     * `ArchiveHandler(model, path)`: makes the directory when nothing is at
     * `path`, refuses a regular file there with `NotADirectoryError`, and
     * takes an existing directory as it is.
     */
    static method Open(fs: FileSystem, path: Path) returns (r: Result<ArchiveHandler, IoError>)
      requires WellFormed(fs.tree)
      modifies fs
      ensures WellFormed(fs.tree)
      ensures r.Ok? ==> fresh(r.value) && r.value.fs == fs && r.value.path == path && r.value.Valid()
      ensures path in old(fs.tree) ==> fs.tree == old(fs.tree) && (r.Ok? <==> old(fs.tree)[path].Dir?)
      ensures IsFile(old(fs.tree), path) ==> r == Err(NotADirectory)
      ensures path !in old(fs.tree) && Mkdir(old(fs.tree), path).Ok? ==> fs.tree == Mkdir(old(fs.tree), path).value && r.Ok?
      ensures path !in old(fs.tree) && Mkdir(old(fs.tree), path).Err? ==>
        fs.tree == old(fs.tree) && r == Err(Mkdir(old(fs.tree), path).error)
    {
      if path !in fs.tree {
        var made := Mkdir(fs.tree, path);
        if made.Err? {
          return Err(made.error);
        }
        fs.tree := made.value;
      } else if fs.tree[path].File? {
        return Err(NotADirectory);
      }
      var h := new ArchiveHandler(fs, path);
      r := Ok(h);
    }

    /** `set_item_info(id, data)`: stores `data` as the item's metadata. */
    method SetItemInfo(id: int, data: map<string, Json>) returns (err: Option<IoError>)
      requires Valid()
      modifies fs
      ensures Valid()
      ensures (fs.tree, err) == WriteInfo(old(fs.tree), path, id, JObj(data))
    {
      WriteInfoResult(fs.tree, path, id, JObj(data));
      var item := ItemPath(path, id);
      if item !in fs.tree {
        var made := Mkdir(fs.tree, item);
        if made.Err? {
          return Some(made.error);
        }
        fs.tree := made.value;
      }
      var handle := OpenForWrite(fs.tree, CrumbPath(path, id));
      if handle.Err? {
        return Some(handle.error);
      }
      fs.tree := handle.value[CrumbPath(path, id) := File(JsonText(JObj(data)))];
      err := None;
    }

    /** `list_items()` as written: ascending ids of all-digit directories with metadata. */
    method ListItemsAsWritten() returns (ids: seq<int>)
      requires Valid()
      ensures Sorting.Sorted(ids, Sorting.IntLe)
      ensures multiset(ids) == ListedIdsAsWritten(fs.tree, path)
    {
      var t := fs.tree;
      Sorting.IntLeIsTotalPreorder();
      var found := Collect(Children(t, path), n => ListedIdAsWritten(t, path, n));
      ids := Sorting.SortBy(found, Sorting.IntLe);
    }

    /** `list_items()` restricted to canonical directory names: exactly the items, ascending, each once. */
    method ListItems() returns (ids: seq<int>)
      requires Valid()
      ensures Sorting.Sorted(ids, Sorting.IntLe)
      ensures multiset(ids) == ListedIds(fs.tree, path)
    {
      var t := fs.tree;
      Sorting.IntLeIsTotalPreorder();
      var found := Collect(Children(t, path), n => ListedId(t, path, n));
      ids := Sorting.SortBy(found, Sorting.IntLe);
    }
  }

  // ---------------------------------------------------------------------------
  // Reading and updating metadata through the endpoints
  // ---------------------------------------------------------------------------

  /** The `info` endpoint: the item's metadata, or `not_in_archive` when the read finds nothing. */
  function Info(t: Tree, root: Path, id: int): (r: Answer<Json>)
    ensures r.Body? <==> GetItemInfo(t, root, id).Ok?
    ensures r.Body? ==> r.value == GetItemInfo(t, root, id).value
    ensures r.Replied? <==> GetItemInfo(t, root, id) == Err(FileNotFound)
    ensures r.Replied? ==> !CheckItem(t, root, id) && r.reply.code == "not_in_archive" && r.reply.status == 404
    ensures r.Raised? ==> r.failure.Io? && r.failure.error != FileNotFound
  {
    match GetItemInfo(t, root, id)
    case Ok(doc) => Body(doc)
    case Err(FileNotFound) => Replied(Responses.Plain("not_in_archive"))
    case Err(e) => Raised(Io(e))
  }

  /** In a well-formed archive, an item without metadata answers `not_in_archive` rather than failing. */
  lemma InfoOfMissingItem(t: Tree, root: Path, id: int)
    requires WellFormed(t) && IsDir(t, root)
    requires CrumbPath(root, id) !in t && !IsFile(t, ItemPath(root, id))
    ensures Info(t, root, id) == Replied(Responses.Plain("not_in_archive"))
  {
  }

  /** What was stored is what `info` answers. */
  lemma InfoAfterWrite(t: Tree, root: Path, id: int, doc: Json)
    requires WellFormed(t) && IsDir(t, root)
    requires WriteInfo(t, root, id, doc).1.None?
    ensures Info(WriteInfo(t, root, id, doc).0, root, id) == Body(doc)
  {
    WriteInfoResult(t, root, id, doc);
  }

  /** `existing | new`: a shallow merge in which the new top-level keys win. */
  function Merge(existing: map<string, Json>, incoming: map<string, Json>): (r: map<string, Json>)
    ensures r.Keys == existing.Keys + incoming.Keys
    ensures forall k :: k in incoming ==> r[k] == incoming[k]
    ensures forall k :: k in existing && k !in incoming ==> r[k] == existing[k]
  {
    existing + incoming
  }

  /** Merging the same update twice is merging it once, and an empty update changes nothing. */
  lemma MergeIdempotent(existing: map<string, Json>, incoming: map<string, Json>)
    ensures Merge(Merge(existing, incoming), incoming) == Merge(existing, incoming)
    ensures Merge(existing, map[]) == existing
  {
  }

  /**
   * The disk after `update_info(id, data)` and its answer: an existing object
   * is merged with `data` and the item is `resource_updated`; a missing item
   * is created with `data` and is `resource_created`; stored metadata that is
   * not an object cannot be merged.
   */
  function Update(t: Tree, root: Path, id: int, data: map<string, Json>): (Tree, Answer<()>) {
    match GetItemInfo(t, root, id)
    case Ok(JObj(existing)) =>
      var (t', err) := WriteInfo(t, root, id, JObj(Merge(existing, data)));
      (t', match err case None => Replied(Responses.Plain("resource_updated")) case Some(e) => Raised(Io(e)))
    case Ok(_) => (t, Raised(TypeError))
    case Err(FileNotFound) =>
      var (t', err) := WriteInfo(t, root, id, JObj(data));
      (t', match err case None => Replied(Responses.Plain("resource_created")) case Some(e) => Raised(Io(e)))
    case Err(e) => (t, Raised(Io(e)))
  }

  /** Updating an existing item stores `existing | data` and answers `resource_updated`. */
  lemma UpdateExisting(t: Tree, root: Path, id: int, existing: map<string, Json>, data: map<string, Json>)
    requires WellFormed(t) && IsDir(t, root)
    requires GetItemInfo(t, root, id) == Ok(JObj(existing))
    ensures Update(t, root, id, data).1 == Replied(Responses.Plain("resource_updated"))
    ensures GetItemInfo(Update(t, root, id, data).0, root, id) == Ok(JObj(Merge(existing, data)))
  {
    WriteInfoResult(t, root, id, JObj(Merge(existing, data)));
  }

  /** Updating an item that has no metadata creates it with `data` and answers `resource_created`. */
  lemma UpdateMissing(t: Tree, root: Path, id: int, data: map<string, Json>)
    requires WellFormed(t) && IsDir(t, root)
    requires GetItemInfo(t, root, id) == Err(FileNotFound)
    ensures Update(t, root, id, data).1 == Replied(Responses.Plain("resource_created"))
    ensures GetItemInfo(Update(t, root, id, data).0, root, id) == Ok(JObj(data))
  {
    WriteInfoResult(t, root, id, JObj(data));
  }

  /** Sending the same update twice leaves the same metadata as sending it once; the second answer is `resource_updated`. */
  lemma UpdateTwice(t: Tree, root: Path, id: int, data: map<string, Json>)
    requires WellFormed(t) && IsDir(t, root)
    requires Update(t, root, id, data).1.Replied?
    ensures var t1 := Update(t, root, id, data).0;
      && Update(t1, root, id, data).1 == Replied(Responses.Plain("resource_updated"))
      && GetItemInfo(Update(t1, root, id, data).0, root, id) == GetItemInfo(t1, root, id)
  {
    var t1 := Update(t, root, id, data).0;
    match GetItemInfo(t, root, id)
    case Ok(JObj(existing)) =>
      UpdateExisting(t, root, id, existing, data);
      WriteInfoResult(t, root, id, JObj(Merge(existing, data)));
      UpdateExisting(t1, root, id, Merge(existing, data), data);
      MergeIdempotent(existing, data);
    case Err(FileNotFound) =>
      UpdateMissing(t, root, id, data);
      WriteInfoResult(t, root, id, JObj(data));
      UpdateExisting(t1, root, id, data, data);
      assert Merge(data, data) == data;
  }

  /** An update that answers at all answers `resource_updated` (200) or `resource_created` (201). */
  lemma UpdateReplyStatuses(t: Tree, root: Path, id: int, data: map<string, Json>)
    ensures var a := Update(t, root, id, data).1;
      a.Replied? ==>
        || (a.reply.code == "resource_updated" && a.reply.status == 200)
        || (a.reply.code == "resource_created" && a.reply.status == 201)
  {
    Responses.ArchiveStatuses();
  }

  /** An update touches no other item. */
  lemma UpdateKeepsOthers(t: Tree, root: Path, id: int, data: map<string, Json>, other: int)
    requires WellFormed(t) && IsDir(t, root) && other != id
    ensures GetItemInfo(Update(t, root, id, data).0, root, other) == GetItemInfo(t, root, other)
  {
    match GetItemInfo(t, root, id)
    case Ok(JObj(existing)) =>
      WriteInfoKeepsOthers(t, root, id, JObj(Merge(existing, data)), other);
    case Ok(_) =>
    case Err(FileNotFound) =>
      WriteInfoKeepsOthers(t, root, id, JObj(data), other);
    case Err(_) =>
  }

  // ---------------------------------------------------------------------------
  // Downloading a file
  // ---------------------------------------------------------------------------

  /** What a file download sends: the file, under the name the client is offered. */
  datatype Download = Download(file: Path, nickname: string)

  /**
   * The offered name: `<name>-<id>.<last dot-segment>` when the filename's
   * first dot-segment is the archive name, otherwise `<name>-<id>-<filename>`.
   */
  function Nickname(name: string, id: int, filename: string): (r: string)
    ensures StartsWith(r, name + "-" + IntToString(id))
  {
    var parts := Split(filename, '.');
    if parts[0] == name then name + "-" + IntToString(id) + "." + parts[|parts| - 1]
    else name + "-" + IntToString(id) + "-" + filename
  }

  /**
   * A file named after the archive keeps only its last extension: `Anime.mkv`
   * of item 3 is offered as `Anime-3.mkv`, and `Anime.tar.gz` as `Anime-3.gz`.
   */
  lemma NicknameOfOwnFile(name: string, id: int, middle: string, ext: string)
    requires '.' !in name && '.' !in ext
    ensures Nickname(name, id, name + "." + ext) == name + "-" + IntToString(id) + "." + ext
    ensures Nickname(name, id, name + "." + middle + "." + ext) == name + "-" + IntToString(id) + "." + ext
  {
    NicknameOfOwnFileOneExtension(name, id, ext);
    NicknameOfOwnFileLastExtension(name, id, middle, ext);
  }

  lemma NicknameOfOwnFileOneExtension(name: string, id: int, ext: string)
    requires '.' !in name && '.' !in ext
    ensures Nickname(name, id, name + "." + ext) == name + "-" + IntToString(id) + "." + ext
  {
    SplitNoSeparator(ext, '.');
    SplitFirstSeparator(name, '.', ext);
    assert name + "." + ext == name + ['.'] + ext;
  }

  lemma NicknameOfOwnFileLastExtension(name: string, id: int, middle: string, ext: string)
    requires '.' !in name && '.' !in ext
    ensures Nickname(name, id, name + "." + middle + "." + ext) == name + "-" + IntToString(id) + "." + ext
  {
    var rest := middle + ['.'] + ext;
    var filename := name + ['.'] + rest;
    assert name + "." + middle + "." + ext == filename;
    SplitLast(middle, '.', ext);
    SplitFirstSeparator(name, '.', rest);
    var parts := Split(filename, '.');
    assert parts == [name] + (Split(middle, '.') + [ext]);
    assert parts[0] == name && parts[|parts| - 1] == ext;
  }

  /** A filename that is exactly the archive name is offered as `<name>-<id>.<name>`. */
  lemma NicknameOfBareName(name: string, id: int)
    requires '.' !in name
    ensures Nickname(name, id, name) == name + "-" + IntToString(id) + "." + name
  {
    SplitNoSeparator(name, '.');
  }

  /** Any other filename is kept whole after the `<name>-<id>-` prefix. */
  lemma NicknameOfOtherFile(name: string, id: int, filename: string)
    requires filename != name && !StartsWith(filename, name + ".")
    ensures Nickname(name, id, filename) == name + "-" + IntToString(id) + "-" + filename
  {
    SplitFirstPart(filename, '.', name);
  }

  /** The download endpoint: the file with its offered name, or `not_in_archive` when no regular file is there. */
  function GetFile(t: Tree, root: Path, name: string, id: int, branch: string, filename: string): (r: Answer<Download>)
    ensures r.Body? <==> IsFile(t, FilePath(root, id, branch, filename))
    ensures r.Body? ==> r.value == Download(FilePath(root, id, branch, filename), Nickname(name, id, filename))
    ensures r.Body? ==> |r.value.file| >= |root| && r.value.file[..|root|] == root
    ensures r.Replied? <==> !IsFile(t, FilePath(root, id, branch, filename))
    ensures r.Replied? ==> r.reply.code == "not_in_archive" && r.reply.status == 404
  {
    var p := FilePath(root, id, branch, filename);
    assert p[..|root|] == root;
    if IsFile(t, p) then Body(Download(p, Nickname(name, id, filename)))
    else Replied(Responses.Plain("not_in_archive"))
  }

  // ---------------------------------------------------------------------------
  // Uploading a file
  // ---------------------------------------------------------------------------

  /** The uploaded file: its declared content type and size, and a read position in its body. */
  class UploadStream {
    const contentType: Option<string>
    const size: Option<int>
    var data: seq<bv8>
    var pos: nat

    ghost predicate Valid()
      reads this
    {
      pos <= |data|
    }

    constructor (contentType: Option<string>, size: Option<int>, data: seq<bv8>)
      ensures this.contentType == contentType && this.size == size && this.data == data && pos == 0
      ensures Valid()
    {
      this.contentType := contentType;
      this.size := size;
      this.data := data;
      pos := 0;
    }

    /** `read(n)`: the next bytes of the body, at most n of them, and none only once the body is used up. */
    method Read(n: nat) returns (chunk: seq<bv8>)
      requires Valid() && n > 0
      modifies this
      ensures Valid() && data == old(data)
      ensures |chunk| <= n && pos == old(pos) + |chunk|
      ensures chunk == data[old(pos)..pos]
      ensures chunk == [] <==> old(pos) == |data|
    {
      var k := if |data| - pos < n then |data| - pos else n;
      chunk := data[pos..pos + k];
      pos := pos + k;
    }
  }

  /** `respond('wrong_content_type', expected_mimetype=...)`. */
  function WrongType(guessed: Option<string>): (r: Responses.Reply)
    ensures r.code == "wrong_content_type" && r.status == 400
    ensures r.extra == Some(map["expected_mimetype" := OptStr(guessed)])
  {
    var kwargs := map["expected_mimetype" := OptStr(guessed)];
    assert "expected_mimetype" in kwargs;
    Responses.Respond("wrong_content_type", kwargs).value
  }

  /**
   * The two checks before an upload writes anything, as written: the content
   * type first, then the item's existence, where the missing item raises the
   * reply object instead of returning it, which fails as a `TypeError`.
   */
  function UploadCheckAsWritten(contentType: Option<string>, guessed: Option<string>, itemExists: bool): (r: Option<Answer<()>>)
    ensures r.None? <==> contentType == guessed && itemExists
    ensures r.Some? ==> (r.value.Replied? <==> contentType != guessed)
    ensures r.Some? && r.value.Replied? ==> r.value.reply.code == "wrong_content_type" && r.value.reply.status == 400
    ensures r.Some? && !r.value.Replied? ==> r.value == Raised(TypeError)
  {
    if contentType != guessed then Some(Replied(WrongType(guessed)))
    else if !itemExists then Some(Raised(TypeError))
    else None
  }

  /** As written, an upload with the right content type to a missing item is a server error, not `not_in_archive`. */
  lemma UploadToMissingItemRaises(contentType: Option<string>)
    ensures UploadCheckAsWritten(contentType, contentType, false) == Some(Raised(TypeError))
    ensures UploadCheckAsWritten(contentType, contentType, false) != UploadCheck(contentType, contentType, false)
  {
  }

  /** The two checks as intended: a wrong content type is a 400, a missing item a 404, and neither raises. */
  function UploadCheck(contentType: Option<string>, guessed: Option<string>, itemExists: bool): (r: Option<Answer<()>>)
    ensures r.None? <==> contentType == guessed && itemExists
    ensures r.Some? ==> r.value.Replied?
    ensures r.Some? ==> (r.value.reply.status == 400 <==> contentType != guessed)
    ensures r.Some? && contentType == guessed ==> r.value.reply.code == "not_in_archive" && r.value.reply.status == 404
  {
    if contentType != guessed then Some(Replied(WrongType(guessed)))
    else if !itemExists then Some(Replied(Responses.Plain("not_in_archive")))
    else None
  }

  /** The content type is checked first: a mismatch gives the same answer whether or not the item exists. */
  lemma ContentTypeCheckedFirst(contentType: Option<string>, guessed: Option<string>)
    requires contentType != guessed
    ensures UploadCheck(contentType, guessed, false) == UploadCheck(contentType, guessed, true)
    ensures UploadCheckAsWritten(contentType, guessed, false) == UploadCheck(contentType, guessed, false)
  {
  }

  /** `if not branch_path.is_dir(): branch_path.mkdir()`. */
  function MakeBranch(t: Tree, branchDir: Path): (r: Result<Tree, IoError>)
    ensures r.Ok? <==> IsDir(t, branchDir) || (branchDir !in t && branchDir != [] && IsDir(t, Parent(branchDir)))
    ensures r.Ok? ==> r.value == (if IsDir(t, branchDir) then t else t[branchDir := Dir])
    ensures r.Ok? ==> IsDir(r.value, branchDir)
    ensures r.Ok? && WellFormed(t) ==> WellFormed(r.value)
  {
    if IsDir(t, branchDir) then Ok(t) else Mkdir(t, branchDir)
  }

  /** The reply to a finished upload, with the declared size and the time it took. */
  function UploadReply(size: Option<int>, elapsed: int): (r: Responses.Reply)
    ensures r.code == "upload_succeeded" && r.status == 200
    ensures r.extra == Some(map["file_size" := OptNum(size), "elapsed_time" := JNum(elapsed)])
  {
    var kwargs := map["file_size" := OptNum(size), "elapsed_time" := JNum(elapsed)];
    assert "file_size" in kwargs;
    Responses.Respond("upload_succeeded", kwargs).value
  }

  /**
   * The disk after an upload that passed its checks, and the error if one was
   * raised: the branch directory is made if missing, the file opened for
   * writing and filled with the body. A failed open leaves the branch made.
   */
  function Store(t: Tree, branchDir: Path, p: Path, body: seq<bv8>): (Tree, Option<IoError>) {
    match MakeBranch(t, branchDir)
    case Err(e) => (t, Some(e))
    case Ok(t1) =>
      match OpenForWrite(t1, p)
      case Err(e) => (t1, Some(e))
      case Ok(t2) => (t2[p := File(Bytes(body))], None)
  }

  /** A store that raised nothing leaves a regular file at its path. */
  lemma StoredIsFile(t: Tree, b: Path, p: Path, body: seq<bv8>)
    requires Store(t, b, p, body).1.None?
    ensures IsFile(Store(t, b, p, body).0, p)
  {
  }

  /**
   * A store into a branch whose parent directory exists, and which is either
   * missing or already a directory, of a file directly inside that branch
   * and not itself a directory, raises nothing.
   */
  lemma StoreSucceeds(t: Tree, b: Path, p: Path, body: seq<bv8>)
    requires WellFormed(t)
    requires b != [] && IsDir(t, Parent(b)) && (b !in t || IsDir(t, b))
    requires p != [] && Parent(p) == b && !IsDir(t, p)
    ensures Store(t, b, p, body).1.None?
  {
  }

  /** The uploaded file is what the download endpoint then serves, under its offered name and with the uploaded bytes. */
  lemma UploadThenDownload(t: Tree, root: Path, name: string, id: int, branch: string, filename: string, body: seq<bv8>)
    requires Store(t, BranchPath(root, id, branch), FilePath(root, id, branch, filename), body).1.None?
    ensures var p := FilePath(root, id, branch, filename);
      var t' := Store(t, BranchPath(root, id, branch), p, body).0;
      && GetFile(t', root, name, id, branch, filename) == Body(Download(p, Nickname(name, id, filename)))
      && t'[p].content == Bytes(body)
  {
  }

  /** Storing an upload keeps the disk well formed and changes nothing but the branch directory and the file. */
  lemma StoreFrame(t: Tree, b: Path, p: Path, body: seq<bv8>)
    requires WellFormed(t)
    ensures WellFormed(Store(t, b, p, body).0)
    ensures var t' := Store(t, b, p, body).0;
      forall q :: q != b && q != p ==> (q in t' <==> q in t) && (q in t ==> t'[q] == t[q])
  {
    if MakeBranch(t, b).Ok? && OpenForWrite(MakeBranch(t, b).value, p).Ok? {
      ReplaceContent(OpenForWrite(MakeBranch(t, b).value, p).value, p, Bytes(body));
    }
  }

  /** A change confined to paths at least two levels below the archive directory, other than `crumb.json` files, keeps the listing. */
  lemma ListingUnaffected(t: Tree, t': Tree, root: Path, b: Path, p: Path)
    requires forall q :: q != b && q != p ==> (q in t' <==> q in t) && (q in t ==> t'[q] == t[q])
    requires |b| == |root| + 2 && b[|root| + 1] != "crumb.json" && |p| > |root| + 2
    ensures ListedIds(t', root) == ListedIds(t, root)
    ensures ListedIdsAsWritten(t', root) == ListedIdsAsWritten(t, root)
  {
    forall n
      ensures n in Children(t', root) <==> n in Children(t, root)
    {
      assert |root + [n]| == |root| + 1;
    }
    forall n | n in Children(t, root)
      ensures ListedId(t', root, n) == ListedId(t, root, n)
      ensures ListedIdAsWritten(t', root, n) == ListedIdAsWritten(t, root, n)
    {
      assert |root + [n]| == |root| + 1;
      var crumb := root + [n, "crumb.json"];
      assert crumb != b by {
        assert crumb[|root| + 1] == "crumb.json";
      }
    }
    GatherCongruent(Children(t, root), n => ListedId(t', root, n), n => ListedId(t, root, n));
    GatherCongruent(Children(t, root), n => ListedIdAsWritten(t', root, n), n => ListedIdAsWritten(t, root, n));
    assert Children(t', root) == Children(t, root);
  }

  /** The same confinement keeps every item's metadata. */
  lemma MetadataUnaffected(t: Tree, t': Tree, root: Path, b: Path, p: Path, id: int)
    requires forall q :: q != b && q != p ==> (q in t' <==> q in t) && (q in t ==> t'[q] == t[q])
    requires |b| == |root| + 2 && b[|root| + 1] != "crumb.json" && |p| > |root| + 2
    ensures GetItemInfo(t', root, id) == GetItemInfo(t, root, id)
  {
    assert CrumbPath(root, id) != b by {
      assert CrumbPath(root, id)[|root| + 1] == "crumb.json";
    }
    assert |ItemPath(root, id)| == |root| + 1;
  }

  /**
   * Storing an uploaded file changes neither the item listing nor any item's
   * metadata: it only adds the branch directory and the file below an item.
   */
  lemma UploadKeepsItems(t: Tree, root: Path, id: int, branch: string, filename: string, body: seq<bv8>, other: int)
    requires WellFormed(t)
    requires branch != "crumb.json" && PathParts(filename) != []
    ensures var t' := Store(t, BranchPath(root, id, branch), FilePath(root, id, branch, filename), body).0;
      && WellFormed(t')
      && ListedIds(t', root) == ListedIds(t, root)
      && ListedIdsAsWritten(t', root) == ListedIdsAsWritten(t, root)
      && GetItemInfo(t', root, other) == GetItemInfo(t, root, other)
  {
    var b := BranchPath(root, id, branch);
    var p := FilePath(root, id, branch, filename);
    StoreFrame(t, b, p, body);
    var t' := Store(t, b, p, body).0;
    assert |b| == |root| + 2 && b[|root| + 1] == branch && |p| > |root| + 2;
    ListingUnaffected(t, t', root, b, p);
    MetadataUnaffected(t, t', root, b, p, other);
  }

  /**
   * The copy loop of an upload: reads chunks of at most 1024 bytes and
   * appends each to the open file p until a read comes back empty.
   */
  method CopyChunks(fs: FileSystem, p: Path, file: UploadStream)
    requires IsFile(fs.tree, p) && fs.tree[p] == File(Bytes([])) && file.Valid()
    modifies fs, file
    ensures file.Valid() && file.data == old(file.data) && file.pos == |file.data|
    ensures fs.tree == old(fs.tree)[p := File(Bytes(old(file.data)[old(file.pos)..]))]
  {
    ghost var start := file.pos;
    ghost var emptied := fs.tree;
    assert file.data[start..file.pos] == [];
    assert emptied[p := File(Bytes([]))] == emptied;
    while true
      invariant file.Valid() && file.data == old(file.data) && start <= file.pos
      invariant fs.tree == emptied[p := File(Bytes(file.data[start..file.pos]))]
      decreases |file.data| - file.pos
    {
      var chunk := file.Read(1024);
      if chunk == [] {
        break;
      }
      assert file.data[start..file.pos] == file.data[start..file.pos - |chunk|] + chunk;
      fs.tree := fs.tree[p := File(Bytes(fs.tree[p].content.data + chunk))];
    }
    assert file.data[start..file.pos] == old(file.data)[old(file.pos)..];
  }

  // ---------------------------------------------------------------------------
  // The router
  // ---------------------------------------------------------------------------

  /** Why an archive's router could not be set up. */
  datatype SetupError = BadName | NoArchivePath | CannotOpen(error: IoError)

  /** `ArchiveRouter`: an archive's name, its handler, and the endpoints that write or loop. */
  class ArchiveRouter {
    const name: string
    const archive: ArchiveHandler

    ghost predicate Valid()
      reads archive.fs
    {
      ValidName(name) && archive.Valid()
    }

    constructor (name: string, archive: ArchiveHandler)
      requires ValidName(name) && archive.Valid()
      ensures this.name == name && this.archive == archive && Valid()
    {
      this.name := name;
      this.archive := archive;
    }

    /**
     * `ArchiveRouter(model, name)`: the name is checked first, then the
     * archive path configured for it, then the handler opens the directory.
     * A configured path is never falsy (`Path('')` is `.`), so only a name
     * missing from the configuration has no path.
     */
    static method Create(name: string, archives: map<string, string>, fs: FileSystem) returns (r: Result<ArchiveRouter, SetupError>)
      requires WellFormed(fs.tree)
      modifies fs
      ensures WellFormed(fs.tree)
      ensures (r.Err? && r.error == BadName) <==> !ValidName(name)
      ensures (r.Err? && r.error == NoArchivePath) <==> ValidName(name) && name !in archives
      ensures r.Err? && !r.error.CannotOpen? ==> fs.tree == old(fs.tree)
      ensures ValidName(name) && name in archives && IsDir(old(fs.tree), PathParts(archives[name])) ==>
        r.Ok? && fs.tree == old(fs.tree)
      ensures (ValidName(name) && name in archives && PathParts(archives[name]) !in old(fs.tree) &&
               Mkdir(old(fs.tree), PathParts(archives[name])).Ok?) ==> r.Ok?
      ensures r.Ok? ==> fresh(r.value) && r.value.name == name && r.value.Valid()
      ensures r.Ok? ==> r.value.archive.fs == fs && r.value.archive.path == PathParts(archives[name])
      ensures r.Err? && r.error.CannotOpen? ==> IsFile(old(fs.tree), PathParts(archives[name])) || PathParts(archives[name]) !in old(fs.tree)
    {
      if !ValidName(name) {
        return Err(BadName);
      }
      if name !in archives {
        return Err(NoArchivePath);
      }
      var handler := ArchiveHandler.Open(fs, PathParts(archives[name]));
      if handler.Err? {
        return Err(CannotOpen(handler.error));
      }
      var router := new ArchiveRouter(name, handler.value);
      r := Ok(router);
    }

    /**
     * The loop of the `all` endpoint over a list of ids: each id's metadata
     * keyed by `str(id)`; the first unreadable item, in list order, fails the
     * whole answer with its read error.
     */
    method InfoOfAll(ids: seq<int>) returns (r: Answer<map<string, Json>>)
      requires Valid()
      ensures r.Body? || r.Raised?
      ensures r.Body? <==> forall id :: id in ids ==> GetItemInfo(archive.fs.tree, archive.path, id).Ok?
      ensures r.Body? ==> r.value.Keys == set id | id in ids :: IntToString(id)
      ensures r.Body? ==> forall id :: id in ids ==> Ok(r.value[IntToString(id)]) == GetItemInfo(archive.fs.tree, archive.path, id)
      ensures r.Raised? ==> r.failure.Io?
      ensures r.Raised? ==> exists k :: 0 <= k < |ids| && GetItemInfo(archive.fs.tree, archive.path, ids[k]) == Err(r.failure.error) &&
                                      (forall j :: 0 <= j < k ==> GetItemInfo(archive.fs.tree, archive.path, ids[j]).Ok?)
    {
      var t, root := archive.fs.tree, archive.path;
      var response: map<string, Json> := map[];
      for i := 0 to |ids|
        invariant response.Keys == set id | id in ids[..i] :: IntToString(id)
        invariant forall id :: id in ids[..i] ==> GetItemInfo(t, root, id).Ok?
        invariant forall id :: id in ids[..i] ==> Ok(response[IntToString(id)]) == GetItemInfo(t, root, id)
      {
        match GetItemInfo(t, root, ids[i])
        case Err(e) =>
          assert forall j :: 0 <= j < i ==> ids[j] in ids[..i];
          return Raised(Io(e));
        case Ok(doc) =>
          forall id | id in ids[..i] && IntToString(id) == IntToString(ids[i])
            ensures id == ids[i]
          {
            IntToStringInjective(id, ids[i]);
          }
          assert ids[..i + 1] == ids[..i] + [ids[i]];
          response := response[IntToString(ids[i]) := doc];
      }
      assert ids[..|ids|] == ids;
      r := Body(response);
    }

    /**
     * The `all` endpoint as written: every id `list_items` reports, with its
     * metadata. An all-digit directory such as `007` is listed as 7, whose
     * metadata is then looked for under `7`, so the whole answer fails.
     */
    method AllInfo() returns (r: Answer<map<string, Json>>)
      requires Valid()
      ensures r.Body? || r.Raised?
      ensures r.Body? <==> forall id :: id in ListedIdsAsWritten(archive.fs.tree, archive.path) ==> GetItemInfo(archive.fs.tree, archive.path, id).Ok?
      ensures r.Body? ==> r.value.Keys == set id | id in ListedIdsAsWritten(archive.fs.tree, archive.path) :: IntToString(id)
      ensures r.Body? ==> forall id :: id in ListedIdsAsWritten(archive.fs.tree, archive.path) ==>
        Ok(r.value[IntToString(id)]) == GetItemInfo(archive.fs.tree, archive.path, id)
    {
      var ids := archive.ListItemsAsWritten();
      assert forall id :: id in ids <==> id in multiset(ids);
      r := InfoOfAll(ids);
    }

    /**
     * The `all` endpoint over the corrected listing: every listed id is an
     * item, so the answer can fail only on metadata that is not JSON.
     */
    method AllInfoCorrected() returns (r: Answer<map<string, Json>>)
      requires Valid()
      ensures r.Body? || r == Raised(Io(JsonDecode))
      ensures r.Body? <==> forall id :: id in ListedIds(archive.fs.tree, archive.path) ==> GetItemInfo(archive.fs.tree, archive.path, id).Ok?
      ensures r.Body? ==> r.value.Keys == set id | id in ListedIds(archive.fs.tree, archive.path) :: IntToString(id)
      ensures r.Body? ==> forall id :: id in ListedIds(archive.fs.tree, archive.path) ==>
        Ok(r.value[IntToString(id)]) == GetItemInfo(archive.fs.tree, archive.path, id)
    {
      var ids := archive.ListItems();
      assert forall id :: id in ids <==> id in multiset(ids);
      r := InfoOfAll(ids);
      if r.Raised? {
        var k :| 0 <= k < |ids| && GetItemInfo(archive.fs.tree, archive.path, ids[k]) == Err(r.failure.error);
        assert ids[k] in ids;
        ListedIdsAreItems(archive.fs.tree, archive.path, ids[k]);
      }
    }

    /** The `size` endpoint as written: how many ids `list_items` reports, non-canonical names included. */
    method Size() returns (size: nat)
      requires Valid()
      ensures size == |ListedIdsAsWritten(archive.fs.tree, archive.path)|
    {
      var ids := archive.ListItemsAsWritten();
      size := |ids|;
    }

    /** The `size` endpoint over the corrected listing: the number of items with a non-negative id. */
    method SizeCorrected() returns (size: nat)
      requires Valid()
      ensures size == |ListedIds(archive.fs.tree, archive.path)|
    {
      var ids := archive.ListItems();
      size := |ids|;
    }

    /** The metadata `PATCH` endpoint. */
    method UpdateInfo(id: int, data: map<string, Json>) returns (r: Answer<()>)
      requires Valid()
      modifies archive.fs
      ensures Valid()
      ensures (archive.fs.tree, r) == Update(old(archive.fs.tree), archive.path, id, data)
    {
      match GetItemInfo(archive.fs.tree, archive.path, id)
      case Ok(JObj(existing)) =>
        var err := archive.SetItemInfo(id, Merge(existing, data));
        match err {
          case None => r := Replied(Responses.Plain("resource_updated"));
          case Some(e) => r := Raised(Io(e));
        }
      case Ok(_) =>
        r := Raised(TypeError);
      case Err(FileNotFound) =>
        var err := archive.SetItemInfo(id, data);
        match err {
          case None => r := Replied(Responses.Plain("resource_created"));
          case Some(e) => r := Raised(Io(e));
        }
      case Err(e) =>
        r := Raised(Io(e));
    }

    /**
     * The upload endpoint for `filename` in `branch`: after the two checks as
     * written (a missing item raises a `TypeError`), stores the body of `file`. `guessed` is the type guessed from the
     * filename and `elapsed` the time the copy took.
     */
    method UploadFile(id: int, branch: string, filename: string, file: UploadStream, guessed: Option<string>, elapsed: int)
      returns (r: Answer<()>)
      requires Valid() && file.Valid()
      modifies archive.fs, file
      ensures Valid() && file.Valid() && file.data == old(file.data)
      ensures var check := UploadCheckAsWritten(file.contentType, guessed, CheckItem(old(archive.fs.tree), archive.path, id));
        check.Some? ==> r == check.value && archive.fs.tree == old(archive.fs.tree) && file.pos == old(file.pos)
      ensures var check := UploadCheckAsWritten(file.contentType, guessed, CheckItem(old(archive.fs.tree), archive.path, id));
        var (t', err) := Store(old(archive.fs.tree), BranchPath(archive.path, id, branch),
                               FilePath(archive.path, id, branch, filename), old(file.data)[old(file.pos)..]);
        check.None? ==>
          && archive.fs.tree == t'
          && r == (match err case None => Replied(UploadReply(file.size, elapsed)) case Some(e) => Raised(Io(e)))
          && file.pos == (if err.None? then |file.data| else old(file.pos))
    {
      StoreFrame(archive.fs.tree, BranchPath(archive.path, id, branch), FilePath(archive.path, id, branch, filename), file.data[file.pos..]);
      var check := UploadCheckAsWritten(file.contentType, guessed, CheckItem(archive.fs.tree, archive.path, id));
      if check.Some? {
        return check.value;
      }
      var made := MakeBranch(archive.fs.tree, BranchPath(archive.path, id, branch));
      if made.Err? {
        return Raised(Io(made.error));
      }
      archive.fs.tree := made.value;
      var p := FilePath(archive.path, id, branch, filename);
      var handle := OpenForWrite(archive.fs.tree, p);
      if handle.Err? {
        return Raised(Io(handle.error));
      }
      archive.fs.tree := handle.value;
      CopyChunks(archive.fs, p, file);
      r := Replied(UploadReply(file.size, elapsed));
    }
  }
}
