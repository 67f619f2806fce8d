/**
 * The disk the archives live on, as a map from paths to directories and
 * regular files. Symbolic links are not represented (`Path.resolve()` is the
 * identity here). The operations are the `pathlib` and `open()` calls the
 * archive code makes, each with the error it raises.
 */
module FileTree {
  import opened Wrappers
  import opened JsonValue

  /** A path as its list of components, from the disk's root. */
  type Path = seq<string>

  /** The content of a regular file: raw bytes, or a JSON document (kept decoded). */
  datatype Content = Bytes(data: seq<bv8>) | JsonText(doc: Json)

  datatype Node = Dir | File(content: Content)

  type Tree = map<Path, Node>

  /** The `OSError` subclasses and the decode error the archive code can meet. */
  datatype IoError = FileNotFound | FileExists | IsADirectory | NotADirectory | JsonDecode

  function Parent(p: Path): Path
    requires p != []
  {
    p[..|p| - 1]
  }

  /** Every entry but the root sits in a directory that is itself an entry. */
  ghost predicate WellFormed(t: Tree) {
    forall p :: p in t && p != [] ==> Parent(p) in t && t[Parent(p)].Dir?
  }

  /** `Path.is_dir()`. */
  predicate IsDir(t: Tree, p: Path) {
    p in t && t[p].Dir?
  }

  /** `Path.is_file()`. */
  predicate IsFile(t: Tree, p: Path) {
    p in t && t[p].File?
  }

  /** `Path.iterdir()`, as a set: the names of the entries directly inside d. */
  function Children(t: Tree, d: Path): (names: set<string>)
    ensures forall n :: n in names <==> d + [n] in t
  {
    var names := set p | p in t && |p| == |d| + 1 && p[..|d|] == d :: p[|d|];
    assert forall p :: p in t && |p| == |d| + 1 && p[..|d|] == d ==> p == d + [p[|d|]];
    assert forall n :: d + [n] in t ==> (d + [n])[..|d|] == d && (d + [n])[|d|] == n;
    names
  }

  /** `Path.mkdir()` with neither `parents` nor `exist_ok`. */
  function Mkdir(t: Tree, p: Path): (r: Result<Tree, IoError>)
    ensures r.Ok? <==> p !in t && p != [] && IsDir(t, Parent(p))
    ensures r.Ok? ==> r.value == t[p := Dir]
    ensures r.Ok? && WellFormed(t) ==> WellFormed(r.value)
  {
    if p in t then Err(FileExists)
    else if p == [] || Parent(p) !in t then Err(FileNotFound)
    else if !t[Parent(p)].Dir? then Err(NotADirectory)
    else Ok(t[p := Dir])
  }

  /** `open(p, 'wb')`: creates p, or empties it when it is already a file. */
  function OpenForWrite(t: Tree, p: Path): (r: Result<Tree, IoError>)
    ensures WellFormed(t) ==>
      (r.Ok? <==> (IsFile(t, p) || (p !in t && p != [] && IsDir(t, Parent(p)))))
    ensures r.Ok? ==> r.value == t[p := File(Bytes([]))]
    ensures r.Ok? && WellFormed(t) ==> WellFormed(r.value)
  {
    if p in t then
      if t[p].Dir? then Err(IsADirectory) else Ok(t[p := File(Bytes([]))])
    else if p == [] || Parent(p) !in t then Err(FileNotFound)
    else if !t[Parent(p)].Dir? then Err(NotADirectory)
    else Ok(t[p := File(Bytes([]))])
  }

  /** `open(p, 'r')` and a read of everything in it. */
  function OpenForRead(t: Tree, p: Path): (r: Result<Content, IoError>)
    ensures r.Ok? <==> IsFile(t, p)
    ensures r.Ok? ==> r.value == t[p].content
    ensures r == Err(FileNotFound) ==> p !in t
  {
    if p in t then
      if t[p].Dir? then Err(IsADirectory) else Ok(t[p].content)
    else if p != [] && Parent(p) in t && t[Parent(p)].File? then Err(NotADirectory)
    else Err(FileNotFound)
  }

  /** Replacing a regular file's content keeps the tree well formed and every directory in place. */
  lemma ReplaceContent(t: Tree, p: Path, c: Content)
    requires WellFormed(t) && IsFile(t, p)
    ensures WellFormed(t[p := File(c)])
    ensures forall q :: IsDir(t, q) ==> IsDir(t[p := File(c)], q)
  {
  }

  /** The mutable disk shared by every archive. */
  class FileSystem {
    var tree: Tree

    constructor (t: Tree)
      ensures tree == t
    {
      tree := t;
    }
  }

  // ---------------------------------------------------------------------------
  // What a loop over `iterdir()` collects
  // ---------------------------------------------------------------------------

  ghost function Choose<T>(s: set<T>): (x: T)
    requires s != {}
    ensures x in s
  {
    var x :| x in s; x
  }

  function OptMs<T>(o: Option<T>): multiset<T> {
    if o.Some? then multiset{o.value} else multiset{}
  }

  /**
   * The values a loop over the entries `names` appends, where `sel(n)` is
   * `Some(v)` when the loop appends v for entry n and `None` when it skips n.
   * The directory's order is unspecified, so the result is a multiset.
   */
  ghost function Gather<T>(names: set<string>, sel: string -> Option<T>): multiset<T>
    decreases names
  {
    if names == {} then multiset{}
    else
      var n := Choose(names);
      Gather(names - {n}, sel) + OptMs(sel(n))
  }

  /** Any entry may be visited first: the collected values do not depend on the order. */
  lemma {:induction false} GatherRemove<T>(names: set<string>, sel: string -> Option<T>, x: string)
    requires x in names
    ensures Gather(names, sel) == Gather(names - {x}, sel) + OptMs(sel(x))
    decreases names
  {
    var n := Choose(names);
    if n != x {
      GatherRemove(names - {n}, sel, x);
      GatherRemove(names - {x}, sel, n);
      assert names - {n} - {x} == names - {x} - {n};
    }
  }

  /** A value is collected exactly when some entry selects it. */
  lemma {:induction false} GatherMember<T>(names: set<string>, sel: string -> Option<T>, v: T)
    ensures v in Gather(names, sel) <==> exists n :: n in names && sel(n) == Some(v)
    decreases names
  {
    if names != {} {
      var n := Choose(names);
      GatherMember(names - {n}, sel, v);
      if sel(n) == Some(v) {
        assert v in OptMs(sel(n));
      }
    }
  }

  /**
   * A loop over `iterdir()` that appends `sel(n)` for every entry n it keeps:
   * the result holds exactly what the entries select, whatever order the
   * directory yields them in.
   */
  method Collect<T>(names: set<string>, sel: string -> Option<T>) returns (found: seq<T>)
    ensures multiset(found) == Gather(names, sel)
  {
    found := [];
    var rest := names;
    while rest != {}
      invariant multiset(found) + Gather(rest, sel) == Gather(names, sel)
      decreases rest
    {
      var n :| n in rest;
      GatherRemove(rest, sel, n);
      match sel(n) {
        case Some(v) => found := found + [v];
        case None =>
      }
      rest := rest - {n};
    }
  }

  /** Entries that select the same values give the same collection. */
  lemma {:induction false} GatherCongruent<T>(names: set<string>, sel: string -> Option<T>, sel': string -> Option<T>)
    requires forall n :: n in names ==> sel(n) == sel'(n)
    ensures Gather(names, sel) == Gather(names, sel')
    decreases names
  {
    if names != {} {
      var n := Choose(names);
      GatherCongruent(names - {n}, sel, sel');
    }
  }

  /** When no two entries select the same value, nothing is collected twice. */
  lemma {:induction false} GatherInjective<T>(names: set<string>, sel: string -> Option<T>, v: T)
    requires forall a, b :: a in names && b in names && sel(a).Some? && sel(a) == sel(b) ==> a == b
    ensures Gather(names, sel)[v] <= 1
    decreases names
  {
    if names != {} {
      var n := Choose(names);
      GatherInjective(names - {n}, sel, v);
      if sel(n) == Some(v) {
        GatherMember(names - {n}, sel, v);
      }
    }
  }
}
