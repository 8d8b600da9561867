/** Packing a map directory into an archive, validating an archive and extracting it again
    (`_pack_map`, `_archive_members`, `_extract_archive`, `_safe_member_path`). */
module MapArchive {
  import opened PosixPath

  const MAX_ARCHIVE_MEMBERS: nat := 10_000
  const REQUIRED_MAP_FILES: set<string> := {"rtabmap.db", "occupancy.pgm", "occupancy.yaml", "meta.yaml"}

  type Bytes = seq<bv8>
  type Path = seq<Part>
  type Files = map<Path, Bytes>

  datatype Result<T> = Ok(value: T) | Err

  datatype Content = Regular(bytes: Bytes) | Directory | HardLink | SymLink | Special
  datatype Member = Member(name: string, content: Content)

  /** A directory tree: its files, and its directories including the root `[]`. */
  datatype Tree = Tree(files: Files, dirs: set<Path>)

  // ----- Member names -----

  /** The parts `pathlib` keeps of a relative path. */
  function Significant(parts: seq<Part>): (r: seq<Part>)
    ensures forall i | 0 <= i < |r| :: r[i] in parts && r[i] != "" && r[i] != "."
  {
    if parts == [] then []
    else (if parts[0] == "" || parts[0] == "." then [] else [parts[0]]) + Significant(parts[1..])
  }

  function Parts(name: string): Path { Significant(Split(name)) }

  function SafeMemberPath(name: string): Result<string> {
    if "/" <= name || ".." in Parts(name) then Err
    else if Parts(name) == [] then Ok(".")
    else Ok(Join(Parts(name)))
  }

  lemma PartsPlain(name: string)
    requires SafeMemberPath(name).Ok?
    ensures AllPlain(Parts(name))
  {
    var parts := Split(name);
    forall i | 0 <= i < |Parts(name)| ensures Plain(Parts(name)[i]) {
      var j :| 0 <= j < |parts| && parts[j] == Parts(name)[i];
    }
  }

  lemma {:induction false} SignificantPlain(parts: seq<Part>)
    requires AllPlain(parts)
    ensures Significant(parts) == parts
  {
    if parts != [] {
      SignificantPlain(parts[1..]);
      assert parts == [parts[0]] + parts[1..];
    }
  }

  /** A checked name splits into the parts it was made of: the second look at it in the extraction loop sees the
      same path, and joining that path to a directory can only lead below the directory. */
  lemma SafePathStaysBelow(root: Path, name: string)
    requires AllPlain(root) && SafeMemberPath(name).Ok?
    ensures Parts(SafeMemberPath(name).value) == Parts(name)
    ensures SafeMemberPath(name).value == "." <==> Parts(name) == []
    ensures Parts(name) != [] ==> SafeMemberPath(name).value == Join(Parts(name))
    ensures root <= PushAll(root, Parts(name), true) == root + Parts(name)
  {
    PartsPlain(name);
    PushPlain(root, Parts(name), true);
    if Parts(name) == [] {
      SplitPart(".");
    } else {
      PlainParts(Parts(name));
      if Join(Parts(name)) == "." { SplitPart("."); SplitJoin(Parts(name)); }
    }
  }

  lemma PlainParts(path: Path)
    requires AllPlain(path) && path != []
    ensures Parts(Join(path)) == path && SafeMemberPath(Join(path)) == Ok(Join(path))
  {
    SplitJoin(path);
    SignificantPlain(path);
    JoinNonempty(path);
    assert Plain(path[0]) && Join(path)[0] == path[0][0];
  }

  lemma {:induction false} SignificantKeeps(parts: seq<Part>, part: Part)
    requires part != "" && part != "."
    ensures part in Significant(parts) <==> part in parts
  {
    if parts != [] {
      SignificantKeeps(parts[1..], part);
      assert parts == [parts[0]] + parts[1..];
    }
  }

  /** A name is refused exactly when it is absolute or one of its components is "..". */
  lemma SafeNameIff(name: string)
    ensures SafeMemberPath(name).Ok? <==> (name == "" || name[0] != '/') && ".." !in Split(name)
  {
    hide Split;
    SignificantKeeps(Split(name), "..");
    assert "/"[0] == '/';
  }

  lemma {:induction false} SignificantResolves(stack: Path, parts: seq<Part>)
    ensures PushAll(stack, parts, true) == PushAll(stack, Significant(parts), true)
    decreases |parts|
  {
    if parts != [] {
      var rest := Significant(parts[1..]);
      if parts[0] == "" || parts[0] == "." {
        assert Significant(parts) == rest && Push(stack, parts[0], true) == stack;
        SignificantResolves(stack, parts[1..]);
      } else {
        assert Significant(parts)[0] == parts[0] && Significant(parts)[1..] == rest;
        SignificantResolves(Push(stack, parts[0], true), parts[1..]);
      }
    }
  }

  /** The place the file system resolves an accepted name to is the path it is staged at. */
  lemma SafeNameResolves(root: Path, name: string)
    requires AllPlain(root) && SafeMemberPath(name).Ok?
    ensures PushAll(if "/" <= name then [] else root, Split(name), true) == root + Parts(name)
  {
    hide Split;
    SafePathStaysBelow(root, name);
    SignificantResolves(root, Split(name));
  }

  // ----- What an archive says -----

  function Where(m: Member): Path { Parts(m.name) }

  predicate Safe(m: Member) { SafeMemberPath(m.name).Ok? }

  /** The members the two loops do not skip, and those of them that are files. */
  predicate Kept(m: Member) { Where(m) != [] }

  predicate IsFile(m: Member) { Kept(m) && m.content.Regular? }

  function Size(m: Member): nat { if IsFile(m) then |m.content.bytes| else 0 }

  function Total(a: seq<Member>): nat {
    if a == [] then 0 else Total(a[..|a| - 1]) + Size(a[|a| - 1])
  }

  ghost predicate Acceptable(m: Member) {
    Safe(m) && (Kept(m) ==> m.content.Regular? || m.content.Directory?)
  }

  ghost predicate Supported(a: seq<Member>) { forall i | 0 <= i < |a| :: Acceptable(a[i]) }

  function NamesOf(a: seq<Member>): set<string> {
    if a == [] then {}
    else NamesOf(a[..|a| - 1]) + if IsFile(a[|a| - 1]) then {Join(Where(a[|a| - 1]))} else {}
  }

  lemma {:induction false} TotalGrows(a: seq<Member>, n: nat)
    requires n <= |a|
    ensures Total(a[..n]) <= Total(a)
  {
    if n < |a| {
      TotalGrows(a[..|a| - 1], n);
      assert a[..|a| - 1][..n] == a[..n];
    } else {
      assert a[..n] == a;
    }
  }

  // ----- Validation -----

  /** Succeeds exactly on a small enough file of at most 10,000 members, all with safe names, all kept ones
      directories or regular files, whose sizes together stay in the limit; the result is the set of file names. */
  method ArchiveMembers(a: seq<Member>, fileSize: nat, limit: nat) returns (r: Result<set<string>>)
    ensures r.Ok? <==> fileSize <= limit && |a| <= MAX_ARCHIVE_MEMBERS && Supported(a) && Total(a) <= limit
    ensures r.Ok? ==> r.value == NamesOf(a)
  {
    hide Parts, Total, NamesOf, SafeMemberPath, TreeOf;
    if fileSize > limit || |a| > MAX_ARCHIVE_MEMBERS {
      return Err;
    }
    var names, total := {}, 0;
    StartEmpty();
    for i := 0 to |a|
      invariant Supported(a[..i]) && total == Total(a[..i]) <= limit && names == NamesOf(a[..i])
    {
      var m := a[i];
      NextMember(a, i);
      var relative := SafeMemberPath(m.name);
      if relative.Err? {
        assert !Acceptable(a[i]);
        return Err;
      }
      SafePathStaysBelow([], m.name);
      if relative.value == "." {
        continue;
      }
      if !m.content.Directory? && !m.content.Regular? {
        assert !Acceptable(a[i]);
        return Err;
      }
      if m.content.Regular? {
        total := total + |m.content.bytes|;
        if total > limit {
          TotalGrows(a, i + 1);
          return Err;
        }
        names := names + {relative.value};
      }
    }
    assert a[..|a|] == a;
    r := Ok(names);
  }

  lemma NextMember(a: seq<Member>, i: nat)
    requires i < |a|
    ensures Total(a[..i + 1]) == Total(a[..i]) + Size(a[i])
    ensures NamesOf(a[..i + 1]) == NamesOf(a[..i]) + if IsFile(a[i]) then {Join(Where(a[i]))} else {}
    ensures Supported(a[..i + 1]) <==> Supported(a[..i]) && Acceptable(a[i])
    ensures TreeOf(a[..i + 1]) == Added(TreeOf(a[..i]), a[i])
  {
    assert a[..i + 1] == a[..i] + [a[i]];
    assert a[..i + 1][..i] == a[..i];
    assert forall j | 0 <= j < i :: a[..i][j] == a[..i + 1][j];
  }

  // ----- Extraction -----

  function Prefixes(p: Path): set<Path> {
    {p} + if p == [] then {} else Prefixes(p[..|p| - 1])
  }

  lemma {:induction false} PrefixesAre(p: Path, q: Path)
    ensures q in Prefixes(p) <==> q <= p
    decreases |p|
  {
    if p != [] {
      PrefixesAre(p[..|p| - 1], q);
      assert p == p[..|p| - 1] + [p[|p| - 1]];
      assert q <= p && |q| == |p| ==> q == p;
      assert q <= p && |q| < |p| ==> q <= p[..|p| - 1];
    }
  }

  function Parent(p: Path): Path
    requires p != []
  {
    p[..|p| - 1]
  }

  /** What one member adds to the staging tree. */
  function Added(t: Tree, m: Member): Tree {
    if !Kept(m) then t
    else if m.content.Directory? then t.(dirs := t.dirs + Prefixes(Where(m)))
    else if m.content.Regular? then Tree(t.files[Where(m) := m.content.bytes], t.dirs + Prefixes(Parent(Where(m))))
    else t
  }

  function TreeOf(a: seq<Member>): Tree {
    if a == [] then Tree(map[], {[]}) else Added(TreeOf(a[..|a| - 1]), a[|a| - 1])
  }

  predicate NoFileIn(t: Tree, paths: set<Path>) { forall q | q in paths :: q !in t.files }

  /** `mkdir` with parents works unless a file is in the way; exclusive creation needs the name to be free. */
  predicate CanAdd(t: Tree, m: Member) {
    var p := Where(m);
    if !Kept(m) then true
    else if m.content.Directory? then NoFileIn(t, Prefixes(p))
    else NoFileIn(t, Prefixes(Parent(p))) && p !in t.files && p !in t.dirs
  }

  /** Two members get in each other's way when the path of one, a file, leads to or through that of the other. */
  ghost predicate Clash(m: Member, n: Member) {
    && Kept(m) && Kept(n)
    && ((IsFile(m) && Where(m) <= Where(n)) || (IsFile(n) && Where(n) <= Where(m)))
  }

  ghost predicate ConflictFree(a: seq<Member>) {
    forall i, j | 0 <= i < j < |a| :: !Clash(a[i], a[j])
  }

  ghost predicate FileAt(a: seq<Member>, p: Path) {
    exists i :: 0 <= i < |a| && WritesFile(a[i], p)
  }

  ghost predicate WritesFile(m: Member, p: Path) { IsFile(m) && Where(m) == p }

  ghost predicate NeedsDir(m: Member, p: Path) {
    Kept(m) && ((m.content.Directory? && p <= Where(m)) || (m.content.Regular? && p < Where(m)))
  }

  ghost predicate DirAt(a: seq<Member>, p: Path) {
    exists i :: 0 <= i < |a| && NeedsDir(a[i], p)
  }

  lemma AtLast(a: seq<Member>, p: Path)
    requires a != []
    ensures FileAt(a, p) <==> FileAt(a[..|a| - 1], p) || WritesFile(a[|a| - 1], p)
    ensures DirAt(a, p) <==> DirAt(a[..|a| - 1], p) || NeedsDir(a[|a| - 1], p)
  {
    hide WritesFile, NeedsDir;
    assert forall i | 0 <= i < |a| - 1 :: a[..|a| - 1][i] == a[i];
    if FileAt(a[..|a| - 1], p) {
      var i :| 0 <= i < |a| - 1 && WritesFile(a[..|a| - 1][i], p);
      assert WritesFile(a[i], p);
    }
    if DirAt(a[..|a| - 1], p) {
      var i :| 0 <= i < |a| - 1 && NeedsDir(a[..|a| - 1][i], p);
      assert NeedsDir(a[i], p);
    }
  }

  /** The extracted tree has a file or a directory exactly where some member asks for it. */
  lemma {:induction false} TreeIs(a: seq<Member>, p: Path)
    requires p != []
    ensures p in TreeOf(a).files <==> FileAt(a, p)
    ensures p in TreeOf(a).dirs <==> DirAt(a, p)
  {
    if a != [] {
      hide Added, FileAt, DirAt, WritesFile, NeedsDir;
      TreeIs(a[..|a| - 1], p);
      AtLast(a, p);
      AddedFiles(TreeOf(a[..|a| - 1]), a[|a| - 1], p);
      AddedDirs(TreeOf(a[..|a| - 1]), a[|a| - 1], p);
    }
  }

  lemma AddedFiles(t: Tree, m: Member, p: Path)
    ensures p in Added(t, m).files <==> p in t.files || WritesFile(m, p)
  {
    hide Parts;
  }

  lemma AddedDirs(t: Tree, m: Member, p: Path)
    ensures p in Added(t, m).dirs <==> p in t.dirs || NeedsDir(m, p)
  {
    hide Parts;
    PrefixesAre(Where(m), p);
    if Kept(m) {
      PrefixesAre(Parent(Where(m)), p);
      StrictPrefix(Where(m), p);
    }
  }

  lemma StrictPrefix(p: Path, q: Path)
    requires p != []
    ensures q < p <==> q <= Parent(p)
    ensures q <= p <==> q <= Parent(p) || q == p
  {
    assert p == Parent(p) + [p[|p| - 1]];
  }

  /** A member fits into what the earlier ones built exactly when it clashes with none of them. */
  lemma FitsIffNoClash(a: seq<Member>, i: nat)
    requires i < |a| && Supported(a)
    ensures CanAdd(TreeOf(a[..i]), a[i]) <==> forall j | 0 <= j < i :: !Clash(a[j], a[i])
  {
    hide Where, TreeOf, CanAdd, Clash;
    if CanAdd(TreeOf(a[..i]), a[i]) {
      forall j | 0 <= j < i ensures !Clash(a[j], a[i]) { FitsNoClash(a, i, j); }
    } else {
      var j := ClashFor(a, i);
    }
  }

  lemma FitsNoClash(a: seq<Member>, i: nat, j: nat)
    requires j < i < |a| && CanAdd(TreeOf(a[..i]), a[i]) && Acceptable(a[i]) && Acceptable(a[j])
    ensures !Clash(a[j], a[i])
  {
    hide Parts, TreeOf, Prefixes;
    var m, n := a[i], a[..i][j];
    if Kept(n) && Kept(m) {
      var p, q := Where(m), Where(n);
      TreeIs(a[..i], p);
      TreeIs(a[..i], q);
      PrefixesAre(p, q);
      PrefixesAre(Parent(p), q);
      StrictPrefix(p, q);
      assert IsFile(n) ==> WritesFile(n, q);
      assert IsFile(n) && IsFile(m) && p == q ==> WritesFile(n, p);
      assert IsFile(m) && p <= q && (p != q || n.content.Directory?) ==> NeedsDir(n, p);
    }
  }

  /** The earlier member that keeps a member from being extracted. */
  lemma ClashFor(a: seq<Member>, i: nat) returns (j: nat)
    requires i < |a| && Acceptable(a[i]) && !CanAdd(TreeOf(a[..i]), a[i])
    ensures j < i && Clash(a[j], a[i])
  {
    hide Parts, TreeOf, Prefixes;
    var m, t := a[i], TreeOf(a[..i]);
    var p := Where(m);
    TreeIs(a[..i], p);
    if m.content.Regular? && p in t.dirs {
      j :| 0 <= j < i && NeedsDir(a[..i][j], p);
    } else if m.content.Regular? && p in t.files {
      j :| 0 <= j < i && WritesFile(a[..i][j], p);
    } else {
      var scope := if m.content.Directory? then p else Parent(p);
      var q :| q in Prefixes(scope) && q in t.files;
      PrefixesAre(scope, q);
      StrictPrefix(p, q);
      if q == [] {
        RootIsNoFile(a[..i]);
      }
      TreeIs(a[..i], q);
      j :| 0 <= j < i && WritesFile(a[..i][j], q);
    }
  }

  lemma {:induction false} RootIsNoFile(a: seq<Member>)
    ensures [] !in TreeOf(a).files
  {
    if a != [] { RootIsNoFile(a[..|a| - 1]); }
  }

  /** Succeeds exactly when every member is acceptable, the file sizes together stay in the limit and no two
      members clash, whatever their order; the result holds the files and exactly the directories they need. */
  method ExtractArchive(a: seq<Member>, limit: nat) returns (r: Result<Tree>)
    ensures r.Ok? <==> Supported(a) && Total(a) <= limit && ConflictFree(a)
    ensures r.Ok? ==> r.value == TreeOf(a)
  {
    hide Parts, Prefixes, TreeOf, Total, NamesOf, SafeMemberPath, CanAdd, Clash;
    var tree, total := Tree(map[], {[]}), 0;
    StartEmpty();
    for i := 0 to |a|
      invariant Supported(a[..i]) && total == Total(a[..i]) <= limit && ConflictFree(a[..i])
      invariant tree == TreeOf(a[..i])
    {
      var m := a[i];
      NextMember(a, i);
      var relative := SafeMemberPath(m.name);
      if relative.Err? {
        assert !Acceptable(a[i]);
        return Err;
      }
      SafePathStaysBelow([], m.name);
      if relative.value == "." {
        NotKept(a, i);
        continue;
      }
      if !m.content.Directory? && !m.content.Regular? {
        assert !Acceptable(a[i]);
        return Err;
      }
      total := total + Size(m);
      if total > limit {
        TotalGrows(a, i + 1);
        return Err;
      }
      ConflictStep(a, i);
      if !CanAdd(tree, m) {
        return Err;
      }
      tree := Added(tree, m);
    }
    assert a[..|a|] == a;
    r := Ok(tree);
  }

  lemma StartEmpty()
    ensures TreeOf([]) == Tree(map[], {[]}) && Total([]) == 0 && NamesOf([]) == {}
  {
  }

  lemma NotKept(a: seq<Member>, i: nat)
    requires i < |a| && !Kept(a[i]) && ConflictFree(a[..i])
    ensures ConflictFree(a[..i + 1])
  {
    hide Kept, IsFile, Where;
    forall j, k | 0 <= j < k < i + 1 ensures !Clash(a[j], a[k]) {
      if k < i { assert a[..i][j] == a[j] && a[..i][k] == a[k]; }
    }
  }

  lemma ConflictStep(a: seq<Member>, i: nat)
    requires i < |a| && ConflictFree(a[..i]) && Supported(a[..i + 1])
    ensures CanAdd(TreeOf(a[..i]), a[i]) ==> ConflictFree(a[..i + 1])
    ensures !CanAdd(TreeOf(a[..i]), a[i]) ==> !ConflictFree(a)
  {
    hide Clash, TreeOf, CanAdd, Acceptable;
    var b := a[..i + 1];
    assert b[..i] == a[..i];
    FitsIffNoClash(b, i);
    forall j, k | 0 <= j < k < i + 1 && CanAdd(TreeOf(a[..i]), a[i]) ensures !Clash(b[j], b[k]) {
      if k < i { assert a[..i][j] == b[j] && a[..i][k] == b[k]; }
    }
  }

  // ----- Validation and extraction agree -----

  ghost function NamesIn(files: Files): set<string> { set p | p in files :: Join(p) }

  /** The validated names are exactly the extracted files. */
  lemma {:induction false} NamesAgree(a: seq<Member>)
    ensures NamesOf(a) == NamesIn(TreeOf(a).files)
  {
    if a != [] {
      NamesAgree(a[..|a| - 1]);
      AddedName(TreeOf(a[..|a| - 1]), a[|a| - 1]);
    }
  }

  lemma AddedName(t: Tree, m: Member)
    ensures NamesIn(Added(t, m).files) == NamesIn(t.files) + if IsFile(m) then {Join(Where(m))} else {}
  {
    hide Join, Parts;
    if IsFile(m) {
      var files := Added(t, m).files;
      assert Where(m) in files;
      forall name | name in NamesIn(t.files) + {Join(Where(m))} ensures name in NamesIn(files) {
        if name != Join(Where(m)) {
          var p :| p in t.files && Join(p) == name;
          assert p in files;
        }
      }
    }
  }

  /** A required name was validated exactly when the required file is extracted. */
  lemma RequiredAgree(a: seq<Member>, part: Part)
    requires Supported(a) && Plain(part)
    ensures part in NamesOf(a) <==> [part] in TreeOf(a).files
  {
    hide TreeOf, NamesOf;
    NamesAgree(a);
    if part in NamesOf(a) {
      var p :| p in TreeOf(a).files && Join(p) == part;
      FilesPlain(a, p);
      JoinInjective(p, [part]);
    }
  }

  lemma FilesPlain(a: seq<Member>, p: Path)
    requires Supported(a) && p in TreeOf(a).files
    ensures AllPlain(p)
  {
    hide TreeOf, Parts;
    if p == [] {
      RootIsNoFile(a);
    } else {
      TreeIs(a, p);
      var i :| 0 <= i < |a| && WritesFile(a[i], p);
      PartsPlain(a[i].name);
    }
  }

  // ----- Packing -----

  datatype Node = File(inode: nat, bytes: Bytes) | Folder | Link | Device
  datatype Entry = Entry(path: Path, node: Node)

  /** The listing of a directory tree: real names, each path once, every parent listed as a folder. */
  ghost predicate IsListing(l: seq<Entry>) {
    && Named(l)
    && (forall i, j | 0 <= i < j < |l| :: l[i].path != l[j].path)
    && (forall i, q | 0 <= i < |l| && q < l[i].path && q != [] :: FolderAt(l, q))
  }

  ghost predicate Named(l: seq<Entry>) { forall i | 0 <= i < |l| :: l[i].path != [] && AllPlain(l[i].path) }

  ghost predicate FolderAt(l: seq<Entry>, q: Path) {
    exists j :: 0 <= j < |l| && l[j].path == q && l[j].node.Folder?
  }

  ghost predicate Packable(l: seq<Entry>) { forall i | 0 <= i < |l| :: l[i].node.File? || l[i].node.Folder? }

  function Inodes(l: seq<Entry>): set<nat> {
    if l == [] then {}
    else Inodes(l[..|l| - 1]) + if l[|l| - 1].node.File? then {l[|l| - 1].node.inode} else {}
  }

  /** The archive member of a file: a second name of the same inode is stored as a hard link without content. */
  function MemberOf(e: Entry, seen: set<nat>): Member
    requires e.node.File?
  {
    Member(Join(e.path), if e.node.inode in seen then HardLink else Regular(e.node.bytes))
  }

  function Packed(l: seq<Entry>): seq<Member> {
    if l == [] then []
    else
      var e := l[|l| - 1];
      Packed(l[..|l| - 1]) + if e.node.File? then [MemberOf(e, Inodes(l[..|l| - 1]))] else []
  }

  /** Succeeds exactly when the destination is free, the directory holds only files and folders and the written
      archive is small enough; the archive lists the files in order. */
  method PackMap(l: seq<Entry>, destinationExists: bool, sizeOf: seq<Member> -> nat, limit: nat)
    returns (r: Result<seq<Member>>)
    ensures r.Ok? <==> !destinationExists && Packable(l) && sizeOf(Packed(l)) <= limit
    ensures r.Ok? ==> r.value == Packed(l)
  {
    if destinationExists {
      return Err;
    }
    var archive: seq<Member>, inodes: set<nat> := [], {};
    for i := 0 to |l|
      invariant archive == Packed(l[..i]) && inodes == Inodes(l[..i])
      invariant forall j | 0 <= j < i :: l[j].node.File? || l[j].node.Folder?
    {
      var e := l[i];
      assert l[..i + 1][..i] == l[..i];
      if e.node.Link? || e.node.Device? {
        return Err;
      }
      if e.node.File? {
        archive := archive + [MemberOf(e, inodes)];
        inodes := inodes + {e.node.inode};
      }
    }
    assert l[..|l|] == l;
    if sizeOf(archive) > limit {
      return Err;
    }
    r := Ok(archive);
  }

  // ----- What a packed directory unpacks to -----

  /** The relative path to bytes map of a directory. */
  ghost function FilesIn(l: seq<Entry>): Files {
    if l == [] then map[]
    else
      var e := l[|l| - 1];
      var rest := FilesIn(l[..|l| - 1]);
      if e.node.File? then rest[e.path := e.node.bytes] else rest
  }

  ghost function FileCount(l: seq<Entry>): nat {
    if l == [] then 0 else FileCount(l[..|l| - 1]) + if l[|l| - 1].node.File? then 1 else 0
  }

  ghost function ByteCount(l: seq<Entry>): nat {
    if l == [] then 0
    else ByteCount(l[..|l| - 1]) + if l[|l| - 1].node.File? then |l[|l| - 1].node.bytes| else 0
  }

  ghost predicate NoHardLinks(l: seq<Entry>) {
    forall i, j | 0 <= i < j < |l| && l[i].node.File? && l[j].node.File? :: l[i].node.inode != l[j].node.inode
  }

  lemma {:induction false} InodesAre(l: seq<Entry>, inode: nat)
    ensures inode in Inodes(l) <==> exists i :: 0 <= i < |l| && l[i].node.File? && l[i].node.inode == inode
  {
    if l != [] {
      var n := |l| - 1;
      InodesAre(l[..n], inode);
      assert forall i | 0 <= i < n :: l[..n][i] == l[i];
      if inode in Inodes(l[..n]) {
        var i :| 0 <= i < n && l[..n][i].node.File? && l[..n][i].node.inode == inode;
        assert l[i].node.inode == inode;
      }
    }
  }

  /** Which file of the listing a member comes from. */
  lemma {:induction false} PackedFrom(l: seq<Entry>, k: nat) returns (i: nat)
    requires k < |Packed(l)|
    ensures i < |l| && l[i].node.File? && Packed(l)[k] == MemberOf(l[i], Inodes(l[..i]))
    ensures |Packed(l[..i])| == k
  {
    var n := |l| - 1;
    if k < |Packed(l[..n])| {
      i := PackedFrom(l[..n], k);
      assert l[..n][..i] == l[..i];
    } else {
      i := n;
    }
  }

  lemma PackedMember(e: Entry, seen: set<nat>)
    requires e.node.File? && e.path != [] && AllPlain(e.path)
    ensures var m := MemberOf(e, seen);
      Where(m) == e.path && (Acceptable(m) <==> e.node.inode !in seen)
  {
    PlainParts(e.path);
  }

  /** No file of a directory tree is in the way of another. */
  lemma FilesApart(l: seq<Entry>, i: nat, j: nat)
    requires IsListing(l) && i < |l| && j < |l| && i != j && l[i].node.File? && l[j].node.File?
    ensures !(l[i].path <= l[j].path)
  {
    if l[i].path < l[j].path {
      ParentListed(l, j, l[i].path);
      NoFolderAtFile(l, i);
    }
  }

  lemma ParentListed(l: seq<Entry>, i: nat, q: Path)
    requires IsListing(l) && i < |l| && q < l[i].path && q != []
    ensures FolderAt(l, q)
  {
  }

  lemma NoFolderAtFile(l: seq<Entry>, i: nat)
    requires IsListing(l) && i < |l| && l[i].node.File?
    ensures !FolderAt(l, l[i].path)
  {
    forall j | 0 <= j < |l| && l[j].node.Folder? ensures l[j].path != l[i].path {
      assert i < j || j < i;
    }
  }

  lemma PackedConflictFree(l: seq<Entry>)
    requires IsListing(l)
    ensures ConflictFree(Packed(l))
  {
    hide Packed, Parts;
    var a := Packed(l);
    forall x, y | 0 <= x < y < |a| ensures !Clash(a[x], a[y]) {
      var i := PackedFrom(l, x);
      var j := PackedFrom(l, y);
      PackedMember(l[i], Inodes(l[..i]));
      PackedMember(l[j], Inodes(l[..j]));
      FilesApart(l, i, j);
      FilesApart(l, j, i);
    }
  }

  /** Without hard links every file becomes a regular member with its own bytes. */
  lemma {:induction false} PackedCounts(l: seq<Entry>)
    requires Named(l) && NoHardLinks(l)
    ensures Supported(Packed(l)) && |Packed(l)| == FileCount(l) && Total(Packed(l)) == ByteCount(l)
    ensures TreeOf(Packed(l)).files == FilesIn(l)
  {
    if l == [] {
      StartEmpty();
    } else {
      hide Packed, TreeOf, Total, Supported, NoHardLinks, Named;
      ListingFront(l);
      PackedCounts(l[..|l| - 1]);
      PackedLast(l);
    }
  }

  lemma PackedLast(l: seq<Entry>)
    requires l != [] && Named(l) && NoHardLinks(l) && Supported(Packed(l[..|l| - 1]))
    ensures var front, e := l[..|l| - 1], l[|l| - 1];
      if e.node.File? then
        && Supported(Packed(l)) && |Packed(l)| == |Packed(front)| + 1
        && Total(Packed(l)) == Total(Packed(front)) + |e.node.bytes|
        && TreeOf(Packed(l)).files == TreeOf(Packed(front)).files[e.path := e.node.bytes]
      else Packed(l) == Packed(front)
  {
    hide TreeOf, Total, Supported, MemberOf, Inodes, Where, NoHardLinks, Named;
    var front, e := l[..|l| - 1], l[|l| - 1];
    ListingFront(l);
    if e.node.File? {
      FreshInode(l);
      PackedMember(e, Inodes(front));
      FileMember(e, Inodes(front));
      LastPacked(Packed(front), MemberOf(e, Inodes(front)));
    }
  }

  lemma ListingFront(l: seq<Entry>)
    requires l != [] && Named(l) && NoHardLinks(l)
    ensures Named(l[..|l| - 1]) && NoHardLinks(l[..|l| - 1])
    ensures l[|l| - 1].path != [] && AllPlain(l[|l| - 1].path)
  {
  }

  lemma FreshInode(l: seq<Entry>)
    requires l != [] && NoHardLinks(l) && l[|l| - 1].node.File?
    ensures l[|l| - 1].node.inode !in Inodes(l[..|l| - 1])
  {
    InodesAre(l[..|l| - 1], l[|l| - 1].node.inode);
  }

  lemma FileMember(e: Entry, seen: set<nat>)
    requires e.node.File? && e.node.inode !in seen && Kept(MemberOf(e, seen))
    ensures IsFile(MemberOf(e, seen)) && MemberOf(e, seen).content.bytes == e.node.bytes
  {
  }

  lemma LastPacked(rest: seq<Member>, m: Member)
    requires Supported(rest) && Acceptable(m) && IsFile(m)
    ensures Supported(rest + [m]) && Total(rest + [m]) == Total(rest) + |m.content.bytes|
    ensures TreeOf(rest + [m]).files == TreeOf(rest).files[Where(m) := m.content.bytes]
  {
    hide Parts;
    assert (rest + [m])[..|rest|] == rest;
  }

  /** A second name of an inode makes the archive unacceptable. */
  lemma HardLinkUnsupported(l: seq<Entry>, i: nat, j: nat)
    requires IsListing(l) && i < j < |l| && l[i].node.File? && l[j].node.File? && l[i].node.inode == l[j].node.inode
    ensures !Supported(Packed(l))
  {
    var m := MemberOf(l[j], Inodes(l[..j]));
    PackedMember(l[j], Inodes(l[..j]));
    assert l[..j][i] == l[i];
    InodesAre(l[..j], l[j].node.inode);
    var k := PackedAt(l, j);
    assert !Acceptable(Packed(l)[k]);
  }

  lemma {:induction false} PackedAt(l: seq<Entry>, i: nat) returns (k: nat)
    requires i < |l| && l[i].node.File?
    ensures k < |Packed(l)| && Packed(l)[k] == MemberOf(l[i], Inodes(l[..i]))
  {
    var n := |l| - 1;
    if i == n {
      k := |Packed(l)| - 1;
    } else {
      k := PackedAt(l[..n], i);
      assert l[..n][..i] == l[..i];
    }
  }

  // ----- Publishing a bundle -----

  ghost predicate HasRequired(files: Files) { forall name | name in REQUIRED_MAP_FILES :: [name] in files }

  /** What the publication check accepts. */
  ghost predicate Publishable(a: seq<Member>, fileSize: nat, limit: nat) {
    && fileSize <= limit && |a| <= MAX_ARCHIVE_MEMBERS && Supported(a) && Total(a) <= limit
    && HasRequired(TreeOf(a).files)
  }

  /** The check of a prepared bundle: it validates the members and looks for the required names; that is the same as
      asking for the required files of the tree it would be extracted to. */
  method ValidateBundle(a: seq<Member>, fileSize: nat, limit: nat) returns (ok: bool)
    ensures ok <==> Publishable(a, fileSize, limit)
  {
    hide TreeOf, NamesOf, Total;
    var members := ArchiveMembers(a, fileSize, limit);
    if members.Err? {
      return false;
    }
    forall name | name in REQUIRED_MAP_FILES
      ensures name in members.value <==> [name] in TreeOf(a).files
    {
      RequiredAgree(a, name);
    }
    var missing := REQUIRED_MAP_FILES - members.value;
    ok := missing == {};
    if ok {
      forall name | name in REQUIRED_MAP_FILES ensures name in members.value { assert name !in missing; }
    } else {
      ghost var name :| name in missing;
    }
  }

  // ----- Building a bundle and importing it -----

  /** What an import accepts; the database test of the staged directory is the parameter `intact`. */
  ghost predicate Importable(a: seq<Member>, fileSize: nat, limit: nat, intact: Files -> bool) {
    Publishable(a, fileSize, limit) && ConflictFree(a) && intact(TreeOf(a).files)
  }

  /** The part of an import that reads the archive: validation, the required names, extraction, and the check of
      the staged directory. */
  method ImportBundle(a: seq<Member>, fileSize: nat, limit: nat, intact: Files -> bool) returns (r: Result<Tree>)
    ensures r.Ok? <==> Importable(a, fileSize, limit, intact)
    ensures r.Ok? ==> r.value == TreeOf(a)
  {
    hide TreeOf, Total, ConflictFree, HasRequired;
    var valid := ValidateBundle(a, fileSize, limit);
    if !valid {
      return Err;
    }
    var staged := ExtractArchive(a, limit);
    if staged.Err? || !intact(staged.value.files) {
      return Err;
    }
    r := staged;
  }

  /** Importing what was packed from a valid map directory gives back exactly its files, and it succeeds exactly
      when the directory has at most 10,000 files, they hold at most the limit together and no two of them are
      names of one inode. */
  lemma BuildThenImport(l: seq<Entry>, fileSize: nat, limit: nat, intact: Files -> bool)
    requires IsListing(l) && Packable(l) && fileSize <= limit
    requires HasRequired(FilesIn(l)) && intact(FilesIn(l))
    ensures var imported := Importable(Packed(l), fileSize, limit, intact);
      && (imported <==> NoHardLinks(l) && FileCount(l) <= MAX_ARCHIVE_MEMBERS && ByteCount(l) <= limit)
      && (imported ==> TreeOf(Packed(l)).files == FilesIn(l))
  {
    hide TreeOf, Packed, FilesIn, Total, FileCount, ByteCount;
    PackedConflictFree(l);
    if NoHardLinks(l) {
      PackedCounts(l);
    } else {
      var i, j :| 0 <= i < j < |l| && l[i].node.File? && l[j].node.File? && l[i].node.inode == l[j].node.inode;
      HardLinkUnsupported(l, i, j);
    }
  }

  // ----- Published but not importable -----

  function FileMembers(a: seq<Member>): nat {
    if a == [] then 0 else FileMembers(a[..|a| - 1]) + if IsFile(a[|a| - 1]) then 1 else 0
  }

  ghost predicate DistinctFiles(a: seq<Member>) {
    forall i, j | 0 <= i < j < |a| && IsFile(a[i]) && IsFile(a[j]) :: Where(a[i]) != Where(a[j])
  }

  /** No file gets lost exactly when no two file members have the same path. */
  lemma {:induction false} FilesCounted(a: seq<Member>)
    ensures |TreeOf(a).files| <= FileMembers(a)
    ensures |TreeOf(a).files| == FileMembers(a) <==> DistinctFiles(a)
  {
    if a != [] {
      hide Where, TreeOf;
      FilesCounted(a[..|a| - 1]);
      AddedCount(a);
      DistinctLast(a);
    }
  }

  lemma AddedCount(a: seq<Member>)
    requires a != []
    ensures var front, m := a[..|a| - 1], a[|a| - 1];
      |TreeOf(a).files| == |TreeOf(front).files| + if IsFile(m) && !FileAt(front, Where(m)) then 1 else 0
  {
    hide Parts;
    var front, m := a[..|a| - 1], a[|a| - 1];
    if IsFile(m) { TreeIs(front, Where(m)); }
  }

  lemma DistinctLast(a: seq<Member>)
    requires a != []
    ensures var front, m := a[..|a| - 1], a[|a| - 1];
      DistinctFiles(a) <==> DistinctFiles(front) && !(IsFile(m) && FileAt(front, Where(m)))
  {
    hide Where;
    var front, m := a[..|a| - 1], a[|a| - 1];
    assert forall i | 0 <= i < |front| :: front[i] == a[i];
    if IsFile(m) && FileAt(front, Where(m)) {
      var i :| 0 <= i < |front| && WritesFile(front[i], Where(m));
      assert IsFile(a[i]) && Where(a[i]) == Where(a[|a| - 1]);
    } else if DistinctFiles(front) {
      forall i, j | 0 <= i < j < |a| && IsFile(a[i]) && IsFile(a[j]) ensures Where(a[i]) != Where(a[j]) {
        if j < |front| { assert IsFile(front[i]) && IsFile(front[j]); } else { assert !WritesFile(front[i], Where(m)); }
      }
    }
  }

  ghost predicate NoFileIsDirectory(t: Tree) { forall p | p in t.files :: p !in t.dirs }

  /** The archive describes a tree: every file member has its own file, and no path is a file and a directory. */
  ghost predicate SoundTree(a: seq<Member>) {
    |TreeOf(a).files| == FileMembers(a) && NoFileIsDirectory(TreeOf(a))
  }

  lemma ClashBreaksTree(a: seq<Member>, i: nat, j: nat)
    requires i < |a| && j < |a| && i != j && Acceptable(a[j])
    requires IsFile(a[i]) && Kept(a[j]) && Where(a[i]) <= Where(a[j])
    ensures !DistinctFiles(a) || !NoFileIsDirectory(TreeOf(a))
  {
    hide Parts, TreeOf;
    var p := Where(a[i]);
    TreeIs(a, p);
    assert WritesFile(a[i], p);
    if IsFile(a[j]) && Where(a[j]) == p {
      var lo, hi := if i < j then i else j, if i < j then j else i;
      assert IsFile(a[lo]) && IsFile(a[hi]) && Where(a[lo]) == Where(a[hi]);
    } else {
      assert NeedsDir(a[j], p);
    }
  }

  /** No two members clash exactly when the archive describes a tree. */
  lemma ConflictFreeIffSound(a: seq<Member>)
    requires Supported(a)
    ensures ConflictFree(a) <==> SoundTree(a)
  {
    hide Where, TreeOf, Acceptable;
    FilesCounted(a);
    if !ConflictFree(a) {
      var i, j :| 0 <= i < j < |a| && Clash(a[i], a[j]);
      if IsFile(a[i]) && Where(a[i]) <= Where(a[j]) { ClashBreaksTree(a, i, j); } else { ClashBreaksTree(a, j, i); }
    } else {
      ConflictFreeIsSound(a);
    }
  }

  lemma ConflictFreeIsSound(a: seq<Member>)
    requires ConflictFree(a)
    ensures DistinctFiles(a) && NoFileIsDirectory(TreeOf(a))
  {
    hide Parts, TreeOf;
    forall i, j | 0 <= i < j < |a| && IsFile(a[i]) && IsFile(a[j]) ensures Where(a[i]) != Where(a[j]) {
      assert !Clash(a[i], a[j]);
    }
    forall p | p in TreeOf(a).files ensures p !in TreeOf(a).dirs {
      RootIsNoFile(a);
      TreeIs(a, p);
      var i :| 0 <= i < |a| && WritesFile(a[i], p);
      forall j | 0 <= j < |a| ensures !NeedsDir(a[j], p) {
        if i < j { assert !Clash(a[i], a[j]); } else if j < i { assert !Clash(a[j], a[i]); }
      }
    }
  }

  /** A published bundle cannot be imported exactly when the tree it describes loses a file, has a path that is a file
      and a directory, or fails the database test. */
  lemma PublishedNotImportableIff(a: seq<Member>, fileSize: nat, limit: nat, intact: Files -> bool)
    requires Publishable(a, fileSize, limit)
    ensures !Importable(a, fileSize, limit, intact) <==>
      || |TreeOf(a).files| < FileMembers(a)
      || (exists p :: p in TreeOf(a).files && p in TreeOf(a).dirs)
      || !intact(TreeOf(a).files)
  {
    hide TreeOf, FileMembers, ConflictFree, Publishable, SoundTree;
    assert Supported(a) by { PublishableIsSupported(a, fileSize, limit); }
    ConflictFreeIffSound(a);
    SoundTreeIff(a);
  }

  lemma PublishableIsSupported(a: seq<Member>, fileSize: nat, limit: nat)
    requires Publishable(a, fileSize, limit)
    ensures Supported(a)
  {
  }

  lemma SoundTreeIff(a: seq<Member>)
    ensures SoundTree(a) <==>
      |TreeOf(a).files| >= FileMembers(a) && !exists p :: p in TreeOf(a).files && p in TreeOf(a).dirs
  {
    FilesCounted(a);
    hide TreeOf, FileMembers, DistinctFiles;
  }

  /** Repeating any file of a published bundle, as far as the limits allow, gives one that is still published and that
      no import accepts. */
  lemma RepeatedFileNeverImported(a: seq<Member>, i: nat, fileSize: nat, limit: nat, intact: Files -> bool)
    requires Publishable(a, fileSize, limit) && i < |a| && IsFile(a[i])
    requires |a| < MAX_ARCHIVE_MEMBERS && Total(a) + Size(a[i]) <= limit
    ensures Publishable(a + [a[i]], fileSize, limit) && !Importable(a + [a[i]], fileSize, limit, intact)
  {
    hide Parts, Total, TreeOf, Supported, HasRequired, Size;
    LongerHasRequired(a, a[i]);
    RepetitionClashes(a, i);
    AcceptableAgain(a, i);
  }

  lemma RepetitionClashes(a: seq<Member>, i: nat)
    requires i < |a| && IsFile(a[i])
    ensures !ConflictFree(a + [a[i]])
  {
    hide Parts;
    var b := a + [a[i]];
    assert b[i] == a[i] && b[|a|] == a[i] && Clash(b[i], b[|a|]);
  }

  lemma AcceptableAgain(a: seq<Member>, i: nat)
    requires Supported(a) && i < |a|
    ensures Supported(a + [a[i]]) && Total(a + [a[i]]) == Total(a) + Size(a[i])
  {
    hide Acceptable, Size;
    assert (a + [a[i]])[..|a|] == a;
  }

  lemma LongerHasRequired(a: seq<Member>, m: Member)
    requires HasRequired(TreeOf(a).files)
    ensures HasRequired(TreeOf(a + [m]).files)
  {
    hide TreeOf, Added;
    TreeNext(a, m);
    forall name | name in REQUIRED_MAP_FILES ensures [name] in TreeOf(a + [m]).files {
      AddedFiles(TreeOf(a), m, [name]);
    }
  }

  lemma TreeNext(a: seq<Member>, m: Member)
    ensures TreeOf(a + [m]) == Added(TreeOf(a), m)
  {
    assert (a + [m])[..|a|] == a;
  }

  /** The four required files, empty. */
  ghost function RequiredBundle(): seq<Member> {
    [Member("rtabmap.db", Regular([])), Member("occupancy.pgm", Regular([])), Member("occupancy.yaml", Regular([])),
     Member("meta.yaml", Regular([]))]
  }

  lemma PlainNameIsFile(name: string, bytes: Bytes)
    requires Plain(name)
    ensures var m := Member(name, Regular(bytes));
      Acceptable(m) && IsFile(m) && WritesFile(m, [name]) && Size(m) == |bytes|
  {
    assert Join([name]) == name;
    PlainParts([name]);
  }

  lemma RequiredBundleIsPublishable(fileSize: nat, limit: nat)
    requires fileSize <= limit
    ensures Publishable(RequiredBundle(), fileSize, limit)
  {
    hide Parts, TreeOf, IsFile, Acceptable, WritesFile, Size;
    var a := RequiredBundle();
    forall i | 0 <= i < 4 ensures Acceptable(a[i]) && Size(a[i]) == 0 && WritesFile(a[i], [a[i].name]) {
      PlainNameIsFile(a[i].name, []);
    }
    EmptyTotal(a, 4);
    assert a[..4] == a;
    forall name | name in REQUIRED_MAP_FILES ensures [name] in TreeOf(a).files {
      var i := if name == a[0].name then 0 else if name == a[1].name then 1 else if name == a[2].name then 2 else 3;
      TreeIs(a, [name]);
      assert WritesFile(a[i], [name]);
    }
  }

  lemma {:induction false} EmptyTotal(a: seq<Member>, n: nat)
    requires n <= |a| && forall i | 0 <= i < |a| :: Size(a[i]) == 0
    ensures Total(a[..n]) == 0
  {
    hide Size;
    if n > 0 {
      EmptyTotal(a, n - 1);
      assert a[..n][..n - 1] == a[..n - 1] && a[..n][n - 1] == a[n - 1];
    }
  }

  /** So for every file size within the limit there is a bundle that is published and that no import accepts: the
      required files, one of them twice. */
  lemma DuplicatePublishedNeverImported(fileSize: nat, limit: nat, intact: Files -> bool) returns (a: seq<Member>)
    requires fileSize <= limit
    ensures Publishable(a, fileSize, limit) && !Importable(a, fileSize, limit, intact)
  {
    hide Publishable, Importable, Total;
    a := RequiredBundle();
    RequiredBundleIsPublishable(fileSize, limit);
    PlainNameIsFile("rtabmap.db", []);
    assert Total(a) + Size(a[0]) <= limit by { FitsLimit(a, fileSize, limit); }
    RepeatedFileNeverImported(a, 0, fileSize, limit, intact);
    a := a + [a[0]];
  }

  lemma FitsLimit(a: seq<Member>, fileSize: nat, limit: nat)
    requires Publishable(a, fileSize, limit)
    ensures Total(a) <= limit
  {
  }
}
