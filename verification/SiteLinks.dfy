/** The link rewriting of `website/sync_docs.py`: where a repository link leads once its page is mirrored into
    the documentation site, and what the site's link validator says about the result. */
module SiteLinks {
  import opened PosixPath
  import opened Wrappers

  // ----- Pieces of a link -----

  /** What `partition("#")` puts before the first '#'. */
  function PathPart(s: string): string {
    if s == "" || s[0] == '#' then "" else [s[0]] + PathPart(s[1..])
  }

  /** The '#' and the anchor after it, or nothing. */
  function AnchorPart(s: string): string {
    if s == "" || s[0] == '#' then s else AnchorPart(s[1..])
  }

  predicate IsAnchor(s: string) { s == "" || s[0] == '#' }

  lemma {:induction false} PartitionOf(path: string, anchor: string)
    requires '#' !in path && IsAnchor(anchor)
    ensures PathPart(path + anchor) == path && AnchorPart(path + anchor) == anchor
  {
    if path == "" {
      assert path + anchor == anchor;
    } else {
      PartitionOf(path[1..], anchor);
      assert (path + anchor)[1..] == path[1..] + anchor;
    }
  }

  lemma {:induction false} CutBeforeAnchor(path: string, rest: string)
    requires '#' in path
    ensures PathPart(path + rest) == PathPart(path)
  {
    if path[0] != '#' {
      CutBeforeAnchor(path[1..], rest);
      assert (path + rest)[1..] == path[1..] + rest;
    }
  }

  function StripSlashes(s: string): string {
    if s != "" && s[0] == '/' then StripSlashes(s[1..]) else s
  }

  /** Targets that are never repository paths. */
  predicate Skipped(target: string) {
    "#" <= target || "http://" <= target || "https://" <= target || "mailto:" <= target || "data:" <= target
  }

  lemma NotSkipped(target: string)
    requires target != "" && target[0] !in {'#', 'h', 'm', 'd'}
    ensures !Skipped(target)
  {
    assert "#"[0] == '#' && "http://"[0] == 'h' && "https://"[0] == 'h' && "mailto:"[0] == 'm' && "data:"[0] == 'd';
  }

  // ----- Path strings -----

  function JoinPath(base: string, relative: string): string {
    if "/" <= relative then relative
    else if base == "" || base[|base| - 1] == '/' then base + relative
    else base + "/" + relative
  }

  function LeadingSlashes(path: string): string {
    if "//" <= path && !("///" <= path) then "//" else if "/" <= path then "/" else ""
  }

  function OrDot(path: string): string { if path == "" then "." else path }

  function NormPath(path: string): string {
    OrDot(LeadingSlashes(path) + Join(PushAll([], Split(path), LeadingSlashes(path) != "")))
  }

  /** `relpath` between two paths below the site's root directory. */
  function RelPath(site: seq<Part>, target: string, dir: string): string {
    OrDot(Join(Relative(PushAll(site, Split(target), true), PushAll(site, Split(dir), true))))
  }

  /** Where a path string leads from the directory `at`. */
  function Follow(at: seq<Part>, path: string): seq<Part> {
    PushAll(if "/" <= path then [] else at, Split(path), true)
  }

  // ----- Rewriting -----

  /** What the rewriter reads from its surroundings: the mirrored files, the repository's entries, percent
      decoding and quoting, and the links to local editor positions. */
  datatype Repository = Repository(
    site: seq<Part>,
    mapping: map<string, string>,
    isDirectory: string -> bool,
    isFile: string -> bool,
    unquote: string -> string,
    quote: string -> string,
    revision: string,
    editorLink: string -> Option<string>)

  datatype Rewritten = Untouched | Link(link: string) | Broken

  function GithubUrl(r: Repository, path: string, kind: string): string {
    "https://github.com/Farewell-CK/RoboGuide/" + (kind + "/" + r.revision + "/" + r.quote(path))
  }

  /** The mirrored page of a repository path: the path itself, or its index page. */
  function MappedPage(r: Repository, path: string): Option<string> {
    if path in r.mapping then Some(r.mapping[path])
    else if path + "/index.md" in r.mapping then Some(r.mapping[path + "/index.md"])
    else None
  }

  function ResolveSiteRelative(r: Repository, path: string, siteDir: string): Option<string> {
    match MappedPage(r, path)
    case Some(page) => Some(RelPath(r.site, page, siteDir))
    case None => None
  }

  function ResolveCandidate(r: Repository, path: string, siteDir: string): Option<string> {
    match ResolveSiteRelative(r, path, siteDir)
    case Some(relative) => Some(relative)
    case None =>
      if r.isDirectory(path) then Some(GithubUrl(r, path, "tree"))
      else if r.isFile(path) then Some(GithubUrl(r, path, "blob"))
      else None
  }

  /** The directory a link starts from and its path relative to it. */
  function Origin(target: string, repoDir: string): (string, string) {
    var path := PathPart(target);
    if "/" <= path then ("", StripSlashes(path)) else (repoDir, path)
  }

  function RepoTarget(target: string, repoDir: string): string {
    var (base, relative) := Origin(target, repoDir);
    NormPath(JoinPath(base, relative))
  }

  function DecodedTarget(r: Repository, target: string, repoDir: string): string {
    var (base, relative) := Origin(target, repoDir);
    NormPath(JoinPath(base, r.unquote(relative)))
  }

  predicate LeavesRepository(repoTarget: string) {
    repoTarget == "" || repoTarget == "." || ".." <= repoTarget
  }

  function RewriteTarget(r: Repository, target: string, repoDir: string, siteDir: string): Rewritten {
    if target == "" || Skipped(target) then Untouched
    else if r.editorLink(target).Some? then Link(r.editorLink(target).value)
    else if PathPart(target) == "" || LeavesRepository(RepoTarget(target, repoDir)) then Untouched
    else
      match ResolveCandidate(r, RepoTarget(target, repoDir), siteDir)
      case Some(path) => Link(path + AnchorPart(target))
      case None =>
        match ResolveCandidate(r, DecodedTarget(r, target, repoDir), siteDir)
        case Some(path) => Link(path + AnchorPart(target))
        case None => Broken
  }

  /** The accumulator of links that resolve nowhere, per site file. */
  class BrokenLinks {
    var byFile: map<string, set<string>>

    constructor ()
      ensures byFile == map[]
    {
      byFile := map[];
    }

    /** Rewrites one link: the text to put in its place, or nothing when it stays as it is. A link that leads
        nowhere is kept and recorded, and no other link is. */
    method Rewrite(r: Repository, target: string, repoDir: string, siteDir: string, siteFile: string)
      returns (link: Option<string>)
      modifies this
      ensures match RewriteTarget(r, target, repoDir, siteDir)
        case Untouched => link == None && byFile == old(byFile)
        case Link(l) => link == Some(l) && byFile == old(byFile)
        case Broken => link == Some(target) && byFile == old(byFile)[siteFile := old(Allowed(siteFile)) + {target}]
    {
      hide ResolveCandidate, RepoTarget, DecodedTarget, AnchorPart, PathPart, Skipped, LeavesRepository;
      if target == "" || Skipped(target) {
        return None;
      }
      if r.editorLink(target).Some? {
        return r.editorLink(target);
      }
      if PathPart(target) == "" || LeavesRepository(RepoTarget(target, repoDir)) {
        return None;
      }
      var candidates := [RepoTarget(target, repoDir), DecodedTarget(r, target, repoDir)];
      for i := 0 to 2
        invariant i > 0 ==> ResolveCandidate(r, candidates[0], siteDir).None?
        invariant i > 1 ==> ResolveCandidate(r, candidates[1], siteDir).None?
      {
        var path := ResolveCandidate(r, candidates[i], siteDir);
        if path.Some? {
          return Some(path.value + AnchorPart(target));
        }
      }
      byFile := byFile[siteFile := Allowed(siteFile) + {target}];
      return Some(target);
    }

    function Allowed(siteFile: string): set<string>
      reads this
    {
      if siteFile in byFile then byFile[siteFile] else {}
    }
  }

  // ----- The link validator -----

  type Exists = seq<Part> -> bool

  /** The validator reports no error for a link on the page in directory `siteDir`. */
  predicate Accepted(r: Repository, link: string, siteDir: string, allowed: set<string>, exist: Exists) {
    || link in allowed
    || Skipped(link)
    || PathPart(link) == ""
    || exist(Follow(PushAll(r.site, Split(siteDir), true), PathPart(link)))
  }

  /** The links of a page for which the validator reports an error, in order. */
  function Rejected(
    r: Repository, links: seq<string>, siteDir: string, allowed: set<string>, exist: Exists): seq<string>
  {
    if links == [] then []
    else
      Rejected(r, links[..|links| - 1], siteDir, allowed, exist)
      + if Accepted(r, links[|links| - 1], siteDir, allowed, exist) then [] else [links[|links| - 1]]
  }

  method ValidatePage(r: Repository, links: seq<string>, siteDir: string, allowed: set<string>, exist: Exists)
    returns (errors: seq<string>)
    ensures errors == Rejected(r, links, siteDir, allowed, exist)
    ensures errors == [] <==> forall l | l in links :: Accepted(r, l, siteDir, allowed, exist)
  {
    errors := [];
    hide PushAll, Split, Skipped, PathPart, Follow;
    for i := 0 to |links|
      invariant errors == Rejected(r, links[..i], siteDir, allowed, exist)
      invariant errors == [] <==> forall j | 0 <= j < i :: Accepted(r, links[j], siteDir, allowed, exist)
    {
      assert links[..i + 1][..i] == links[..i];
      var link := links[i];
      if link in allowed || Skipped(link) || PathPart(link) == "" {
        assert Accepted(r, link, siteDir, allowed, exist);
        continue;
      }
      if exist(Follow(PushAll(r.site, Split(siteDir), true), PathPart(link))) {
        assert Accepted(r, link, siteDir, allowed, exist);
        continue;
      }
      assert !Accepted(r, link, siteDir, allowed, exist);
      errors := errors + [link];
    }
    assert links[..|links|] == links;
  }

  /** What `build_file_mapping` and `SITE_DOCS_DIR` guarantee: normal relative site paths below a normal root. */
  ghost predicate NormalPath(path: string) {
    path == "" || AllPlain(Split(path))
  }

  ghost predicate WellFormed(r: Repository) {
    AllPlain(r.site) && forall p | p in r.mapping :: NormalPath(r.mapping[p])
  }

  /** The site location of a normal site path. */
  ghost function SiteLocation(r: Repository, path: string): seq<Part> { PushAll(r.site, Split(path), true) }

  lemma LocationPlain(r: Repository, path: string)
    requires AllPlain(r.site) && NormalPath(path)
    ensures AllPlain(SiteLocation(r, path))
  {
    if path == "" {
      PushOne(r.site, "", true);
    } else {
      PushPlain(r.site, Split(path), true);
    }
  }

  // ----- A rewritten link leads to the mirrored page -----

  /** The components of a relative path, read back from its string. */
  lemma RelativeString(target: seq<Part>, dir: seq<Part>)
    requires AllPlain(target) && AllPlain(dir)
    ensures Relative(target, dir) != [] ==> Split(OrDot(Join(Relative(target, dir)))) == Relative(target, dir)
    ensures Relative(target, dir) == [] ==> Split(OrDot(Join(Relative(target, dir)))) == ["."]
    ensures !("/" <= OrDot(Join(Relative(target, dir))))
  {
    var parts := Relative(target, dir);
    if parts == [] {
      SplitPart(".");
    } else {
      forall i | 0 <= i < |parts| ensures NoSlash(parts[i]) && parts[i] != "" {
        RelativePart(target, dir, i);
      }
      SplitJoin(parts);
      assert Join(parts) != "" && Join(parts)[0] == parts[0][0];
    }
  }

  lemma RelativePart(target: seq<Part>, dir: seq<Part>, i: nat)
    requires AllPlain(target) && AllPlain(dir) && i < |Relative(target, dir)|
    ensures var part := Relative(target, dir)[i]; part == ".." || Plain(part)
  {
  }

  lemma RelPathLeadsToTarget(target: seq<Part>, dir: seq<Part>)
    requires AllPlain(target) && AllPlain(dir)
    ensures Follow(dir, OrDot(Join(Relative(target, dir)))) == target
  {
    RelativeLeadsToTarget(target, dir, true);
    RelativeString(target, dir);
    if Relative(target, dir) == [] {
      assert PushAll(dir, ["."], true) == dir;
    }
  }

  /** Cutting a path string at its first '#' keeps the components before the one that holds it and shortens
      that one. */
  lemma {:induction false} SplitCut(s: string) returns (m: nat)
    requires '#' in s
    ensures m < |Split(s)| && '#' in Split(s)[m]
    ensures Split(PathPart(s)) == Split(s)[..m] + [PathPart(Split(s)[m])]
  {
    if s[0] == '#' {
      m := 0;
      assert Split(s)[0][0] == '#';
    } else {
      hide Split, Prepended;
      var k := SplitCut(s[1..]);
      var rest, cut := Split(s[1..]), PathPart(s[1..]);
      SplitStep(s[0], cut);
      SplitStep(s[0], s[1..]);
      assert s == [s[0]] + s[1..] && PathPart(s) == [s[0]] + cut;
      if s[0] == '/' {
        m := k + 1;
        CutSlash(rest, k);
      } else {
        m := k;
        CutPrepended(s[0], rest, k);
      }
    }
  }

  lemma CutSlash(rest: seq<Part>, k: nat)
    requires k < |rest|
    ensures k + 1 < |Prepended('/', rest)| && Prepended('/', rest)[k + 1] == rest[k]
    ensures Prepended('/', rest[..k] + [PathPart(rest[k])])
         == Prepended('/', rest)[..k + 1] + [PathPart(Prepended('/', rest)[k + 1])]
  {
    hide PathPart;
  }

  lemma CutPrepended(c: char, rest: seq<Part>, k: nat)
    requires c != '/' && c != '#' && k < |rest| && '#' in rest[k]
    ensures k < |Prepended(c, rest)| && '#' in Prepended(c, rest)[k]
    ensures Prepended(c, rest[..k] + [PathPart(rest[k])])
         == Prepended(c, rest)[..k] + [PathPart(Prepended(c, rest)[k])]
  {
    if k == 0 {
      assert ([c] + rest[0])[1..] == rest[0];
      assert ([c] + rest[0])[|[c]|..] == rest[0];
      var i :| 0 <= i < |rest[0]| && rest[0][i] == '#';
      assert ([c] + rest[0])[i + 1] == '#';
    }
  }

  lemma {:induction false} PathPartShorter(s: string)
    requires '#' in s
    ensures |PathPart(s)| < |s|
  {
    if s[0] != '#' { PathPartShorter(s[1..]); }
  }

  /** A relative path cut at a '#' in it leads somewhere else. */
  lemma CutLeadsElsewhere(target: seq<Part>, dir: seq<Part>)
    requires AllPlain(target) && AllPlain(dir) && '#' in OrDot(Join(Relative(target, dir)))
    ensures Follow(dir, PathPart(OrDot(Join(Relative(target, dir))))) != target
  {
    hide PushAll, Split, Join, PathPart, CommonLength;
    var k := CommonLength(target, dir);
    var parts := Relative(target, dir);
    RelativeString(target, dir);
    if parts == [] {
      CutOfDot();
    } else {
      var path := OrDot(Join(parts));
      var m := SplitCut(path);
      var cut := PathPart(parts[m]);
      PathPartShorter(parts[m]);
      RelativePart(target, dir, m);
      var ups := |dir| - k;
      assert m >= ups && parts[..m] == Ups(ups) + target[k..][..m - ups];
      PushAllConcat(dir, parts[..m], [cut], true);
      PushAllConcat(dir, Ups(ups), target[k..][..m - ups], true);
      PushUps(dir, ups, true);
      PushPlain(dir[..k], target[k..][..m - ups], true);
      var at := PushAll(dir, parts[..m], true);
      assert at == dir[..k] + target[k..][..m - ups];
      assert |at| < |target| && parts[m] == target[|at|];
      PushOne(at, cut, true);
      CutNotRooted(path);
    }
  }

  lemma PushOne(stack: seq<Part>, part: Part, rooted: bool)
    ensures PushAll(stack, [part], rooted) == Push(stack, part, rooted)
  {
  }

  lemma CutOfDot()
    ensures '#' !in "." && OrDot(Join([])) == "."
  {
  }

  lemma CutNotRooted(path: string)
    requires !("/" <= path)
    ensures !("/" <= PathPart(path))
  {
  }

  /** The link written for a mirrored page leads to that page exactly when the relative path holds no '#'. */
  lemma RewrittenLinkLeadsToPage(r: Repository, page: string, siteDir: string, anchor: string)
    requires AllPlain(r.site) && NormalPath(page) && NormalPath(siteDir) && IsAnchor(anchor)
    ensures var path := RelPath(r.site, page, siteDir);
      Follow(SiteLocation(r, siteDir), PathPart(path + anchor)) == SiteLocation(r, page) <==> '#' !in path
    ensures var path := RelPath(r.site, page, siteDir);
      '#' !in path ==> PathPart(path + anchor) == path && AnchorPart(path + anchor) == anchor
  {
    hide PushAll, Split, Join, PathPart;
    var path := RelPath(r.site, page, siteDir);
    LocationPlain(r, page);
    LocationPlain(r, siteDir);
    if '#' in path {
      CutBeforeAnchor(path, anchor);
      CutLeadsElsewhere(SiteLocation(r, page), SiteLocation(r, siteDir));
    } else {
      PartitionOf(path, anchor);
      RelPathLeadsToTarget(SiteLocation(r, page), SiteLocation(r, siteDir));
    }
  }

  // ----- Normalisation keeps what the link means -----

  lemma NotRooted(path: string)
    requires path == "" || path[0] != '/'
    ensures !("/" <= path) && LeadingSlashes(path) == ""
  {
    assert "/"[0] == '/' && "//"[0] == '/';
  }

  lemma SplitEnds(s: string)
    requires s != ""
    ensures s[0] == '/' ==> Split(s)[0] == ""
    ensures s[|s| - 1] == '/' ==> Split(s)[|Split(s)| - 1] == ""
  {
    if s[|s| - 1] == '/' {
      SplitAt(s[..|s| - 1], "");
      assert s[..|s| - 1] + "/" + "" == s;
    }
  }

  lemma NormalPathEnds(base: string)
    requires NormalPath(base) && base != ""
    ensures base[|base| - 1] != '/' && base[0] != '/'
  {
    SplitEnds(base);
    assert Plain(Split(base)[0]) && Plain(Split(base)[|Split(base)| - 1]);
  }

  lemma SplitJoined(base: string, relative: string)
    requires NormalPath(base) && !("/" <= relative)
    ensures Split(JoinPath(base, relative)) == (if base == "" then [] else Split(base)) + Split(relative)
    ensures !("/" <= JoinPath(base, relative)) && LeadingSlashes(JoinPath(base, relative)) == ""
  {
    hide Split;
    if base == "" {
      assert base + relative == relative;
    } else {
      NormalPathEnds(base);
      SplitAt(base, relative);
    }
    NotRooted(JoinPath(base, relative));
  }

  /** Printing a normal form and splitting it again keeps what it means. */
  lemma NormalString(at: seq<Part>, parts: seq<Part>)
    requires Normal(parts)
    ensures Follow(at, OrDot(Join(parts))) == PushAll(at, parts, true)
  {
    if parts == [] {
      SplitPart(".");
      assert PushAll(at, ["."], true) == at;
    } else {
      var k: nat :| k <= |parts| && parts[..k] == Ups(k) && AllPlain(parts[k..]);
      forall i | 0 <= i < |parts| ensures NoSlash(parts[i]) && parts[i] != "" {
        if i < k { assert parts[i] == parts[..k][i]; } else { assert parts[i] == parts[k..][i - k]; }
      }
      SplitJoin(parts);
      assert Join(parts)[0] == parts[0][0];
    }
  }

  lemma NormalisedJoin(root: seq<Part>, base: string, relative: string)
    requires AllPlain(root) && NormalPath(base) && !("/" <= relative)
    ensures Follow(root, NormPath(JoinPath(base, relative))) == PushAll(Follow(root, base), Split(relative), true)
  {
    hide PushAll, Split, Join;
    var dir := if base == "" then [] else Split(base);
    var parts := dir + Split(relative);
    SplitJoined(base, relative);
    assert Normal([]) by { assert [][..0] == Ups(0) && AllPlain([][0..]); }
    NormaliseNormal([], parts);
    NormalString(root, PushAll([], parts, false));
    assert "" + Join(PushAll([], parts, false)) == Join(PushAll([], parts, false));
    NormaliseKeepsMeaning(root, [], parts);
    PushNothing(root);
    PushAllConcat(root, dir, Split(relative), true);
    if base == "" {
      SplitPart("");
      PushOne(root, "", true);
    } else {
      NormalPathEnds(base);
      NotRooted(base);
    }
  }

  /** Leading slashes only add empty components. */
  lemma {:induction false} StrippedMeansSame(stack: seq<Part>, s: string)
    ensures !("/" <= StripSlashes(s))
    ensures PushAll(stack, Split(StripSlashes(s)), true) == PushAll(stack, Split(s), true)
  {
    if s != "" && s[0] == '/' {
      StrippedMeansSame(stack, s[1..]);
      assert Split(s)[1..] == Split(s[1..]);
      assert Push(stack, "", true) == stack;
    } else {
      NotRooted(s);
    }
  }

  /** The normalised repository path of a link names, from the repository's root, the same place as the link itself:
      a relative link from its page's directory, one with a leading slash from the root. */
  lemma RepoTargetKeepsMeaning(root: seq<Part>, target: string, repoDir: string)
    requires AllPlain(root) && NormalPath(repoDir)
    ensures Follow(root, RepoTarget(target, repoDir))
         == PushAll(if "/" <= PathPart(target) then root else Follow(root, repoDir), Split(PathPart(target)), true)
  {
    hide PushAll, Split, Join, PathPart, NormPath, JoinPath;
    var path := PathPart(target);
    if "/" <= path {
      StrippedMeansSame(root, path);
      NormalisedJoin(root, "", StripSlashes(path));
      FollowNothing(root);
    } else {
      NormalisedJoin(root, repoDir, path);
    }
  }

  lemma FollowNothing(root: seq<Part>)
    ensures Follow(root, "") == root
  {
    SplitPart("");
    PushOne(root, "", true);
  }

  lemma PushNothing(stack: seq<Part>)
    ensures PushAll(stack, [], true) == stack
  {
  }

  lemma {:induction false} RootedStaysPlain(stack: seq<Part>, parts: seq<Part>)
    requires AllPlain(stack) && forall i | 0 <= i < |parts| :: NoSlash(parts[i])
    ensures AllPlain(PushAll(stack, parts, true))
    decreases |parts|
  {
    if parts != [] { RootedStaysPlain(Push(stack, parts[0], true), parts[1..]); }
  }

  lemma PushEmpty(stack: seq<Part>, parts: seq<Part>)
    ensures PushAll(stack, [""] + parts, true) == PushAll(stack, parts, true)
  {
    assert ([""] + parts)[1..] == parts;
  }

  lemma SlashAndParts(parts: seq<Part>)
    requires AllPlain(parts)
    ensures PushAll([], Split("/" + Join(parts)), true) == parts
    ensures PushAll([], Split("//" + Join(parts)), true) == parts
  {
    hide Split;
    SplitStep('/', Join(parts));
    SplitStep('/', "/" + Join(parts));
    assert "/" + ("/" + Join(parts)) == "//" + Join(parts);
    PushEmpty([], Split(Join(parts)));
    PushEmpty([], [""] + Split(Join(parts)));
    if parts == [] {
      SplitPart("");
      PushOne([], "", true);
    } else {
      SplitJoin(parts);
      PushPlain([], parts, true);
      assert [] + parts == parts;
    }
  }

  /** Normalising an absolute path, as a decoded one can be, keeps it absolute and keeps the place it names.
      Exactly two slashes in front stay two; any other number becomes one. */
  lemma AbsoluteKeepsMeaning(at: seq<Part>, base: string, path: string)
    requires "/" <= path
    ensures var written := NormPath(JoinPath(base, path));
      && "/" <= written && Follow(at, written) == PushAll([], Split(path), true)
      && ("//" <= written <==> "//" <= path && !("///" <= path))
  {
    hide PushAll, Split, Join;
    var parts := PushAll([], Split(path), true);
    RootedStaysPlain([], Split(path));
    SlashAndParts(parts);
    assert LeadingSlashes(path) == "/" || LeadingSlashes(path) == "//";
    assert NormPath(path) == LeadingSlashes(path) + Join(parts);
    PlainNotRooted(parts);
    SecondSlash(Join(parts));
  }

  lemma PlainNotRooted(parts: seq<Part>)
    requires AllPlain(parts)
    ensures Join(parts) == "" || Join(parts)[0] != '/'
  {
    if parts != [] {
      assert Plain(parts[0]);
      assert Join(parts)[0] == parts[0][0];
    }
  }

  lemma SecondSlash(rest: string)
    requires rest == "" || rest[0] != '/'
    ensures !("//" <= "/" + rest) && "//" <= "//" + rest
  {
    if rest != "" { assert ("/" + rest)[1] == rest[0]; }
  }

  // ----- Every rewritten link -----

  lemma {:induction false} AnchorOf(s: string)
    ensures IsAnchor(AnchorPart(s)) && PathPart(s) + AnchorPart(s) == s && '#' !in PathPart(s)
  {
    if s != "" && s[0] != '#' { AnchorOf(s[1..]); }
  }

  /** The page a rewritten link stands for: that of the raw path, else that of the percent-decoded one when the
      raw path names nothing in the repository either. */
  ghost function LinkedPage(r: Repository, target: string, repoDir: string): Option<string> {
    var raw := RepoTarget(target, repoDir);
    if MappedPage(r, raw).Some? then MappedPage(r, raw)
    else if r.isDirectory(raw) || r.isFile(raw) then None
    else MappedPage(r, DecodedTarget(r, target, repoDir))
  }

  /** A link goes through the rewriting: it is no external, empty, anchor-only or editor link and stays inside
      the repository. */
  ghost predicate Considered(r: Repository, target: string, repoDir: string) {
    && target != "" && !Skipped(target) && r.editorLink(target).None? && PathPart(target) != ""
    && !LeavesRepository(RepoTarget(target, repoDir))
  }

  ghost predicate Copied(r: Repository, exist: Exists) {
    forall p | p in r.mapping :: exist(SiteLocation(r, r.mapping[p]))
  }

  /** A link that stands for a mirrored page becomes the page's relative path with the same anchor. It leads to
      exactly that page if and only if the relative path holds no '#'; once all mapped files are copied the
      validator then accepts it. */
  lemma MirroredLinkIsAccepted(
    r: Repository, target: string, repoDir: string, siteDir: string, allowed: set<string>, exist: Exists)
    requires WellFormed(r) && NormalPath(siteDir) && Copied(r, exist)
    requires Considered(r, target, repoDir) && LinkedPage(r, target, repoDir).Some?
    ensures var page := LinkedPage(r, target, repoDir).value;
      var path := RelPath(r.site, page, siteDir);
      var link := path + AnchorPart(target);
      && RewriteTarget(r, target, repoDir, siteDir) == Link(link)
      && (Follow(SiteLocation(r, siteDir), PathPart(link)) == SiteLocation(r, page) <==> '#' !in path)
      && ('#' !in path ==> AnchorPart(link) == AnchorPart(target) && Accepted(r, link, siteDir, allowed, exist))
  {
    hide PushAll, Split, Join, PathPart, RepoTarget, DecodedTarget, RelPath, AnchorPart, Skipped, LeavesRepository;
    AnchorOf(target);
    var page := LinkedPage(r, target, repoDir).value;
    if MappedPage(r, RepoTarget(target, repoDir)).Some? {
      MappedPageIsCopied(r, RepoTarget(target, repoDir), exist);
    } else {
      MappedPageIsCopied(r, DecodedTarget(r, target, repoDir), exist);
    }
    RewrittenLinkLeadsToPage(r, page, siteDir, AnchorPart(target));
  }

  lemma MappedPageIsCopied(r: Repository, path: string, exist: Exists)
    requires WellFormed(r) && Copied(r, exist) && MappedPage(r, path).Some?
    ensures NormalPath(MappedPage(r, path).value) && exist(SiteLocation(r, MappedPage(r, path).value))
  {
  }

  /** Which page a link gets: that of its own path when the path is mirrored, and otherwise that of the "index.md"
      below it; in both cases the relative path from the linking page, with the link's anchor. */
  lemma MirroredLinkIsWritten(r: Repository, target: string, repoDir: string, siteDir: string)
    requires Considered(r, target, repoDir)
    ensures var path := RepoTarget(target, repoDir);
      && (path in r.mapping ==>
            RewriteTarget(r, target, repoDir, siteDir)
            == Link(RelPath(r.site, r.mapping[path], siteDir) + AnchorPart(target)))
      && (path !in r.mapping && path + "/index.md" in r.mapping ==>
            RewriteTarget(r, target, repoDir, siteDir)
            == Link(RelPath(r.site, r.mapping[path + "/index.md"], siteDir) + AnchorPart(target)))
  {
    hide PushAll, Split, Join, PathPart, RepoTarget, RelPath, AnchorPart, LeavesRepository, Skipped;
  }

  ghost predicate Begins(target: string, prefix: string) { exists rest :: target == prefix + rest }

  lemma BeginsIff(target: string, prefix: string)
    ensures Begins(target, prefix) <==> prefix <= target
  {
    if prefix <= target { assert target == prefix + target[|prefix|..]; }
  }

  /** The links that are never repository paths, and so stay as they are: fragments, web and mail addresses, data. */
  lemma SkippedIff(r: Repository, target: string, repoDir: string, siteDir: string)
    ensures Skipped(target) <==>
      || Begins(target, "#") || Begins(target, "http://") || Begins(target, "https://") || Begins(target, "mailto:")
      || Begins(target, "data:")
    ensures Skipped(target) ==> RewriteTarget(r, target, repoDir, siteDir) == Untouched
  {
    hide Begins;
    BeginsIff(target, "#");
    BeginsIff(target, "http://");
    BeginsIff(target, "https://");
    BeginsIff(target, "mailto:");
    BeginsIff(target, "data:");
  }

  /** A normalised path leaves the repository exactly when it is the root itself or its first component begins
      with two dots, as ".." does. */
  lemma LeavesIff(parts: seq<Part>)
    requires Normal(parts)
    ensures LeavesRepository(OrDot(Join(parts))) <==> parts == [] || ".." <= parts[0]
  {
    if parts != [] {
      NormalParts(parts);
      var path, first := Join(parts), parts[0];
      assert path[..|first|] == first;
      if |parts| > 1 { assert path[|first|] == '/'; }
    }
  }

  lemma NormalParts(parts: seq<Part>)
    requires Normal(parts) && parts != []
    ensures parts[0] != "" && parts[0] != "." && Join(parts) != "" && Join(parts) != "."
  {
    var k: nat :| k <= |parts| && parts[..k] == Ups(k) && AllPlain(parts[k..]);
    assert if k > 0 then parts[0] == parts[..k][0] else parts[0] == parts[k..][0];
    if |parts| > 1 { assert |Join(parts)| > |parts[0]|; }
  }

  /** The repository path an unmirrored link is sent to: the raw one when it is a directory or a file, else the
      decoded one. */
  ghost function GithubPath(r: Repository, target: string, repoDir: string): string {
    var raw := RepoTarget(target, repoDir);
    if r.isDirectory(raw) || r.isFile(raw) then raw else DecodedTarget(r, target, repoDir)
  }

  /** Every other rewritten link is the GitHub URL of its path, a tree for a directory and a blob for a file, with the
      same anchor; the validator skips it. */
  lemma UnmirroredLinkGoesToGithub(
    r: Repository, target: string, repoDir: string, siteDir: string, allowed: set<string>, exist: Exists)
    requires Considered(r, target, repoDir) && LinkedPage(r, target, repoDir).None?
    requires RewriteTarget(r, target, repoDir, siteDir).Link?
    ensures var link, path := RewriteTarget(r, target, repoDir, siteDir).link, GithubPath(r, target, repoDir);
      && (r.isDirectory(path) || r.isFile(path))
      && link == GithubUrl(r, path, if r.isDirectory(path) then "tree" else "blob") + AnchorPart(target)
      && Accepted(r, link, siteDir, allowed, exist)
  {
    hide PushAll, Split, Join, PathPart, RepoTarget, DecodedTarget, RelPath, AnchorPart, LeavesRepository, GithubUrl;
    GithubIsSkipped(r, GithubPath(r, target, repoDir), "tree", AnchorPart(target));
    GithubIsSkipped(r, GithubPath(r, target, repoDir), "blob", AnchorPart(target));
  }

  lemma GithubIsSkipped(r: Repository, path: string, kind: string, anchor: string)
    ensures Skipped(GithubUrl(r, path, kind) + anchor)
  {
    var url := "https://github.com/Farewell-CK/RoboGuide/";
    assert "https://" <= url;
    assert GithubUrl(r, path, kind) + anchor == url + ((kind + "/" + r.revision + "/" + r.quote(path)) + anchor);
  }

  /** A link is recorded as broken exactly when neither its raw nor its decoded path is mirrored, a directory or
      a file of the repository. */
  lemma BrokenExactlyWhenNowhere(r: Repository, target: string, repoDir: string, siteDir: string)
    ensures RewriteTarget(r, target, repoDir, siteDir).Broken? <==>
      && Considered(r, target, repoDir)
      && forall c | c in {RepoTarget(target, repoDir), DecodedTarget(r, target, repoDir)} ::
           MappedPage(r, c).None? && !r.isDirectory(c) && !r.isFile(c)
  {
    hide PushAll, Split, Join, PathPart, RepoTarget, DecodedTarget, RelPath, AnchorPart, LeavesRepository, Skipped;
    var raw, decoded := RepoTarget(target, repoDir), DecodedTarget(r, target, repoDir);
    assert raw in {raw, decoded} && decoded in {raw, decoded};
  }

  // ----- Where the path of a link can lead -----

  /** A path below the repository's root. */
  predicate Inside(path: string) { !LeavesRepository(path) && !("/" <= path) }

  lemma NormalisedNotRooted(path: string)
    requires LeadingSlashes(path) == ""
    ensures !("/" <= NormPath(path))
  {
    hide PushAll, Split, Join;
    var parts := PushAll([], Split(path), false);
    assert Normal([]) by { assert [][..0] == Ups(0) && AllPlain([][0..]); }
    NormaliseNormal([], Split(path));
    assert "" + Join(parts) == Join(parts);
    JoinedNotRooted(parts);
  }

  lemma JoinedNotRooted(parts: seq<Part>)
    requires Normal(parts)
    ensures !("/" <= OrDot(Join(parts)))
  {
    if parts != [] {
      var k: nat :| k <= |parts| && parts[..k] == Ups(k) && AllPlain(parts[k..]);
      assert if k > 0 then parts[0] == parts[..k][0] else parts[0] == parts[k..][0];
      assert Join(parts)[0] == parts[0][0];
    }
    NotRooted(OrDot(Join(parts)));
  }

  /** The raw path of a rewritten link is always inside the repository. */
  lemma RawTargetInside(r: Repository, target: string, repoDir: string)
    requires Considered(r, target, repoDir) && NormalPath(repoDir)
    ensures Inside(RepoTarget(target, repoDir))
  {
    hide PushAll, Split, Join, PathPart, NormPath, LeavesRepository;
    var (base, relative) := Origin(target, repoDir);
    if "/" <= PathPart(target) { StrippedMeansSame([], PathPart(target)); }
    SplitJoined(base, relative);
    NormalisedNotRooted(JoinPath(base, relative));
  }

  /** The link is rewritten to the GitHub URL of a path outside the repository. */
  ghost predicate SentOutside(r: Repository, target: string, repoDir: string, siteDir: string) {
    && LinkedPage(r, target, repoDir).None? && RewriteTarget(r, target, repoDir, siteDir).Link?
    && !Inside(GithubPath(r, target, repoDir))
  }

  /** The decoded path of a link is not looked at again: a link is sent outside the repository exactly when neither
      path is mirrored, the raw one names nothing, and the decoded one names a directory or a file outside. */
  lemma SentOutsideIff(r: Repository, target: string, repoDir: string, siteDir: string)
    requires Considered(r, target, repoDir) && NormalPath(repoDir)
    ensures SentOutside(r, target, repoDir, siteDir) <==>
      var raw, decoded := RepoTarget(target, repoDir), DecodedTarget(r, target, repoDir);
      && MappedPage(r, raw).None? && !r.isDirectory(raw) && !r.isFile(raw)
      && MappedPage(r, decoded).None? && (r.isDirectory(decoded) || r.isFile(decoded)) && !Inside(decoded)
  {
    hide PushAll, Split, Join, PathPart, RepoTarget, DecodedTarget, RelPath, AnchorPart, LeavesRepository, Skipped;
    RawTargetInside(r, target, repoDir);
  }

  /** A repository below some directory, without pages. */
  ghost function ParentRepository(): Repository {
    Repository(
      [], map[], path => path == "..", _ => false, s => if s == "%2e%2e" then ".." else s, s => s, "", _ => None)
  }

  /** A percent-encoded ".." is sent to GitHub although a plain one is left alone. */
  lemma EncodedParentLeadsOutside()
    ensures var r := ParentRepository();
      && Considered(r, "%2e%2e", "") && GithubPath(r, "%2e%2e", "") == ".." && !Inside("..")
      && RewriteTarget(r, "%2e%2e", "", "") == Link(GithubUrl(r, "..", "tree"))
      && SentOutside(r, "%2e%2e", "", "") && RewriteTarget(r, "..", "", "") == Untouched
  {
    hide PushAll, Split, Join, NormPath, GithubUrl, Skipped, LeavesRepository, PathPart, AnchorPart, JoinPath;
    var r := ParentRepository();
    PlainPathStays("%2e%2e");
    ParentPathStays();
    ParentLiterals();
    assert RepoTarget("%2e%2e", "") == "%2e%2e" && DecodedTarget(r, "%2e%2e", "") == "..";
    assert GithubUrl(r, "..", "tree") + "" == GithubUrl(r, "..", "tree");
  }

  lemma ParentLiterals()
    ensures !Skipped("%2e%2e") && !Skipped("..") && !LeavesRepository("%2e%2e") && LeavesRepository("..")
    ensures !("/" <= "%2e%2e") && !("/" <= "..")
    ensures PathPart("%2e%2e") == "%2e%2e" && AnchorPart("%2e%2e") == "" && PathPart("..") == ".."
  {
    hide Skipped;
    NotSkipped("%2e%2e");
    NotSkipped("..");
    PartitionOf("%2e%2e", "");
    PartitionOf("..", "");
    assert "%2e%2e" + "" == "%2e%2e" && ".." + "" == "..";
  }

  lemma ParentPathStays()
    ensures NormPath(JoinPath("", "..")) == ".."
  {
    hide PushAll, Split;
    SplitPart("..");
    assert JoinPath("", "..") == ".." && LeadingSlashes("..") == "" by { NotRooted(".."); }
    PushOne([], "..", false);
    assert Join([".."]) == ".." && "" + ".." == "..";
  }

  // ----- A '#' in the name of a page -----

  lemma PlainPathStays(part: Part)
    requires Plain(part)
    ensures Split(part) == [part] && NormPath(JoinPath("", part)) == part
  {
    hide PushAll, Split;
    SplitPart(part);
    assert JoinPath("", part) == part && LeadingSlashes(part) == "" by { NotRooted(part); }
    PushOne([], part, false);
    assert Join([part]) == part && "" + part == part;
  }

  lemma SitePathStays(part: Part)
    requires Plain(part)
    ensures NormalPath(part) && PushAll([], Split(part), true) == [part] && PushAll([], Split(""), true) == []
    ensures RelPath([], part, "") == part
  {
    hide PushAll, Split;
    SplitPart(part);
    SplitPart("");
    PushOne([], part, true);
    PushOne([], "", true);
    assert Relative([part], []) == [part];
  }

  /** A repository with one page, whose name `encoded` decodes to. */
  ghost function OnePage(page: string, encoded: string): Repository {
    Repository(
      [], map[page := page], _ => false, _ => false, s => if s == encoded then page else s, s => s, "", _ => None)
  }

  /** What the strings of an encoded '#' look like: `encoded` is an ordinary link without '#', and the page it decodes
      to has the name `cut` before its '#'. */
  ghost predicate EncodesHash(page: string, encoded: string, cut: string) {
    && Plain(encoded) && !Skipped(encoded) && !LeavesRepository(encoded)
    && PathPart(encoded) == encoded && AnchorPart(encoded) == ""
    && Plain(page) && !Skipped(page) && page != encoded && page != encoded + "/index.md"
    && PathPart(page) == cut && Plain(cut) && cut != page
  }

  /** A percent-encoded '#' in a link to a mirrored page: the page is there, but the validator looks for the file
      before the '#' and reports an error. */
  lemma EncodedHashIsReported(page: string, encoded: string, cut: string)
    requires EncodesHash(page, encoded, cut)
    ensures var r := OnePage(page, encoded);
      && WellFormed(r) && Considered(r, encoded, "") && LinkedPage(r, encoded, "") == Some(page)
      && RewriteTarget(r, encoded, "", "") == Link(page)
      && !Accepted(r, page, "", {}, at => at == SiteLocation(r, page))
  {
    hide PushAll, Split, Join, NormPath, RelPath, Skipped, LeavesRepository, PathPart, AnchorPart, JoinPath;
    var r := OnePage(page, encoded);
    PlainPathStays(encoded);
    PlainPathStays(page);
    SitePathStays(page);
    SitePathStays(cut);
    NotRooted(encoded);
    NotRooted(cut);
    assert RepoTarget(encoded, "") == encoded && DecodedTarget(r, encoded, "") == page;
    assert page + "" == page;
  }

  /** For example a page "a#.md" and a link "a%23.md" to it. */
  lemma HashExample()
    ensures EncodesHash("a#.md", "a%23.md", "a")
  {
    hide Skipped, PathPart, AnchorPart;
    NotSkipped("a#.md");
    NotSkipped("a%23.md");
    PartitionOf("a%23.md", "");
    assert "a%23.md" + "" == "a%23.md";
    PartitionOf("a", "#.md");
    assert "a" + "#.md" == "a#.md";
    assert |"a#.md"| != |"a%23.md" + "/index.md"|;
  }
}
