/** Slash-separated paths: splitting, joining, lexical normalisation and relative paths, as `posixpath` and
    `pathlib` do them for the archive code and for the documentation links. */
module PosixPath {
  type Part = string

  predicate NoSlash(part: Part) { '/' !in part }

  /** A component that names an entry of a directory. */
  predicate Plain(part: Part) { part != "" && part != "." && part != ".." && NoSlash(part) }

  predicate AllPlain(parts: seq<Part>) { forall i | 0 <= i < |parts| :: Plain(parts[i]) }

  // ----- Splitting and joining -----

  function Split(s: string): (parts: seq<Part>)
    ensures |parts| >= 1 && forall i | 0 <= i < |parts| :: NoSlash(parts[i])
  {
    if s == "" then [""]
    else
      var rest := Split(s[1..]);
      if s[0] == '/' then [""] + rest else [[s[0]] + rest[0]] + rest[1..]
  }

  function Join(parts: seq<Part>): string {
    if parts == [] then "" else if |parts| == 1 then parts[0] else parts[0] + "/" + Join(parts[1..])
  }

  lemma {:induction false} SplitPart(part: Part)
    requires NoSlash(part)
    ensures Split(part) == [part]
  {
    if part != "" {
      assert NoSlash(part[1..]);
      SplitPart(part[1..]);
      assert [part[0]] + part[1..] == part;
    }
  }

  /** Splitting with one more character in front. */
  function Prepended(c: char, parts: seq<Part>): seq<Part>
    requires |parts| >= 1
  {
    if c == '/' then [""] + parts else [[c] + parts[0]] + parts[1..]
  }

  lemma SplitStep(c: char, s: string)
    ensures Split([c] + s) == Prepended(c, Split(s))
  {
    assert ([c] + s)[1..] == s;
  }

  lemma {:induction false} SplitAt(a: string, b: string)
    ensures Split(a + "/" + b) == Split(a) + Split(b)
  {
    hide Split;
    if a == "" {
      SplitStep('/', b);
      SplitPart("");
      assert a + "/" + b == "/" + b;
    } else {
      SplitAt(a[1..], b);
      SplitStep(a[0], a[1..] + "/" + b);
      SplitStep(a[0], a[1..]);
      assert a == [a[0]] + a[1..];
      assert a + "/" + b == [a[0]] + (a[1..] + "/" + b);
      PrependedConcat(a[0], Split(a[1..]), Split(b));
    }
  }

  lemma PrependedConcat(c: char, a: seq<Part>, b: seq<Part>)
    requires |a| >= 1
    ensures Prepended(c, a + b) == Prepended(c, a) + b
  {
  }

  lemma {:induction false} SplitJoin(parts: seq<Part>)
    requires parts != [] && forall i | 0 <= i < |parts| :: NoSlash(parts[i])
    ensures Split(Join(parts)) == parts
  {
    SplitPart(parts[0]);
    if |parts| > 1 {
      SplitJoin(parts[1..]);
      SplitAt(parts[0], Join(parts[1..]));
    }
  }

  lemma JoinInjective(a: seq<Part>, b: seq<Part>)
    requires AllPlain(a) && AllPlain(b) && Join(a) == Join(b)
    ensures a == b
  {
    if a != [] { SplitJoin(a); }
    if b != [] { SplitJoin(b); }
    if a == [] && b != [] { JoinNonempty(b); }
    if b == [] && a != [] { JoinNonempty(a); }
  }

  lemma JoinNonempty(parts: seq<Part>)
    requires parts != [] && AllPlain(parts)
    ensures Join(parts) != ""
  {
  }

  // ----- Lexical normalisation -----

  /** One component of `normpath`: empty and "." are skipped, ".." removes the last kept component unless there
      is none to remove; at an absolute root it is dropped, otherwise it is kept. */
  function Push(stack: seq<Part>, part: Part, rooted: bool): seq<Part> {
    if part == "" || part == "." then stack
    else if part != ".." || (!rooted && stack == []) || (stack != [] && stack[|stack| - 1] == "..") then stack + [part]
    else if stack != [] then stack[..|stack| - 1]
    else stack
  }

  /** The components `normpath` keeps, starting from those of `stack`. */
  function PushAll(stack: seq<Part>, parts: seq<Part>, rooted: bool): seq<Part>
    decreases |parts|
  {
    if parts == [] then stack else PushAll(Push(stack, parts[0], rooted), parts[1..], rooted)
  }

  lemma {:induction false} PushAllConcat(stack: seq<Part>, a: seq<Part>, b: seq<Part>, rooted: bool)
    ensures PushAll(stack, a + b, rooted) == PushAll(PushAll(stack, a, rooted), b, rooted)
    decreases |a|
  {
    if a == [] {
      assert a + b == b;
    } else {
      PushAllConcat(Push(stack, a[0], rooted), a[1..], b, rooted);
      assert (a + b)[1..] == a[1..] + b;
    }
  }

  lemma {:induction false} PushPlain(stack: seq<Part>, parts: seq<Part>, rooted: bool)
    requires AllPlain(parts)
    ensures PushAll(stack, parts, rooted) == stack + parts
    decreases |parts|
  {
    if parts == [] {
      assert stack + parts == stack;
    } else {
      PushPlain(stack + [parts[0]], parts[1..], rooted);
      assert stack + [parts[0]] + parts[1..] == stack + parts;
    }
  }

  function Ups(k: nat): seq<Part> { seq(k, _ => "..") }

  lemma {:induction false} PushUps(stack: seq<Part>, k: nat, rooted: bool)
    requires AllPlain(stack) && k <= |stack|
    ensures PushAll(stack, Ups(k), rooted) == stack[..|stack| - k]
    decreases k
  {
    if k > 0 {
      var shorter := stack[..|stack| - 1];
      PushUps(shorter, k - 1, rooted);
      assert Plain(stack[|stack| - 1]);
      assert Ups(k)[0] == ".." && Ups(k)[1..] == Ups(k - 1);
      assert Push(stack, "..", rooted) == shorter;
      assert shorter[..|shorter| - (k - 1)] == stack[..|stack| - k];
    }
  }

  /** What a relative normal form looks like: some ".." and then plain components. */
  ghost predicate Normal(parts: seq<Part>) {
    exists k: nat :: k <= |parts| && parts[..k] == Ups(k) && AllPlain(parts[k..])
  }

  lemma PushNormal(stack: seq<Part>, part: Part)
    requires Normal(stack) && NoSlash(part)
    ensures Normal(Push(stack, part, false))
  {
    var k: nat :| k <= |stack| && stack[..k] == Ups(k) && AllPlain(stack[k..]);
    var next := Push(stack, part, false);
    if part == ".." && k == |stack| {
      assert k > 0 ==> stack[..k][k - 1] == "..";
      assert next[..k + 1] == Ups(k + 1) && next[k + 1..] == [];
    } else if part == ".." {
      assert Plain(stack[k..][|stack| - 1 - k]);
      assert next[..k] == Ups(k) && next[k..] == stack[k..][..|stack| - 1 - k];
    } else if next != stack {
      assert next[..k] == Ups(k) && next[k..] == stack[k..] + [part];
    }
  }

  lemma {:induction false} NormaliseNormal(stack: seq<Part>, parts: seq<Part>)
    requires Normal(stack) && forall i | 0 <= i < |parts| :: NoSlash(parts[i])
    ensures Normal(PushAll(stack, parts, false))
    decreases |parts|
  {
    if parts != [] {
      PushNormal(stack, parts[0]);
      NormaliseNormal(Push(stack, parts[0], false), parts[1..]);
    }
  }

  /** Normalising a relative path first and resolving it afterwards leads to the same place, from every
      directory. */
  lemma {:induction false} NormaliseKeepsMeaning(base: seq<Part>, stack: seq<Part>, parts: seq<Part>)
    requires AllPlain(base) && Normal(stack) && forall i | 0 <= i < |parts| :: NoSlash(parts[i])
    ensures PushAll(base, PushAll(stack, parts, false), true) == PushAll(PushAll(base, stack, true), parts, true)
    decreases |parts|
  {
    if parts != [] {
      PushNormal(stack, parts[0]);
      NormaliseKeepsMeaning(base, Push(stack, parts[0], false), parts[1..]);
      PushKeepsMeaning(base, stack, parts[0]);
    }
  }

  lemma PushKeepsMeaning(base: seq<Part>, stack: seq<Part>, part: Part)
    requires AllPlain(base) && Normal(stack)
    ensures PushAll(base, Push(stack, part, false), true) == Push(PushAll(base, stack, true), part, true)
  {
    var next := Push(stack, part, false);
    if next == stack + [part] {
      PushAllConcat(base, stack, [part], true);
    } else if next != stack {
      var last := stack[|stack| - 1];
      NormalLast(stack);
      assert stack == next + [last];
      PushAllConcat(base, next, [last], true);
      var at := PushAll(base, next, true);
      assert PushAll(base, stack, true) == at + [last];
      assert (at + [last])[..|at|] == at;
    }
  }

  lemma NormalLast(stack: seq<Part>)
    requires Normal(stack) && stack != []
    ensures stack[|stack| - 1] == ".." || Plain(stack[|stack| - 1])
  {
    var k: nat :| k <= |stack| && stack[..k] == Ups(k) && AllPlain(stack[k..]);
    if k == |stack| {
      assert stack[..k][k - 1] == "..";
    } else {
      assert stack[k..][|stack| - 1 - k] == stack[|stack| - 1];
    }
  }

  // ----- Relative paths -----

  function CommonLength(a: seq<Part>, b: seq<Part>): (k: nat)
    ensures k <= |a| && k <= |b| && (forall i | 0 <= i < k :: a[i] == b[i])
    ensures k < |a| && k < |b| ==> a[k] != b[k]
  {
    if a == [] || b == [] || a[0] != b[0] then 0 else CommonLength(a[1..], b[1..]) + 1
  }

  /** The components of `relpath(target, start)` for two absolute normal paths. */
  function Relative(target: seq<Part>, start: seq<Part>): seq<Part> {
    var k := CommonLength(target, start);
    Ups(|start| - k) + target[k..]
  }

  /** Following the relative path from its start leads exactly to its target. */
  lemma RelativeLeadsToTarget(target: seq<Part>, start: seq<Part>, rooted: bool)
    requires AllPlain(target) && AllPlain(start)
    ensures PushAll(start, Relative(target, start), rooted) == target
  {
    hide PushAll, CommonLength;
    var k := CommonLength(target, start);
    PushAllConcat(start, Ups(|start| - k), target[k..], rooted);
    PushUps(start, |start| - k, rooted);
    PushPlain(start[..k], target[k..], rooted);
    assert start[..k] + target[k..] == target;
  }
}
