/** The immutable-import protocol of the map adapter (`_import_map`, `imported_digest`, `record_import`,
    `_pack_map`) with its worker threads, crashes and the window between the rename and the provenance record.

    An artifact is identified with its bytes and a digest with the bytes it was computed from, since SHA-256 is
    taken to be injective. */
module MapImport {
  import opened Wrappers

  type MapId = nat
  type ArtifactPath = nat
  type Thread = nat

  datatype Blob = Blob(id: nat)
  datatype Digest = Sha256(of: Blob)

  /** What a local map directory holds: an extracted artifact, or a map that was not imported. */
  datatype Content = Extracted(blob: Blob) | Foreign

  // ----- The provenance table -----

  /** Whether `record_import` raises: another digest is recorded already. */
  predicate Conflicts(rows: map<MapId, Digest>, id: MapId, digest: Digest) {
    id in rows && rows[id] != digest
  }

  class ImportedMaps {
    var rows: map<MapId, Digest>

    method ImportedDigest(id: MapId) returns (digest: Option<Digest>)
      ensures digest == if id in rows then Some(rows[id]) else None
    {
      digest := if id in rows then Some(rows[id]) else None;
    }

    /** Records the digest once; afterwards the row never changes. */
    method RecordImport(id: MapId, digest: Digest) returns (ok: bool)
      modifies this
      ensures ok <==> !Conflicts(old(rows), id, digest)
      ensures rows == if ok then old(rows)[id := digest] else old(rows)
      ensures forall i | i in old(rows) :: i in rows && rows[i] == old(rows)[i]
    {
      if id in rows {
        return rows[id] == digest;
      }
      rows := rows[id := digest];
      ok := true;
    }
  }

  // ----- The adapter as a whole -----

  /** Where one import stands: the artifact is hashed; the map lock is held; the artifact is extracted into a
      staging directory; the staging directory is renamed to the target. */
  datatype Phase =
    | Hashed(target: MapId, path: ArtifactPath, digest: Digest)
    | Inside(target: MapId, path: ArtifactPath, digest: Digest)
    | Staged(target: MapId, digest: Digest, blob: Blob)
    | Renamed(target: MapId, digest: Digest, blob: Blob)

  /** `builds` are the builds in flight: each saw that no artifact was at its path. */
  datatype State = State(
    dirs: map<MapId, Content>,
    rows: map<MapId, Digest>,
    artifacts: map<ArtifactPath, Blob>,
    builds: map<Thread, ArtifactPath>,
    threads: map<Thread, Phase>,
    lock: Option<Thread>)

  datatype Action =
    | Hash(thread: Thread, target: MapId, path: ArtifactPath)
    | Enter(thread: Thread)
    | Refuse(thread: Thread)       // the target exists without this digest
    | Reuse(thread: Thread)        // the target exists with this digest: success, nothing to do
    | Extract(thread: Thread)
    | Rename(thread: Thread)
    | Record(thread: Thread)       // the provenance transaction: success, or a conflict is raised
    | Fail(thread: Thread)         // any other exception of an import
    | Crash                        // the process dies; files and rows stay
    | BuildStart(thread: Thread, path: ArtifactPath)   // the destination does not exist
    | BuildEnd(thread: Thread, blob: Blob)             // the archive is renamed to the destination
    | BuildFail(thread: Thread)
    | Save(id: MapId)              // Robonix saves a new map
    | SaveOver(id: MapId)          // Robonix saves into a directory that exists
    | Remove(id: MapId)            // someone deletes a map directory

  predicate In(s: State, t: Thread) { t in s.threads && s.lock == Some(t) }

  predicate Enabled(s: State, a: Action) {
    match a
    case Hash(t, _, path) => t !in s.threads && path in s.artifacts
    case Enter(t) => t in s.threads && s.threads[t].Hashed? && s.lock == None
    case Refuse(t) =>
      && In(s, t) && s.threads[t].Inside? && s.threads[t].target in s.dirs
      && (s.threads[t].target in s.rows ==> s.rows[s.threads[t].target] != s.threads[t].digest)
    case Reuse(t) =>
      && In(s, t) && s.threads[t].Inside? && s.threads[t].target in s.dirs
      && s.threads[t].target in s.rows && s.rows[s.threads[t].target] == s.threads[t].digest
    case Extract(t) =>
      && In(s, t) && s.threads[t].Inside? && s.threads[t].target !in s.dirs && s.threads[t].path in s.artifacts
    case Rename(t) => In(s, t) && s.threads[t].Staged? && s.threads[t].target !in s.dirs
    case Record(t) => In(s, t) && s.threads[t].Renamed?
    case Fail(t) => t in s.threads
    case Crash => true
    case BuildStart(t, path) => t !in s.builds && path !in s.artifacts
    case BuildEnd(t, _) => t in s.builds
    case BuildFail(t) => t in s.builds
    case Save(id) => id !in s.dirs
    case SaveOver(id) => id in s.dirs
    case Remove(id) => id in s.dirs
  }

  /** The end of an import, with success or without. */
  function Ended(s: State, t: Thread): State {
    s.(threads := s.threads - {t}, lock := if s.lock == Some(t) then None else s.lock)
  }

  function Apply(s: State, a: Action): State
    requires Enabled(s, a)
  {
    match a
    case Hash(t, id, path) => s.(threads := s.threads[t := Hashed(id, path, Sha256(s.artifacts[path]))])
    case Enter(t) =>
      var p := s.threads[t];
      s.(threads := s.threads[t := Inside(p.target, p.path, p.digest)], lock := Some(t))
    case Refuse(t) => Ended(s, t)
    case Reuse(t) => Ended(s, t)
    case Extract(t) =>
      var p := s.threads[t];
      s.(threads := s.threads[t := Staged(p.target, p.digest, s.artifacts[p.path])])
    case Rename(t) =>
      var p := s.threads[t];
      s.(threads := s.threads[t := Renamed(p.target, p.digest, p.blob)],
         dirs := s.dirs[p.target := Extracted(p.blob)])
    case Record(t) =>
      var p := s.threads[t];
      if Conflicts(s.rows, p.target, p.digest) then Ended(s, t)
      else Ended(s, t).(rows := s.rows[p.target := p.digest])
    case Fail(t) => Ended(s, t)
    case Crash => s.(threads := map[], lock := None, builds := map[])
    case BuildStart(t, path) => s.(builds := s.builds[t := path])
    case BuildEnd(t, blob) => s.(artifacts := s.artifacts[s.builds[t] := blob], builds := s.builds - {t})
    case BuildFail(t) => s.(builds := s.builds - {t})
    case Save(id) => s.(dirs := s.dirs[id := Foreign])
    case SaveOver(id) => s.(dirs := s.dirs[id := Foreign])
    case Remove(id) => s.(dirs := s.dirs - {id})
  }

  /** The step reports a successful import of `digest` as `id`. */
  predicate Succeeds(s: State, a: Action, id: MapId, digest: Digest)
    requires Enabled(s, a)
  {
    match a
    case Reuse(t) => s.threads[t].target == id && s.threads[t].digest == digest
    case Record(t) =>
      s.threads[t].target == id && s.threads[t].digest == digest && !Conflicts(s.rows, id, digest)
    case _ => false
  }

  ghost predicate Idle(s: State) { s.threads == map[] && s.lock == None && s.builds == map[] }

  ghost predicate Run(ss: seq<State>, acts: seq<Action>) {
    && |ss| == |acts| + 1
    && Idle(ss[0]) && ss[0].rows == map[] && (forall d | d in ss[0].dirs :: ss[0].dirs[d] == Foreign)
    && (forall n | 0 <= n < |acts| :: Enabled(ss[n], acts[n]) && ss[n + 1] == Apply(ss[n], acts[n]))
  }

  // ----- What comes from outside -----

  /** The import of a directory is on record, or about to be. */
  ghost predicate Protected(s: State, id: MapId) {
    id in s.rows || exists t :: t in s.threads && s.threads[t].Renamed? && s.threads[t].target == id
  }

  /** Someone deletes an imported directory, or Robonix saves into it. Deleting or saving over any other one is no
      disturbance. */
  ghost predicate Disturbs(s: State, a: Action) { (a.Remove? || a.SaveOver?) && Protected(s, a.id) }

  ghost predicate Undisturbed(ss: seq<State>, acts: seq<Action>)
    requires |ss| == |acts| + 1
  {
    forall n | 0 <= n < |acts| :: !Disturbs(ss[n], acts[n])
  }

  /** A build starts while another one of the same artifact is in flight. */
  ghost predicate Overlaps(s: State, a: Action) {
    a.BuildStart? && exists t :: t in s.builds && s.builds[t] == a.path
  }

  ghost predicate BuildsApart(ss: seq<State>, acts: seq<Action>)
    requires |ss| == |acts| + 1
  {
    forall n | 0 <= n < |acts| :: !Overlaps(ss[n], acts[n])
  }

  // ----- What never changes -----

  lemma StepKeeps(s: State, a: Action, id: MapId)
    requires Enabled(s, a)
    ensures id in s.rows ==> id in Apply(s, a).rows && Apply(s, a).rows[id] == s.rows[id]
    ensures a != Remove(id) && a != SaveOver(id) && id in s.dirs ==>
              id in Apply(s, a).dirs && Apply(s, a).dirs[id] == s.dirs[id]
  {
  }

  /** A recorded digest never changes, in any run at all. */
  lemma {:induction false} RecordedForever(ss: seq<State>, acts: seq<Action>, m: nat, n: nat, id: MapId)
    requires Run(ss, acts) && m <= n < |ss| && id in ss[m].rows
    ensures id in ss[n].rows && ss[n].rows[id] == ss[m].rows[id]
    decreases n
  {
    hide Enabled, Apply;
    if m < n {
      RecordedForever(ss, acts, m, n - 1, id);
      StepKeeps(ss[n - 1], acts[n - 1], id);
    }
  }

  /** A local map directory once present is never replaced by any import, build, save of another map or crash: only
      its own deletion or a save into it changes it. */
  lemma {:induction false} DirectoryForever(ss: seq<State>, acts: seq<Action>, m: nat, n: nat, id: MapId)
    requires Run(ss, acts) && m <= n < |ss| && id in ss[m].dirs
    requires forall k | m <= k < n :: acts[k] != Remove(id) && acts[k] != SaveOver(id)
    ensures id in ss[n].dirs && ss[n].dirs[id] == ss[m].dirs[id]
    decreases n
  {
    hide Enabled, Apply;
    if m < n {
      DirectoryForever(ss, acts, m, n - 1, id);
      StepKeeps(ss[n - 1], acts[n - 1], id);
    }
  }

  /** In an undisturbed run a recorded directory is never replaced. */
  lemma RecordedDirectoryForever(ss: seq<State>, acts: seq<Action>, m: nat, n: nat, id: MapId)
    requires Run(ss, acts) && Undisturbed(ss, acts) && m <= n < |ss| && id in ss[m].rows && id in ss[m].dirs
    ensures id in ss[n].dirs && ss[n].dirs[id] == ss[m].dirs[id]
  {
    forall k | m <= k < n ensures acts[k] != Remove(id) && acts[k] != SaveOver(id) {
      RecordedForever(ss, acts, m, k, id);
      assert !Disturbs(ss[k], acts[k]);
    }
    DirectoryForever(ss, acts, m, n, id);
  }

  // ----- The invariant -----

  /** One import: whoever is past the lock holds it; before its provenance record a renamed target is there, with
      the bytes this import extracted, and has no row. */
  ghost predicate ThreadOk(s: State, t: Thread)
    requires t in s.threads
  {
    var p := s.threads[t];
    && (!p.Hashed? ==> s.lock == Some(t))
    && (p.Renamed? ==> p.target in s.dirs && s.dirs[p.target] == Extracted(p.blob) && p.target !in s.rows)
  }

  ghost predicate Inv(s: State) {
    && (forall t | t in s.threads :: ThreadOk(s, t))
    && (forall id | id in s.rows :: id in s.dirs)
  }

  lemma StepKeepsInv(s: State, a: Action)
    requires Inv(s) && Enabled(s, a) && !Disturbs(s, a)
    ensures Inv(Apply(s, a))
  {
    var s' := Apply(s, a);
    forall t | t in s'.threads ensures ThreadOk(s', t) {
      assert t in s.threads ==> ThreadOk(s, t);
      assert t in s.threads && s.threads[t].Renamed? ==> Protected(s, s.threads[t].target);
    }
  }

  lemma {:induction false} RunKeepsInv(ss: seq<State>, acts: seq<Action>, n: nat)
    requires Run(ss, acts) && Undisturbed(ss, acts) && n < |ss|
    ensures Inv(ss[n])
  {
    if n > 0 {
      RunKeepsInv(ss, acts, n - 1);
      hide Enabled, Apply, Inv, Disturbs;
      StepKeepsInv(ss[n - 1], acts[n - 1]);
    }
  }

  /** A crash leaves no import, lock or build behind, and every directory, record and artifact as it was. */
  lemma CrashKeepsFiles(s: State)
    ensures var t := Apply(s, Crash);
      Idle(t) && t.dirs == s.dirs && t.rows == s.rows && t.artifacts == s.artifacts
  {
  }

  /** Under the lock exactly one thing happens: an existing target is refused or reused, never both; otherwise the
      artifact is extracted, when it is still there. */
  lemma OneDecision(s: State, t: Thread)
    requires In(s, t) && s.threads[t].Inside?
    ensures Enabled(s, Refuse(t)) ==> !Enabled(s, Reuse(t)) && !Enabled(s, Extract(t))
    ensures Enabled(s, Reuse(t)) ==> !Enabled(s, Extract(t))
    ensures s.threads[t].path in s.artifacts ==>
              Enabled(s, Refuse(t)) || Enabled(s, Reuse(t)) || Enabled(s, Extract(t))
  {
  }

  /** Whatever was deleted or saved over before: a success leaves its digest on record, and a `Record` that
      reports none leaves the records as they were. */
  lemma SuccessIsRecorded(s: State, a: Action)
    requires Enabled(s, a)
    ensures forall id, digest | Succeeds(s, a, id, digest) ::
              id in Apply(s, a).rows && Apply(s, a).rows[id] == digest
    ensures Apply(s, a).rows != s.rows ==> exists id, digest :: Succeeds(s, a, id, digest)
  {
    if a.Record? {
      var p := s.threads[a.thread];
      assert Succeeds(s, a, p.target, p.digest) <==> !Conflicts(s.rows, p.target, p.digest);
    }
  }

  /** Success is reported only for a directory whose recorded provenance is the given artifact, and a provenance
      record never meets a conflict. */
  lemma SuccessHasProvenance(ss: seq<State>, acts: seq<Action>, n: nat, id: MapId, digest: Digest)
    requires Run(ss, acts) && Undisturbed(ss, acts) && n < |acts|
    ensures Succeeds(ss[n], acts[n], id, digest) ==>
              id in ss[n + 1].dirs && id in ss[n + 1].rows && ss[n + 1].rows[id] == digest
    ensures acts[n].Record? ==>
              Succeeds(ss[n], acts[n], ss[n].threads[acts[n].thread].target, ss[n].threads[acts[n].thread].digest)
  {
    RunKeepsInv(ss, acts, n);
    RunKeepsInv(ss, acts, n + 1);
    if acts[n].Record? { assert ThreadOk(ss[n], acts[n].thread); }
  }

  // ----- A directory without provenance -----

  /** A directory that no import will ever account for: it exists, has no row, and nobody is about to record it. */
  ghost predicate Orphan(s: State, id: MapId) { id in s.dirs && !Protected(s, id) }

  /** The window after the rename: a crash, or a failure of the record transaction, leaves exactly such a
      directory. */
  lemma WindowOrphans(ss: seq<State>, acts: seq<Action>, n: nat, t: Thread)
    requires Run(ss, acts) && Undisturbed(ss, acts) && n < |acts| && (acts[n].Crash? || acts[n] == Fail(t))
    requires t in ss[n].threads && ss[n].threads[t].Renamed?
    ensures Orphan(ss[n + 1], ss[n].threads[t].target)
  {
    RunKeepsInv(ss, acts, n);
    assert ThreadOk(ss[n], t);
    assert forall u | u in ss[n].threads :: ThreadOk(ss[n], u);
  }

  lemma OrphanStays(s: State, a: Action, id: MapId)
    requires Orphan(s, id) && Enabled(s, a) && a != Remove(id)
    ensures Orphan(Apply(s, a), id)
    ensures forall digest :: !Succeeds(s, a, id, digest)
  {
    var s' := Apply(s, a);
    forall t | t in s'.threads ensures !(s'.threads[t].Renamed? && s'.threads[t].target == id) {
      assert t in s.threads ==> !(s.threads[t].Renamed? && s.threads[t].target == id);
    }
  }

  /** A directory left without provenance stays so until it is deleted, and until then every import to it fails. */
  lemma {:induction false} OrphanForever(ss: seq<State>, acts: seq<Action>, m: nat, n: nat, id: MapId)
    requires Run(ss, acts) && m <= n < |ss| && Orphan(ss[m], id)
    requires forall k | m <= k < n :: acts[k] != Remove(id)
    ensures Orphan(ss[n], id)
    ensures n < |acts| && acts[n] != Remove(id) ==> forall digest :: !Succeeds(ss[n], acts[n], id, digest)
    decreases n
  {
    hide Orphan, Apply, Succeeds, Enabled;
    if m < n {
      OrphanForever(ss, acts, m, n - 1, id);
      OrphanStays(ss[n - 1], acts[n - 1], id);
    }
    if n < |acts| && acts[n] != Remove(id) { OrphanStays(ss[n], acts[n], id); }
  }

  // ----- The recorded digest tells what the directory holds -----

  /** A recorded map is there and holds the bytes of the recorded artifact. */
  ghost predicate Faithful(s: State, id: MapId) {
    id in s.rows ==> id in s.dirs && s.dirs[id] == Extracted(s.rows[id].of)
  }

  /** The import still has the bytes it hashed. */
  ghost predicate Steady(s: State, p: Phase) {
    if p.Hashed? || p.Inside? then p.path in s.artifacts && s.artifacts[p.path] == p.digest.of
    else p.blob == p.digest.of
  }

  ghost predicate RowsFaithful(s: State) { forall id | id in s.rows :: Faithful(s, id) }

  ghost predicate AllSteady(s: State) { forall t | t in s.threads :: Steady(s, s.threads[t]) }

  /** Every build in flight is the only one of its artifact, which is not there yet. */
  ghost predicate BuildsAlone(s: State) {
    && (forall t | t in s.builds :: s.builds[t] !in s.artifacts)
    && (forall t, u | t in s.builds && u in s.builds && s.builds[t] == s.builds[u] :: t == u)
  }

  lemma StepKeepsBuildsAlone(s: State, a: Action)
    requires BuildsAlone(s) && Enabled(s, a) && !Overlaps(s, a)
    ensures BuildsAlone(Apply(s, a))
  {
  }

  lemma StepKeepsSteady(s: State, a: Action)
    requires AllSteady(s) && BuildsAlone(s) && Enabled(s, a)
    ensures AllSteady(Apply(s, a))
  {
    var s' := Apply(s, a);
    forall t | t in s'.threads ensures Steady(s', s'.threads[t]) {
      assert t in s.threads ==> Steady(s, s.threads[t]);
    }
  }

  /** Without overlapping builds every import extracts the bytes it hashed, whatever happens to directories. */
  lemma {:induction false} RunKeepsSteady(ss: seq<State>, acts: seq<Action>, n: nat)
    requires Run(ss, acts) && BuildsApart(ss, acts) && n < |ss|
    ensures AllSteady(ss[n]) && BuildsAlone(ss[n])
  {
    if n > 0 {
      RunKeepsSteady(ss, acts, n - 1);
      hide Enabled, Apply, AllSteady, BuildsAlone, Overlaps;
      StepKeepsSteady(ss[n - 1], acts[n - 1]);
      StepKeepsBuildsAlone(ss[n - 1], acts[n - 1]);
    }
  }

  lemma StepKeepsFaithful(s: State, a: Action)
    requires Inv(s) && RowsFaithful(s) && AllSteady(s) && Enabled(s, a) && !Disturbs(s, a)
    ensures RowsFaithful(Apply(s, a))
  {
    var s' := Apply(s, a);
    forall id | id in s'.rows ensures Faithful(s', id) {
      if a.Record? {
        assert ThreadOk(s, a.thread) && Steady(s, s.threads[a.thread]);
      }
      assert id in s.rows ==> Faithful(s, id) && Protected(s, id);
    }
  }

  /** As long as nobody disturbs an imported directory and no two builds of one artifact overlap, a recorded digest
      implies that its directory exists with that artifact's content, over every run of imports, builds, saves,
      deletions and crashes. */
  lemma {:induction false} RecordedIsFaithful(ss: seq<State>, acts: seq<Action>, n: nat)
    requires Run(ss, acts) && Undisturbed(ss, acts) && BuildsApart(ss, acts) && n < |ss|
    ensures RowsFaithful(ss[n])
  {
    if n > 0 {
      RecordedIsFaithful(ss, acts, n - 1);
      RunKeepsInv(ss, acts, n - 1);
      RunKeepsSteady(ss, acts, n - 1);
      hide Enabled, Apply, Inv, AllSteady, RowsFaithful, Disturbs;
      StepKeepsFaithful(ss[n - 1], acts[n - 1]);
    }
  }

  /** A reported success then means that the directory holds the given artifact. */
  lemma SuccessMeansContent(ss: seq<State>, acts: seq<Action>, n: nat, id: MapId, digest: Digest)
    requires Run(ss, acts) && Undisturbed(ss, acts) && BuildsApart(ss, acts) && n < |acts|
    requires Succeeds(ss[n], acts[n], id, digest)
    ensures id in ss[n + 1].dirs && ss[n + 1].dirs[id] == Extracted(digest.of)
  {
    SuccessHasProvenance(ss, acts, n, id, digest);
    RecordedIsFaithful(ss, acts, n + 1);
    assert Faithful(ss[n + 1], id);
  }

  // ----- Exactly which steps lose faithfulness -----

  /** The lock is held by exactly the import that is past it; it is never left locked by one that ended or died. */
  ghost predicate Locked(s: State) {
    && (forall t | t in s.threads && !s.threads[t].Hashed? :: s.lock == Some(t))
    && (s.lock.Some? ==> s.lock.value in s.threads && !s.threads[s.lock.value].Hashed?)
  }

  lemma StepKeepsLocked(s: State, a: Action)
    requires Locked(s) && Enabled(s, a)
    ensures Locked(Apply(s, a))
  {
  }

  lemma {:induction false} RunKeepsLocked(ss: seq<State>, acts: seq<Action>, n: nat)
    requires Run(ss, acts) && n < |ss|
    ensures Locked(ss[n])
  {
    if n > 0 {
      RunKeepsLocked(ss, acts, n - 1);
      hide Enabled, Apply, Locked;
      StepKeepsLocked(ss[n - 1], acts[n - 1]);
    }
  }

  predicate Renaming(s: State, t: Thread) { t in s.threads && s.threads[t].Renamed? }

  /** Thread `t` renamed its target at step `r` and is in the window before its record up to step `n`. */
  ghost predicate InWindow(ss: seq<State>, acts: seq<Action>, t: Thread, r: nat, n: nat)
    requires |ss| == |acts| + 1
  {
    r < n < |ss| && acts[r] == Rename(t) && (forall k | r < k <= n :: Renaming(ss[k], t))
  }

  lemma StepOfWindow(s: State, a: Action, t: Thread)
    requires Enabled(s, a) && Renaming(Apply(s, a), t)
    ensures var s' := Apply(s, a);
      if a == Rename(t) then
        s'.threads[t].target in s'.dirs && s'.dirs[s'.threads[t].target] == Extracted(s'.threads[t].blob)
      else Renaming(s, t) && s.threads[t] == s'.threads[t]
  {
  }

  lemma {:induction false} WindowHistory(ss: seq<State>, acts: seq<Action>, t: Thread, n: nat) returns (r: nat)
    requires Run(ss, acts) && n < |ss| && Renaming(ss[n], t)
    ensures InWindow(ss, acts, t, r, n)
    ensures WindowOpens(ss, acts, t, r, n)
  {
    hide Enabled, Apply;
    StepOfWindow(ss[n - 1], acts[n - 1], t);
    if acts[n - 1] == Rename(t) {
      r := n - 1;
    } else {
      r := WindowHistory(ss, acts, t, n - 1);
    }
  }

  /** The window begins with the target in place, and the import keeps what it knows. */
  ghost predicate WindowOpens(ss: seq<State>, acts: seq<Action>, t: Thread, r: nat, n: nat)
    requires |ss| == |acts| + 1 && InWindow(ss, acts, t, r, n)
  {
    var p := ss[n].threads[t];
    ss[r + 1].threads[t] == p && p.target in ss[r + 1].dirs && ss[r + 1].dirs[p.target] == Extracted(p.blob)
  }

  predicate Touches(a: Action, id: MapId) { a == Remove(id) || a == SaveOver(id) }

  predicate TouchesRow(s: State, a: Action) { (a.Remove? || a.SaveOver?) && a.id in s.rows }

  /** No recorded directory is ever deleted or saved over. */
  ghost predicate RowsUntouched(ss: seq<State>, acts: seq<Action>)
    requires |ss| == |acts| + 1
  {
    forall n | 0 <= n < |acts| :: !TouchesRow(ss[n], acts[n])
  }

  predicate Bare(s: State, id: MapId) { id !in s.dirs || s.dirs[id] == Foreign }

  lemma StepKeepsBare(s: State, a: Action, t: Thread, id: MapId)
    requires Enabled(s, a) && Locked(s) && Renaming(s, t) && (Bare(s, id) || Touches(a, id))
    ensures Bare(Apply(s, a), id)
  {
  }

  /** A target that is touched inside its window stays without content until the record: nobody else holds the
      lock. */
  lemma {:induction false} TouchedStaysBare(
    ss: seq<State>, acts: seq<Action>, t: Thread, r: nat, k: nat, n: nat, id: MapId)
    requires Run(ss, acts) && InWindow(ss, acts, t, r, n) && r < k < n && Touches(acts[k], id)
    ensures Bare(ss[n], id)
    decreases n
  {
    hide Enabled, Apply, Bare, Renaming;
    RunKeepsLocked(ss, acts, n - 1);
    if k < n - 1 { TouchedStaysBare(ss, acts, t, r, k, n - 1, id); }
    StepKeepsBare(ss[n - 1], acts[n - 1], t, id);
  }

  /** The step records a new import whose directory was deleted or saved over since the import's own rename. */
  ghost predicate RecordsTouched(ss: seq<State>, acts: seq<Action>, n: nat)
    requires Run(ss, acts) && n < |acts|
  {
    && acts[n].Record? && var t := acts[n].thread;
    && var id := ss[n].threads[t].target;
    && id !in ss[n].rows
    && exists r: nat, k: nat :: InWindow(ss, acts, t, r, n) && r < k < n && Touches(acts[k], id)
  }

  lemma RecordIsFaithfulIff(ss: seq<State>, acts: seq<Action>, n: nat)
    requires Run(ss, acts) && BuildsApart(ss, acts) && n < |acts| && acts[n].Record?
    requires ss[n].threads[acts[n].thread].target !in ss[n].rows
    ensures var p := ss[n].threads[acts[n].thread];
      !RecordsTouched(ss, acts, n) <==> p.target in ss[n].dirs && ss[n].dirs[p.target] == Extracted(p.digest.of)
  {
    hide Enabled, Apply;
    var t := acts[n].thread;
    RecordIsRenaming(ss[n], acts[n]);
    var p := ss[n].threads[t];
    RunKeepsSteady(ss, acts, n);
    assert Steady(ss[n], p);
    if RecordsTouched(ss, acts, n) {
      var r: nat, k: nat :| InWindow(ss, acts, t, r, n) && r < k < n && Touches(acts[k], p.target);
      TouchedStaysBare(ss, acts, t, r, k, n, p.target);
    } else {
      var r := WindowHistory(ss, acts, t, n);
      forall k | r + 1 <= k < n ensures acts[k] != Remove(p.target) && acts[k] != SaveOver(p.target) {
        assert !Touches(acts[k], p.target);
      }
      DirectoryForever(ss, acts, r + 1, n, p.target);
    }
  }

  lemma RecordIsRenaming(s: State, a: Action)
    requires Enabled(s, a) && a.Record?
    ensures Renaming(s, a.thread)
  {
  }

  /** A step other than a record changes no row; it loses the faithfulness of those it touches. */
  lemma OtherStepFaithfulIff(s: State, a: Action)
    requires RowsFaithful(s) && Enabled(s, a) && !a.Record?
    ensures RowsFaithful(Apply(s, a)) <==> !TouchesRow(s, a)
  {
    var s' := Apply(s, a);
    forall id | id in s.rows ensures Faithful(s', id) <==> !Touches(a, id) { assert Faithful(s, id); }
    assert s'.rows == s.rows;
  }

  lemma RecordStepFaithfulIff(s: State, a: Action)
    requires RowsFaithful(s) && Enabled(s, a) && a.Record?
    ensures var p := s.threads[a.thread];
      RowsFaithful(Apply(s, a)) <==>
        p.target in s.rows || (p.target in s.dirs && s.dirs[p.target] == Extracted(p.digest.of))
  {
    var p, s' := s.threads[a.thread], Apply(s, a);
    forall id | id in s.rows ensures Faithful(s', id) { assert Faithful(s, id); }
    assert s'.dirs == s.dirs && s'.rows == if p.target in s.rows then s.rows else s.rows[p.target := p.digest];
    assert p.target !in s.rows ==>
      (Faithful(s', p.target) <==> p.target in s.dirs && s.dirs[p.target] == Extracted(p.digest.of));
  }

  /** In every run without overlapping builds: a step from a state with faithful rows leads to one exactly when it
      neither deletes or saves over a recorded directory nor records a new import whose directory was deleted or saved
      over inside the window since its rename. */
  lemma FaithfulStepIff(ss: seq<State>, acts: seq<Action>, n: nat)
    requires Run(ss, acts) && BuildsApart(ss, acts) && n < |acts| && RowsFaithful(ss[n])
    ensures RowsFaithful(ss[n + 1]) <==>
      !TouchesRow(ss[n], acts[n]) && !RecordsTouched(ss, acts, n)
  {
    hide Apply, RowsFaithful;
    if acts[n].Record? {
      RecordStepFaithfulIff(ss[n], acts[n]);
      if ss[n].threads[acts[n].thread].target !in ss[n].rows { RecordIsFaithfulIff(ss, acts, n); }
    } else {
      OtherStepFaithfulIff(ss[n], acts[n]);
    }
  }

  // ----- Exactly when a record is faithful -----

  /** Thread `t` is importing since its hash at step `h`, up to step `n`. */
  ghost predicate ImportingSince(ss: seq<State>, acts: seq<Action>, t: Thread, h: nat, n: nat)
    requires |ss| == |acts| + 1
  {
    h < n < |ss| && acts[h].Hash? && acts[h].thread == t && forall k | h < k <= n :: t in ss[k].threads
  }

  /** What an import in progress knows comes from its own hash and its own extraction. */
  ghost predicate KnowsFrom(ss: seq<State>, acts: seq<Action>, t: Thread, h: nat, x: nat, n: nat)
    requires Run(ss, acts) && ImportingSince(ss, acts, t, h, n)
  {
    var p, path := ss[n].threads[t], acts[h].path;
    && p.target == acts[h].target && p.digest == Sha256(ss[h].artifacts[path])
    && (p.Hashed? || p.Inside? ==> p.path == path)
    && (p.Staged? || p.Renamed? ==>
          h < x < n && acts[x] == Extract(t) && path in ss[x].artifacts && p.blob == ss[x].artifacts[path])
  }

  lemma StepOfImport(s: State, a: Action, t: Thread)
    requires Enabled(s, a) && t in Apply(s, a).threads && !(a.Hash? && a.thread == t)
    ensures t in s.threads && !a.Crash?
    ensures var p, p' := s.threads[t], Apply(s, a).threads[t];
      && p'.target == p.target && p'.digest == p.digest
      && (p'.Hashed? || p'.Inside? ==> (p.Hashed? || p.Inside?) && p'.path == p.path)
      && (p'.Staged? || p'.Renamed? ==>
            if a == Extract(t) then p.Inside? && p.path in s.artifacts && p'.blob == s.artifacts[p.path]
            else (p.Staged? || p.Renamed?) && p'.blob == p.blob)
  {
  }

  lemma {:induction false} ImportHistory(ss: seq<State>, acts: seq<Action>, t: Thread, n: nat) returns (h: nat, x: nat)
    requires Run(ss, acts) && n < |ss| && t in ss[n].threads
    ensures ImportingSince(ss, acts, t, h, n) && KnowsFrom(ss, acts, t, h, x, n)
  {
    var a := acts[n - 1];
    if a.Hash? && a.thread == t {
      h, x := n - 1, 0;
    } else {
      StepOfImport(ss[n - 1], a, t);
      h, x := ImportHistory(ss, acts, t, n - 1);
      if a == Extract(t) { x := n - 1; }
    }
  }

  /** A record is faithful, from then on, exactly when the artifact file held the same bytes at the import's own hash
      and at its own extraction. */
  lemma FaithfulIffArtifactUnchanged(ss: seq<State>, acts: seq<Action>, n: nat, m: nat) returns (h: nat, x: nat)
    requires Run(ss, acts) && Undisturbed(ss, acts) && n < m < |ss| && acts[n].Record?
    ensures ImportingSince(ss, acts, acts[n].thread, h, n) && h < x < n && acts[x] == Extract(acts[n].thread)
    ensures var path, id := acts[h].path, acts[h].target;
      && path in ss[h].artifacts && path in ss[x].artifacts && id in ss[m].rows
      && (Faithful(ss[m], id) <==> ss[h].artifacts[path] == ss[x].artifacts[path])
  {
    var t := acts[n].thread;
    var p := ss[n].threads[t];
    h, x := ImportHistory(ss, acts, t, n);
    RunKeepsInv(ss, acts, n);
    assert ThreadOk(ss[n], t);
    SuccessHasProvenance(ss, acts, n, p.target, p.digest);
    RecordedForever(ss, acts, n + 1, m, p.target);
    RecordedDirectoryForever(ss, acts, n + 1, m, p.target);
    StepKeeps(ss[n], acts[n], p.target);
  }

  // ----- Runs that break it, and a run that mends it -----

  lemma Extended(ss: seq<State>, acts: seq<Action>, a: Action) returns (ss': seq<State>, acts': seq<Action>)
    requires Run(ss, acts) && Enabled(ss[|acts|], a)
    ensures Run(ss', acts') && acts' == acts + [a]
    ensures ss'[|acts'|] == Apply(ss[|acts|], a) && ss'[|acts|] == ss[|acts|]
    ensures Undisturbed(ss, acts) && !Disturbs(ss[|acts|], a) ==> Undisturbed(ss', acts')
    ensures BuildsApart(ss, acts) && !Overlaps(ss[|acts|], a) ==> BuildsApart(ss', acts')
    ensures RowsUntouched(ss, acts) && !TouchesRow(ss[|acts|], a) ==> RowsUntouched(ss', acts')
  {
    hide Enabled, Apply, Disturbs, Overlaps, TouchesRow;
    ss', acts' := ss + [Apply(ss[|acts|], a)], acts + [a];
  }

  /** An import that hashed its artifact runs to its end without interference. */
  lemma Finished(ss: seq<State>, acts: seq<Action>) returns (ss': seq<State>, acts': seq<Action>)
    requires Run(ss, acts)
    requires var s := ss[|acts|];
      && 0 in s.threads && s.threads[0].Hashed? && s.lock == None
      && s.threads[0].target !in s.dirs && s.threads[0].path in s.artifacts
    ensures Run(ss', acts') && (Undisturbed(ss, acts) ==> Undisturbed(ss', acts'))
    ensures BuildsApart(ss, acts) ==> BuildsApart(ss', acts')
    ensures var s, s' := ss[|acts|], ss'[|acts'|];
      var p := s.threads[0];
      && s'.threads == s.threads - {0} && s'.lock == None && s'.builds == s.builds && s'.artifacts == s.artifacts
      && s'.dirs == s.dirs[p.target := Extracted(s.artifacts[p.path])]
      && s'.rows == if Conflicts(s.rows, p.target, p.digest) then s.rows else s.rows[p.target := p.digest]
  {
    hide Run, Undisturbed, BuildsApart, RowsUntouched, TouchesRow;
    ss', acts' := Extended(ss, acts, Enter(0));
    ss', acts' := Extended(ss', acts', Extract(0));
    ss', acts' := Extended(ss', acts', Rename(0));
    ss', acts' := Extended(ss', acts', Record(0));
  }

  /** Two builds of one artifact that both saw no file there. */
  lemma TwoBuildsStarted() returns (ss: seq<State>, acts: seq<Action>)
    ensures Run(ss, acts) && Undisturbed(ss, acts)
    ensures ss[|acts|] == State(map[], map[], map[], map[1 := 0, 2 := 0], map[], None)
  {
    ss, acts := [State(map[], map[], map[], map[], map[], None)], [];
    assert Run(ss, acts) && Undisturbed(ss, acts);
    hide Run, Undisturbed, BuildsApart, RowsUntouched, TouchesRow, Overlaps;
    ss, acts := Extended(ss, acts, BuildStart(1, 0));
    ss, acts := Extended(ss, acts, BuildStart(2, 0));
  }

  /** An import hashes what the first build wrote, before the second one writes. */
  lemma OverlappingBuilds() returns (ss: seq<State>, acts: seq<Action>)
    ensures Run(ss, acts) && Undisturbed(ss, acts)
    ensures var s := ss[|acts|];
      && s.dirs == map[] && s.rows == map[] && s.lock == None && s.artifacts == map[0 := Blob(2)]
      && s.threads == map[0 := Hashed(5, 0, Sha256(Blob(1)))]
  {
    hide Run, Undisturbed, BuildsApart, RowsUntouched, TouchesRow, Overlaps;
    ss, acts := TwoBuildsStarted();
    ss, acts := Extended(ss, acts, BuildEnd(1, Blob(1)));
    ss, acts := Extended(ss, acts, Hash(0, 5, 0));
    ss, acts := Extended(ss, acts, BuildEnd(2, Blob(2)));
  }

  /** The second build then replaces the artifact between its hash and its extraction: the recorded digest is not that
      of the directory's content. */
  lemma OverlappingBuildsMisrecord() returns (ss: seq<State>, acts: seq<Action>)
    ensures Run(ss, acts) && Undisturbed(ss, acts)
    ensures exists id :: id in ss[|acts|].rows && !Faithful(ss[|acts|], id)
  {
    hide Run, Undisturbed, BuildsApart, RowsUntouched, TouchesRow;
    ss, acts := OverlappingBuilds();
    ss, acts := Finished(ss, acts);
    RunSteps(ss, acts);
    assert !Faithful(ss[|acts|], 5);
  }

  /** An import from an idle state. */
  lemma Imported(ss: seq<State>, acts: seq<Action>, id: MapId, path: ArtifactPath)
    returns (ss': seq<State>, acts': seq<Action>)
    requires Run(ss, acts)
    requires var s := ss[|acts|]; Idle(s) && path in s.artifacts && id !in s.dirs
    ensures Run(ss', acts') && (Undisturbed(ss, acts) ==> Undisturbed(ss', acts'))
    ensures BuildsApart(ss, acts) ==> BuildsApart(ss', acts')
    ensures var s, s' := ss[|acts|], ss'[|acts'|];
      var blob := s.artifacts[path];
      && Idle(s') && s'.artifacts == s.artifacts && s'.dirs == s.dirs[id := Extracted(blob)]
      && s'.rows == if Conflicts(s.rows, id, Sha256(blob)) then s.rows else s.rows[id := Sha256(blob)]
  {
    hide Run, Undisturbed, BuildsApart, RowsUntouched, TouchesRow;
    ss', acts' := Extended(ss, acts, Hash(0, id, path));
    ss', acts' := Finished(ss', acts');
  }

  /** An import up to its extraction. */
  lemma StagedRun() returns (ss: seq<State>, acts: seq<Action>)
    ensures Run(ss, acts) && BuildsApart(ss, acts) && RowsUntouched(ss, acts)
    ensures ss[|acts|]
         == State(map[], map[], map[0 := Blob(1)], map[], map[0 := Staged(5, Sha256(Blob(1)), Blob(1))], Some(0))
  {
    ss, acts := [State(map[], map[], map[0 := Blob(1)], map[], map[], None)], [];
    assert Run(ss, acts) && BuildsApart(ss, acts) && RowsUntouched(ss, acts);
    hide Run, Undisturbed, BuildsApart, RowsUntouched, Disturbs;
    ss, acts := Extended(ss, acts, Hash(0, 5, 0));
    ss, acts := Extended(ss, acts, Enter(0));
    ss, acts := Extended(ss, acts, Extract(0));
  }

  /** Its directory is deleted inside its window. */
  lemma TouchedWindow() returns (ss: seq<State>, acts: seq<Action>)
    ensures Run(ss, acts) && BuildsApart(ss, acts) && RowsUntouched(ss, acts)
    ensures var s := ss[|acts|];
      && s.dirs == map[] && s.rows == map[] && s.lock == Some(0)
      && s.threads == map[0 := Renamed(5, Sha256(Blob(1)), Blob(1))]
  {
    hide Run, Undisturbed, BuildsApart, RowsUntouched, Disturbs;
    ss, acts := StagedRun();
    ss, acts := Extended(ss, acts, Rename(0));
    ss, acts := Extended(ss, acts, Remove(5));
  }

  /** The record is made all the same, for a directory that is not there; no recorded directory was ever touched. */
  lemma TouchedWindowMisrecords() returns (ss: seq<State>, acts: seq<Action>)
    ensures Run(ss, acts) && BuildsApart(ss, acts) && RowsUntouched(ss, acts)
    ensures |acts| > 0 && RecordsTouched(ss, acts, |acts| - 1)
    ensures RowsFaithful(ss[|acts| - 1]) && !RowsFaithful(ss[|acts|])
  {
    hide Run, Undisturbed, BuildsApart, RowsUntouched, Disturbs, RecordsTouched;
    ss, acts := TouchedWindow();
    ss, acts := Extended(ss, acts, Record(0));
    RunSteps(ss, acts);
    assert !Faithful(ss[|acts|], 5);
    FaithfulStepIff(ss, acts, |acts| - 1);
  }

  /** The way out of the window: in every run, once an orphan is deleted, which disturbs nothing, the artifact can be
      imported and its record is faithful. */
  lemma DeletedOrphanCanBeImported(ss: seq<State>, acts: seq<Action>, id: MapId, path: ArtifactPath)
    returns (ss': seq<State>, acts': seq<Action>)
    requires Run(ss, acts) && Undisturbed(ss, acts)
    requires var s := ss[|acts|]; Idle(s) && Orphan(s, id) && path in s.artifacts
    ensures Run(ss', acts') && Undisturbed(ss', acts')
    ensures id in ss'[|acts'|].rows && ss'[|acts'|].rows[id] == Sha256(ss[|acts|].artifacts[path])
    ensures Faithful(ss'[|acts'|], id)
  {
    hide Run, Undisturbed, BuildsApart, RowsUntouched, TouchesRow;
    ss', acts' := Extended(ss, acts, Remove(id));
    ss', acts' := Imported(ss', acts', id, path);
  }

  /** After someone deletes a recorded directory, an import of another artifact leaves its content there although it
      fails: the row still names the first one. */
  lemma DeletedDirectoryIsRefilled(id: MapId) returns (ss: seq<State>, acts: seq<Action>)
    ensures Run(ss, acts) && BuildsApart(ss, acts)
    ensures var s := ss[|acts|];
      && Idle(s) && s.artifacts == map[0 := Blob(1), 1 := Blob(2)]
      && s.dirs == map[id := Extracted(Blob(2))] && s.rows == map[id := Sha256(Blob(1))]
  {
    ss, acts := [State(map[], map[], map[0 := Blob(1), 1 := Blob(2)], map[], map[], None)], [];
    assert Run(ss, acts) && BuildsApart(ss, acts);
    hide Run, Undisturbed, BuildsApart, RowsUntouched, TouchesRow;
    ss, acts := Imported(ss, acts, id, 0);
    ss, acts := Extended(ss, acts, Remove(id));
    ss, acts := Imported(ss, acts, id, 1);
  }

  /** A later import of the first artifact is then reported as already contained, which it is not. */
  lemma DeletedDirectoryMisreports() returns (ss: seq<State>, acts: seq<Action>, id: MapId, digest: Digest)
    ensures Run(ss, acts) && BuildsApart(ss, acts) && |acts| > 0
    ensures var n := |acts| - 1;
      && Succeeds(ss[n], acts[n], id, digest)
      && id in ss[n + 1].dirs && ss[n + 1].dirs[id] != Extracted(digest.of)
  {
    id, digest := 5, Sha256(Blob(1));
    ss, acts := DeletedDirectoryIsRefilled(id);
    hide Run, Undisturbed, BuildsApart, RowsUntouched, TouchesRow;
    ss, acts := Extended(ss, acts, Hash(0, id, 0));
    ss, acts := Extended(ss, acts, Enter(0));
    ss, acts := Extended(ss, acts, Reuse(0));
    RunSteps(ss, acts);
  }

  lemma RunSteps(ss: seq<State>, acts: seq<Action>)
    requires Run(ss, acts)
    ensures |ss| == |acts| + 1 && forall n | 0 <= n < |acts| :: Enabled(ss[n], acts[n])
  {
  }
}
