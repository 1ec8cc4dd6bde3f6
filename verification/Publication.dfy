/** Immutable metadata publication (crates/dnfast-cache/src/publication.rs and loading.rs): objects are
    staged file by file, renamed into place, then pointed at, by any number of publishers that may
    each stop after any step. */
module Publication {
  import opened Bytes
  import PrimaryFiles

  type Text = seq<Byte>
  /** The functions whose inside is not modelled: the hash, the primary and filelists records of a repomd
      document, what a selected origin looks like, and how many packages an identity listing has. */
  datatype Library = Library(
    sha: seq<Byte> -> Text,
    records: seq<Byte> -> Option<(FileRecord, FileRecord)>,
    isOrigin: seq<Byte> -> bool,
    identities: seq<Byte> -> Option<nat>)

  datatype Role = RepoId | Repomd | Primary | SearchIndex | Filelists | Identities | PrimaryFileRecords | Origin

  datatype Integrity = SearchOnly | CompleteMetadata

  datatype FileRecord = FileRecord(sha256: Text, size: nat)

  datatype Manifest = Manifest(integrity: Integrity, records: map<Role, FileRecord>)

  /** An object directory: its files, and its manifest once that is written. */
  datatype Object = Object(files: map<Role, seq<Byte>>, manifest: Option<Manifest>)

  /** What a publisher was given. Only the complete publishers have filelists, identities and primary file
      records; the fast one, which has validated them on the way, is `fast`. */
  datatype Input = Input(
    repository: Text,
    repomd: seq<Byte>,
    primary: seq<Byte>,
    searchIndex: seq<Byte>,
    complete: Option<(seq<Byte>, seq<Byte>, seq<Byte>)>,
    origin: Option<seq<Byte>>,
    authentication: nat,
    fast: bool)

  function IntegrityOf(input: Input): Integrity { if input.complete.Some? then CompleteMetadata else SearchOnly }

  /** The files `write_object` writes, in its order. */
  function StagedFiles(input: Input): seq<(Role, seq<Byte>)> {
    [(RepoId, input.repository), (Repomd, input.repomd), (Primary, input.primary), (SearchIndex, input.searchIndex)]
    + (if input.complete.Some? then
         [(Filelists, input.complete.value.0), (Identities, input.complete.value.1),
          (PrimaryFileRecords, input.complete.value.2)]
       else [])
    + (if input.origin.Some? then [(Origin, input.origin.value)] else [])
  }

  function Collect(files: seq<(Role, seq<Byte>)>): map<Role, seq<Byte>> {
    if files == [] then map[] else Collect(files[..|files| - 1])[files[|files| - 1].0 := files[|files| - 1].1]
  }

  function ManifestOf(lib: Library, integrity: Integrity, files: map<Role, seq<Byte>>): Manifest {
    Manifest(integrity, map r | r in files :: FileRecord(lib.sha(files[r]), |files[r]|))
  }

  datatype Pointer = Pointer(digest: Text, authentication: nat)

  // ---------------------------------------------------------------- the reader's acceptance

  /** The roles `validate_manifest` asks for. */
  predicate RightRoles(integrity: Integrity, roles: set<Role>) {
    {RepoId, Repomd, Primary, SearchIndex} <= roles &&
    match integrity
    case SearchOnly => roles !! {Filelists, Identities, PrimaryFileRecords}
    case CompleteMetadata => {Filelists, Identities, PrimaryFileRecords} <= roles
  }

  /** What opening an object by its digest verifies: the manifest lists exactly the files that are
      there, every file has its recorded size and hash, and the repomd hashes to the digest. */
  predicate Loads(lib: Library, digest: Text, o: Object) {
    o.manifest.Some? &&
    var m := o.manifest.value;
    && RightRoles(m.integrity, o.files.Keys)
    && m.records.Keys == o.files.Keys
    && (forall r :: r in o.files ==> m.records[r] == FileRecord(lib.sha(o.files[r]), |o.files[r]|))
    && lib.sha(o.files[Repomd]) == digest
  }

  /** The record of these bytes. */
  function RecordOf(lib: Library, bytes: seq<Byte>): FileRecord { FileRecord(lib.sha(bytes), |bytes|) }

  /** `open_verified_complete_generation`: a complete object with a selected origin, whose primary and
      filelists are the ones its repomd records and whose primary file projection is valid. */
  predicate Verifies(lib: Library, digest: Text, o: Object) {
    && Loads(lib, digest, o) && o.manifest.value.integrity == CompleteMetadata
    && Consistent(lib, o.files[Repomd], o.files[Primary], o.files[Filelists], o.files[Identities],
                  o.files[PrimaryFileRecords], if Origin in o.files then Some(o.files[Origin]) else None)
  }

  predicate Consistent(lib: Library, repomd: seq<Byte>, primary: seq<Byte>, filelists: seq<Byte>, identities: seq<Byte>,
                       primaryFiles: seq<Byte>, origin: Option<seq<Byte>>)
  {
    && origin.Some? && lib.isOrigin(origin.value)
    && lib.records(repomd) == Some((RecordOf(lib, primary), RecordOf(lib, filelists)))
    && lib.identities(identities).Some? && PrimaryFiles.Accepts(primaryFiles, lib.identities(identities).value)
  }

  // ---------------------------------------------------------------- publishers

  datatype Result = Published(input: Input, digest: Text) | NotReused | Failed

  datatype Pc =
    | CheckObject(input: Input)
    | StageFile(input: Input, written: nat)
    | StageManifest(input: Input)
    | RenameObject(input: Input)
    | OpenObject(input: Input)
    | OpenIndex(input: Input)
    | ReadPointer(input: Input)
    | OpenReused(input: Input)
    | CheckReused(input: Input)
    | WritePointer(input: Input, digest: Text)
    | Done(result: Result)

  /** `objects` by digest, `current` by the hash of the repository id, and one private staging
      directory per publisher. */
  datatype System = System(
    objects: map<Text, Object>,
    current: map<Text, Pointer>,
    staging: map<nat, Object>,
    processes: map<nat, Pc>)

  /** One step of publisher `p`. `fs'` is `fs` with the new objects, pointers and staging. */
  ghost predicate ProcessStep(lib: Library, p: nat, fs: System, pc: Pc, fs': System, pc': Pc) {
    || (!pc.Done? && fs' == fs && pc' == Done(Failed))
    || StageStep(lib, p, fs, pc, fs', pc')
    || PublishStep(lib, p, fs, pc, fs', pc')
  }

  /** `write_object` up to the rename. */
  ghost predicate StageStep(lib: Library, p: nat, fs: System, pc: Pc, fs': System, pc': Pc) {
    match pc
    case CheckObject(input) =>
      if lib.sha(input.repomd) in fs.objects then fs' == fs && pc' == OpenObject(input)
      else fs' == fs.(staging := fs.staging[p := Object(map[], None)]) && pc' == StageFile(input, 0)
    case StageFile(input, k) =>
      var files := StagedFiles(input);
      if k < |files| then
        p in fs.staging &&
        fs' == fs.(staging := fs.staging[p := Object(fs.staging[p].files[files[k].0 := files[k].1], None)]) &&
        pc' == StageFile(input, k + 1)
      else fs' == fs && pc' == StageManifest(input)
    case StageManifest(input) =>
      p in fs.staging &&
      fs' == fs.(staging := fs.staging[p := Object(fs.staging[p].files,
                   Some(ManifestOf(lib, IntegrityOf(input), fs.staging[p].files)))]) &&
      pc' == RenameObject(input)
    case _ => false
  }

  /** From the rename to the pointer. A rename onto an existing object fails; the publisher then has to
      accept the object that won. */
  ghost predicate PublishStep(lib: Library, p: nat, fs: System, pc: Pc, fs': System, pc': Pc) {
    match pc
    case RenameObject(input) =>
      p in fs.staging &&
      var digest := lib.sha(input.repomd);
      if digest in fs.objects then fs' == fs && pc' == OpenObject(input)
      else fs' == fs.(objects := fs.objects[digest := fs.staging[p]], staging := fs.staging - {p}) &&
           pc' == WritePointer(input, digest)
    case OpenObject(input) =>
      var digest := lib.sha(input.repomd);
      fs' == fs && pc' == (
        if input.fast && input.complete.Some? then
          if digest in fs.objects && Verifies(lib, digest, fs.objects[digest]) then OpenIndex(input) else Done(Failed)
        else if digest in fs.objects && Loads(lib, digest, fs.objects[digest]) &&
           fs.objects[digest].files[RepoId] == input.repository &&
           fs.objects[digest].manifest.value.integrity == IntegrityOf(input)
        then WritePointer(input, digest) else Done(Failed))
    case OpenIndex(input) =>
      var digest := lib.sha(input.repomd);
      fs' == fs && pc' == (
        if digest in fs.objects && Loads(lib, digest, fs.objects[digest]) &&
           fs.objects[digest].files[RepoId] == input.repository &&
           fs.objects[digest].files[SearchIndex] == input.searchIndex
        then WritePointer(input, digest) else Done(Failed))
    case ReadPointer(input) =>
      var key, digest := lib.sha(input.repository), lib.sha(input.repomd);
      fs' == fs && pc' == (
        if key !in fs.current || fs.current[key].digest != digest then Done(NotReused) else OpenReused(input))
    case OpenReused(input) =>
      var digest := lib.sha(input.repomd);
      fs' == fs && pc' == (
        if digest in fs.objects && Verifies(lib, digest, fs.objects[digest]) then CheckReused(input) else Done(Failed))
    case CheckReused(input) =>
      var digest := lib.sha(input.repomd);
      fs' == fs && pc' == (
        if digest in fs.objects && Loads(lib, digest, fs.objects[digest]) &&
           fs.objects[digest].files[RepoId] == input.repository && fs.objects[digest].files[Repomd] == input.repomd
        then WritePointer(input, digest) else Done(Failed))
    case WritePointer(input, digest) =>
      fs' == fs.(current := fs.current[lib.sha(input.repository) := Pointer(digest, input.authentication)]) &&
      pc' == Done(Published(input, digest))
    case _ => false
  }

  /** A call begins: publishing, or reusing the current generation of a repository. */
  predicate Begins(pc: Pc) { pc.CheckObject? || (pc.ReadPointer? && pc.input.complete.Some?) }

  /** A new publisher appears. */
  predicate Arrives(s: System, s': System, p: nat, pc: Pc) {
    p !in s.processes && Begins(pc) && s' == s.(processes := s.processes[p := pc])
  }

  /** Publisher `p` makes one step. */
  ghost predicate Moves(lib: Library, s: System, s': System, p: nat, pc': Pc) {
    && p in s.processes && s'.processes == s.processes[p := pc']
    && ProcessStep(lib, p, s, s.processes[p], s'.(processes := s.processes), pc')
  }

  ghost predicate Next(lib: Library, s: System, s': System) {
    || (exists p: nat, pc :: Arrives(s, s', p, pc))
    || (exists p: nat, pc' :: Moves(lib, s, s', p, pc'))
  }

  predicate Initial(s: System) {
    s.objects == map[] && s.current == map[] && s.staging == map[] && s.processes == map[]
  }

  ghost predicate Run(lib: Library, run: seq<System>) {
    run != [] && Initial(run[0]) && forall i :: 0 <= i < |run| - 1 ==> Next(lib, run[i], run[i + 1])
  }

  // ---------------------------------------------------------------- invariant

  /** The object under this digest is completely written and belongs to this repository. */
  predicate Belongs(lib: Library, objects: map<Text, Object>, digest: Text, repository: Text) {
    digest in objects && Loads(lib, digest, objects[digest]) && objects[digest].files[RepoId] == repository
  }

  /** The pointer of the directory `key` names a complete object of a repository with that key. */
  ghost predicate PointsWell(lib: Library, objects: map<Text, Object>, key: Text, pointer: Pointer) {
    exists r :: lib.sha(r) == key && Belongs(lib, objects, pointer.digest, r)
  }

  predicate Accepted(lib: Library, objects: map<Text, Object>, input: Input, digest: Text) {
    digest == lib.sha(input.repomd) && Belongs(lib, objects, digest, input.repository) &&
    objects[digest].manifest.value.integrity == IntegrityOf(input)
  }

  function Finished(lib: Library, input: Input): Object {
    var files := Collect(StagedFiles(input));
    Object(files, Some(ManifestOf(lib, IntegrityOf(input), files)))
  }

  predicate Stages(staging: map<nat, Object>, p: nat, o: Object) { p in staging && staging[p] == o }

  /** The object of this input's digest passed the verified reader. */
  predicate IsVerified(lib: Library, objects: map<Text, Object>, input: Input) {
    var digest := lib.sha(input.repomd); digest in objects && Verifies(lib, digest, objects[digest])
  }

  predicate PcInvariant(lib: Library, objects: map<Text, Object>, staging: map<nat, Object>, p: nat, pc: Pc) {
    match pc
    case StageFile(input, k) =>
      k <= |StagedFiles(input)| && Stages(staging, p, Object(Collect(StagedFiles(input)[..k]), None))
    case StageManifest(input) => Stages(staging, p, Object(Collect(StagedFiles(input)), None))
    case RenameObject(input) => Stages(staging, p, Finished(lib, input))
    case OpenIndex(input) => input.complete.Some? && IsVerified(lib, objects, input)
    case ReadPointer(input) => input.complete.Some?
    case OpenReused(input) => input.complete.Some?
    case CheckReused(input) => input.complete.Some? && IsVerified(lib, objects, input)
    case WritePointer(input, digest) => Accepted(lib, objects, input, digest)
    case Done(Published(input, digest)) => Accepted(lib, objects, input, digest)
    case _ => true
  }

  predicate ObjectsLoad(lib: Library, objects: map<Text, Object>) {
    forall d :: d in objects ==> Loads(lib, d, objects[d])
  }

  ghost predicate PointersWell(lib: Library, objects: map<Text, Object>, current: map<Text, Pointer>) {
    forall k :: k in current ==> PointsWell(lib, objects, k, current[k])
  }

  ghost predicate Invariant(lib: Library, s: System) {
    && ObjectsLoad(lib, s.objects)
    && PointersWell(lib, s.objects, s.current)
    && (forall p :: p in s.processes ==> PcInvariant(lib, s.objects, s.staging, p, s.processes[p]))
  }

  /** Objects are only ever added. */
  predicate Extends(objects: map<Text, Object>, objects': map<Text, Object>) {
    forall d :: d in objects ==> d in objects' && objects'[d] == objects[d]
  }

  /** Only the staging directory of `p` may differ. */
  predicate OthersKept(p: nat, staging: map<nat, Object>, staging': map<nat, Object>) {
    forall q :: q != p && q in staging ==> q in staging' && staging'[q] == staging[q]
  }

  // ---------------------------------------------------------------- preservation

  lemma CollectGrows(files: seq<(Role, seq<Byte>)>, k: nat)
    requires k < |files|
    ensures Collect(files[..k + 1]) == Collect(files[..k])[files[k].0 := files[k].1]
  {
    assert files[..k + 1][..k] == files[..k];
  }

  predicate DistinctRoles(files: seq<(Role, seq<Byte>)>) {
    forall i, j :: 0 <= i < j < |files| ==> files[i].0 != files[j].0
  }

  /** The files written so far are exactly the first `k`. */
  lemma {:induction false} CollectedIs(files: seq<(Role, seq<Byte>)>, k: nat)
    requires k <= |files| && DistinctRoles(files)
    ensures var c := Collect(files[..k]);
            (forall i :: 0 <= i < k ==> files[i].0 in c && c[files[i].0] == files[i].1) &&
            (forall r :: r in c ==> exists i :: 0 <= i < k && files[i].0 == r)
  {
    if k > 0 {
      CollectedIs(files, k - 1);
      CollectGrows(files, k - 1);
    }
  }

  lemma StagedRoles(input: Input)
    ensures DistinctRoles(StagedFiles(input))
    ensures forall i :: 0 <= i < |StagedFiles(input)| && input.complete.None? ==>
              StagedFiles(input)[i].0 !in {Filelists, Identities, PrimaryFileRecords}
  {
  }

  lemma FinishedContent(input: Input)
    ensures var files, c := StagedFiles(input), Collect(StagedFiles(input));
            (forall i :: 0 <= i < |files| ==> files[i].0 in c && c[files[i].0] == files[i].1) &&
            (forall r :: r in c ==> exists i :: 0 <= i < |files| && files[i].0 == r)
  {
    var files := StagedFiles(input);
    StagedRoles(input);
    CollectedIs(files, |files|);
    assert files[..|files|] == files;
  }

  lemma FinishedRoles(input: Input)
    ensures var c := Collect(StagedFiles(input));
            RightRoles(IntegrityOf(input), c.Keys) && c[RepoId] == input.repository && c[Repomd] == input.repomd
  {
    var files, c := StagedFiles(input), Collect(StagedFiles(input));
    FinishedContent(input);
    StagedRoles(input);
    assert files[0] == (RepoId, input.repository) && files[1] == (Repomd, input.repomd);
    assert files[2].0 == Primary && files[3].0 == SearchIndex;
    if input.complete.Some? {
      assert files[4].0 == Filelists && files[5].0 == Identities && files[6].0 == PrimaryFileRecords;
    }
  }

  /** A finished staging directory is one the reader accepts. */
  lemma FinishedLoads(lib: Library, input: Input)
    ensures Loads(lib, lib.sha(input.repomd), Finished(lib, input))
    ensures Finished(lib, input).files[RepoId] == input.repository
  {
    FinishedRoles(input);
    var o := Finished(lib, input);
    assert o.manifest.value.records.Keys == o.files.Keys;
  }

  lemma StageKeeps(lib: Library, p: nat, s: System, pc: Pc, s': System, pc': Pc)
    requires PcInvariant(lib, s.objects, s.staging, p, pc) && StageStep(lib, p, s, pc, s', pc')
    ensures s'.objects == s.objects && s'.current == s.current && OthersKept(p, s.staging, s'.staging)
    ensures PcInvariant(lib, s'.objects, s'.staging, p, pc')
  {
    match pc
    case CheckObject(input) =>
      assert StagedFiles(input)[..0] == [];
    case StageFile(input, k) =>
      var files := StagedFiles(input);
      if k < |files| {
        CollectGrows(files, k);
      } else {
        assert files[..k] == files;
      }
    case _ =>
  }

  lemma PointersStable(lib: Library, objects: map<Text, Object>, objects': map<Text, Object>, current: map<Text, Pointer>)
    requires PointersWell(lib, objects, current) && Extends(objects, objects')
    ensures PointersWell(lib, objects', current)
  {
    forall k | k in current ensures PointsWell(lib, objects', k, current[k]) {
      var r :| lib.sha(r) == k && Belongs(lib, objects, current[k].digest, r);
      assert Belongs(lib, objects', current[k].digest, r);
    }
  }

  /** What a step of publisher `p` owes everyone: published objects stay, other staging is left alone, and
      objects, pointers and its own place are as the invariant wants them. */
  ghost predicate Keeps(lib: Library, p: nat, s: System, s': System, pc': Pc) {
    && Extends(s.objects, s'.objects) && OthersKept(p, s.staging, s'.staging)
    && ObjectsLoad(lib, s'.objects) && PointersWell(lib, s'.objects, s'.current)
    && PcInvariant(lib, s'.objects, s'.staging, p, pc')
  }

  lemma ObjectAdded(lib: Library, objects: map<Text, Object>, digest: Text, o: Object)
    requires ObjectsLoad(lib, objects) && digest !in objects && Loads(lib, digest, o)
    ensures ObjectsLoad(lib, objects[digest := o]) && Extends(objects, objects[digest := o])
  {
  }

  lemma RenameKeeps(lib: Library, p: nat, s: System, input: Input, s': System, pc': Pc)
    requires ObjectsLoad(lib, s.objects) && PointersWell(lib, s.objects, s.current)
    requires Stages(s.staging, p, Finished(lib, input)) && PublishStep(lib, p, s, RenameObject(input), s', pc')
    ensures Keeps(lib, p, s, s', pc')
  {
    var digest := lib.sha(input.repomd);
    if digest !in s.objects {
      FinishedLoads(lib, input);
      ObjectAdded(lib, s.objects, digest, Finished(lib, input));
      PointersStable(lib, s.objects, s'.objects, s.current);
      assert Belongs(lib, s'.objects, digest, input.repository);
    }
  }

  predicate OnlyLooks(pc: Pc) { pc.OpenObject? || pc.OpenIndex? || pc.ReadPointer? || pc.OpenReused? || pc.CheckReused? }

  /** The steps that only look at an object decide exactly what the replacement of `current` relies on. */
  lemma LookKeeps(lib: Library, p: nat, s: System, pc: Pc, s': System, pc': Pc)
    requires OnlyLooks(pc) && PublishStep(lib, p, s, pc, s', pc')
    requires PcInvariant(lib, s.objects, s.staging, p, pc)
    requires ObjectsLoad(lib, s.objects) && PointersWell(lib, s.objects, s.current)
    ensures s' == s && Keeps(lib, p, s, s', pc')
  {
    LookDecides(lib, p, s, pc, s', pc');
  }

  lemma LookDecides(lib: Library, p: nat, s: System, pc: Pc, s': System, pc': Pc)
    requires OnlyLooks(pc) && PublishStep(lib, p, s, pc, s', pc')
    requires PcInvariant(lib, s.objects, s.staging, p, pc)
    ensures s' == s && PcInvariant(lib, s.objects, s.staging, p, pc')
  {
  }

  lemma PointKeeps(lib: Library, p: nat, s: System, input: Input, digest: Text, s': System, pc': Pc)
    requires ObjectsLoad(lib, s.objects) && PointersWell(lib, s.objects, s.current)
    requires Accepted(lib, s.objects, input, digest)
    requires PublishStep(lib, p, s, WritePointer(input, digest), s', pc')
    ensures Keeps(lib, p, s, s', pc')
  {
    var key, pointer := lib.sha(input.repository), Pointer(digest, input.authentication);
    assert PointsWell(lib, s.objects, key, pointer);
    forall k | k in s'.current ensures PointsWell(lib, s.objects, k, s'.current[k]) {
      if k != key {
        assert s'.current[k] == s.current[k];
      }
    }
  }

  lemma PublishKeeps(lib: Library, p: nat, s: System, pc: Pc, s': System, pc': Pc)
    requires ObjectsLoad(lib, s.objects) && PointersWell(lib, s.objects, s.current)
    requires PcInvariant(lib, s.objects, s.staging, p, pc) && PublishStep(lib, p, s, pc, s', pc')
    ensures Keeps(lib, p, s, s', pc')
  {
    if pc.RenameObject? {
      RenameKeeps(lib, p, s, pc.input, s', pc');
    } else if pc.WritePointer? {
      PointKeeps(lib, p, s, pc.input, pc.digest, s', pc');
    } else {
      LookKeeps(lib, p, s, pc, s', pc');
    }
  }

  lemma PcInvariantStable(lib: Library, s: System, s': System, p: nat, q: nat, pc: Pc)
    requires PcInvariant(lib, s.objects, s.staging, q, pc) && q != p
    requires Extends(s.objects, s'.objects) && OthersKept(p, s.staging, s'.staging)
    ensures PcInvariant(lib, s'.objects, s'.staging, q, pc)
  {
  }

  lemma StepKeeps(lib: Library, p: nat, s: System, s': System, pc': Pc)
    requires Invariant(lib, s) && Moves(lib, s, s', p, pc')
    ensures Invariant(lib, s') && Extends(s.objects, s'.objects)
  {
    var pc, t := s.processes[p], s'.(processes := s.processes);
    assert PcInvariant(lib, s.objects, s.staging, p, pc);
    if StageStep(lib, p, s, pc, t, pc') {
      StageKeeps(lib, p, s, pc, t, pc');
    } else if PublishStep(lib, p, s, pc, t, pc') {
      PublishKeeps(lib, p, s, pc, t, pc');
    }
    forall q | q in s'.processes ensures PcInvariant(lib, s'.objects, s'.staging, q, s'.processes[q]) {
      if q != p {
        PcInvariantStable(lib, s, s', p, q, s.processes[q]);
      }
    }
  }

  lemma ArriveKeeps(lib: Library, s: System, s': System, p: nat, pc: Pc)
    requires Invariant(lib, s) && Arrives(s, s', p, pc)
    ensures Invariant(lib, s') && Extends(s.objects, s'.objects)
  {
    forall q | q in s'.processes ensures PcInvariant(lib, s'.objects, s'.staging, q, s'.processes[q]) {
      if q != p {
        assert PcInvariant(lib, s.objects, s.staging, q, s.processes[q]);
      }
    }
  }

  lemma NextKeeps(lib: Library, s: System, s': System)
    requires Invariant(lib, s) && Next(lib, s, s')
    ensures Invariant(lib, s') && Extends(s.objects, s'.objects)
  {
    if p: nat, pc :| Arrives(s, s', p, pc) {
      ArriveKeeps(lib, s, s', p, pc);
    } else {
      var p: nat, pc' :| Moves(lib, s, s', p, pc');
      StepKeeps(lib, p, s, s', pc');
    }
  }

  lemma {:induction false} RunKeeps(lib: Library, run: seq<System>, n: nat)
    requires Run(lib, run) && n < |run|
    ensures Invariant(lib, run[n])
  {
    if n > 0 {
      RunKeeps(lib, run, n - 1);
      NextKeeps(lib, run[n - 1], run[n]);
    }
  }

  lemma StepExtends(lib: Library, run: seq<System>, n: nat)
    requires Run(lib, run) && n + 1 < |run|
    ensures Extends(run[n].objects, run[n + 1].objects)
  {
    RunKeeps(lib, run, n);
    assert Next(lib, run[n], run[n + 1]);
    NextKeeps(lib, run[n], run[n + 1]);
  }

  lemma {:induction false} GrowthAccumulates(run: seq<System>, m: nat, n: nat)
    requires forall i :: 0 <= i < |run| - 1 ==> Extends(run[i].objects, run[i + 1].objects)
    requires m <= n < |run|
    ensures Extends(run[m].objects, run[n].objects)
  {
    if m < n {
      GrowthAccumulates(run, m, n - 1);
      assert Extends(run[n - 1].objects, run[n - 1 + 1].objects);
      ExtendsTransitive(run[m].objects, run[n - 1].objects, run[n].objects);
    }
  }

  /** The first object published for a digest never changes, whoever else publishes it. */
  lemma ObjectsAreImmutable(lib: Library, run: seq<System>, m: nat, n: nat)
    requires Run(lib, run) && m <= n < |run|
    ensures Extends(run[m].objects, run[n].objects)
  {
    forall i | 0 <= i < |run| - 1 ensures Extends(run[i].objects, run[i + 1].objects) {
      StepExtends(lib, run, i);
    }
    GrowthAccumulates(run, m, n);
  }

  lemma ExtendsTransitive(a: map<Text, Object>, b: map<Text, Object>, c: map<Text, Object>)
    requires Extends(a, b) && Extends(b, c)
    ensures Extends(a, c)
  {
  }

  /** Whatever a repository's `current` names can be opened and belongs to that repository, in every
      reachable state. Repository directories are named by hash, so no stored repository id may collide with this one. */
  lemma CurrentIsComplete(lib: Library, run: seq<System>, n: nat, repository: Text)
    requires Run(lib, run) && n < |run|
    requires forall d :: d in run[n].objects && RepoId in run[n].objects[d].files ==>
               lib.sha(run[n].objects[d].files[RepoId]) == lib.sha(repository) ==> run[n].objects[d].files[RepoId] == repository
    requires lib.sha(repository) in run[n].current
    ensures Belongs(lib, run[n].objects, run[n].current[lib.sha(repository)].digest, repository)
  {
    RunKeeps(lib, run, n);
    var key := lib.sha(repository);
    assert PointsWell(lib, run[n].objects, key, run[n].current[key]);
    var r :| lib.sha(r) == key && Belongs(lib, run[n].objects, run[n].current[key].digest, r);
    assert r == repository;
  }

  lemma CompleteFiles(input: Input)
    requires input.complete.Some?
    ensures var c := Collect(StagedFiles(input));
            && {Repomd, Primary, Filelists, Identities, PrimaryFileRecords} <= c.Keys
            && c[Repomd] == input.repomd && c[Primary] == input.primary && c[Filelists] == input.complete.value.0
            && c[Identities] == input.complete.value.1 && c[PrimaryFileRecords] == input.complete.value.2
            && (if Origin in c then Some(c[Origin]) else None) == input.origin
  {
    FinishedContent(input);
    var files := StagedFiles(input);
    assert files[1] == (Repomd, input.repomd) && files[2] == (Primary, input.primary);
    assert files[4] == (Filelists, input.complete.value.0) && files[5] == (Identities, input.complete.value.1);
    assert files[6] == (PrimaryFileRecords, input.complete.value.2);
    if input.origin.Some? {
      assert files[7] == (Origin, input.origin.value);
    } else {
      assert |files| == 7;
    }
  }

  /** A finished staging directory passes the verified reader exactly if what was published is consistent: the
      origin is there, primary and filelists are the recorded ones, and the projection is valid. */
  lemma FinishedVerifies(lib: Library, input: Input)
    requires input.complete.Some?
    ensures Verifies(lib, lib.sha(input.repomd), Finished(lib, input)) <==>
              Consistent(lib, input.repomd, input.primary, input.complete.value.0, input.complete.value.1,
                         input.complete.value.2, input.origin)
  {
    FinishedLoads(lib, input);
    CompleteFiles(input);
  }

  /** ... and the projection the publisher encodes is valid whenever its ordinals are below the package count. */
  lemma EncodedProjectionIsConsistent(lib: Library, input: Input, records: seq<PrimaryFiles.Record>)
    requires input.complete.Some? && input.origin.Some? && lib.isOrigin(input.origin.value)
    requires lib.records(input.repomd) == Some((RecordOf(lib, input.primary), RecordOf(lib, input.complete.value.0)))
    requires lib.identities(input.complete.value.1).Some?
    requires PrimaryFiles.AreRecords(records) && PrimaryFiles.OrdinalsBelow(records, lib.identities(input.complete.value.1).value)
    requires input.complete.value.2 == PrimaryFiles.Flatten(PrimaryFiles.Canonical(records))
    ensures Verifies(lib, lib.sha(input.repomd), Finished(lib, input))
  {
    PrimaryFiles.EncodingAccepted(records, lib.identities(input.complete.value.1).value);
    FinishedVerifies(lib, input);
  }

  /** The fast publisher and the one that reuses go on only with an object that still passes the verified
      reader, in every reachable state. */
  lemma FastPathsVerified(lib: Library, run: seq<System>, n: nat, p: nat)
    requires Run(lib, run) && n < |run|
    requires p in run[n].processes && (run[n].processes[p].OpenIndex? || run[n].processes[p].CheckReused?)
    ensures IsVerified(lib, run[n].objects, run[n].processes[p].input)
  {
    RunKeeps(lib, run, n);
    assert PcInvariant(lib, run[n].objects, run[n].staging, p, run[n].processes[p]);
  }

  /** A publisher that succeeds leaves its repository and integrity level under its digest, so of two
      repositories, or of a search-only and a complete publisher, colliding on one repomd at most one
      succeeds. */
  lemma CollidingPublishersExclude(lib: Library, run: seq<System>, n: nat, p: nat, q: nat)
    requires Run(lib, run) && n < |run|
    requires p in run[n].processes && run[n].processes[p].Done? && run[n].processes[p].result.Published?
    requires q in run[n].processes && run[n].processes[q].Done? && run[n].processes[q].result.Published?
    requires run[n].processes[p].result.input.repomd == run[n].processes[q].result.input.repomd
    ensures var a, b := run[n].processes[p].result.input, run[n].processes[q].result.input;
            a.repository == b.repository && IntegrityOf(a) == IntegrityOf(b)
  {
    RunKeeps(lib, run, n);
    assert PcInvariant(lib, run[n].objects, run[n].staging, p, run[n].processes[p]);
    assert PcInvariant(lib, run[n].objects, run[n].staging, q, run[n].processes[q]);
  }

  // ---------------------------------------------------------------- an undisturbed publisher

  /** `n` steps lead from the one state to the other. */
  ghost predicate Reaches(lib: Library, s: System, t: System, n: nat)
    decreases n
  {
    if n == 0 then s == t else exists m :: Next(lib, s, m) && Reaches(lib, m, t, n - 1)
  }

  lemma StepThen(lib: Library, s: System, m: System, t: System, p: nat, pc: Pc, n: nat)
    requires Moves(lib, s, m, p, pc) && Reaches(lib, m, t, n)
    ensures Reaches(lib, s, t, n + 1)
  {
    assert Next(lib, s, m);
  }

  function At(s: System, p: nat): Option<Pc> { if p in s.processes then Some(s.processes[p]) else None }

  /** Published: the repository's pointer names the object this input describes. */
  predicate Shows(lib: Library, s: System, input: Input) {
    && lib.sha(input.repository) in s.current && s.current[lib.sha(input.repository)] == Pointer(lib.sha(input.repomd), input.authentication)
    && lib.sha(input.repomd) in s.objects && s.objects[lib.sha(input.repomd)] == Finished(lib, input)
  }

  lemma FromWritePointer(lib: Library, s: System, p: nat, input: Input) returns (t: System)
    requires At(s, p) == Some(WritePointer(input, lib.sha(input.repomd)))
    requires lib.sha(input.repomd) in s.objects && s.objects[lib.sha(input.repomd)] == Finished(lib, input)
    ensures Reaches(lib, s, t, 1) && Shows(lib, t, input)
  {
    var digest := lib.sha(input.repomd);
    var done := Done(Published(input, digest));
    t := s.(current := s.current[lib.sha(input.repository) := Pointer(digest, input.authentication)],
            processes := s.processes[p := done]);
    assert PublishStep(lib, p, s, s.processes[p], t.(processes := s.processes), done);
    assert Reaches(lib, t, t, 0);
    StepThen(lib, s, t, t, p, done, 0);
  }

  lemma FromRename(lib: Library, s: System, p: nat, input: Input) returns (t: System)
    requires At(s, p) == Some(RenameObject(input)) && lib.sha(input.repomd) !in s.objects
    requires Stages(s.staging, p, Finished(lib, input))
    ensures Reaches(lib, s, t, 2) && Shows(lib, t, input)
  {
    var digest := lib.sha(input.repomd);
    var next := WritePointer(input, digest);
    var m := s.(objects := s.objects[digest := s.staging[p]], staging := s.staging - {p}, processes := s.processes[p := next]);
    assert PublishStep(lib, p, s, s.processes[p], m.(processes := s.processes), next);
    t := FromWritePointer(lib, m, p, input);
    StepThen(lib, s, m, t, p, next, 1);
  }

  lemma FromManifest(lib: Library, s: System, p: nat, input: Input) returns (t: System)
    requires At(s, p) == Some(StageManifest(input)) && lib.sha(input.repomd) !in s.objects
    requires Stages(s.staging, p, Object(Collect(StagedFiles(input)), None))
    ensures Reaches(lib, s, t, 3) && Shows(lib, t, input)
  {
    var next := RenameObject(input);
    var m := s.(staging := s.staging[p := Finished(lib, input)], processes := s.processes[p := next]);
    assert StageStep(lib, p, s, s.processes[p], m.(processes := s.processes), next);
    t := FromRename(lib, m, p, input);
    StepThen(lib, s, m, t, p, next, 2);
  }

  lemma {:induction false} FromFile(lib: Library, s: System, p: nat, input: Input, k: nat) returns (t: System)
    requires k <= |StagedFiles(input)| && At(s, p) == Some(StageFile(input, k)) && lib.sha(input.repomd) !in s.objects
    requires Stages(s.staging, p, Object(Collect(StagedFiles(input)[..k]), None))
    ensures Reaches(lib, s, t, |StagedFiles(input)| - k + 4) && Shows(lib, t, input)
    decreases |StagedFiles(input)| - k
  {
    var files := StagedFiles(input);
    if k == |files| {
      var next := StageManifest(input);
      var m := s.(processes := s.processes[p := next]);
      assert files[..k] == files;
      assert StageStep(lib, p, s, s.processes[p], m.(processes := s.processes), next);
      t := FromManifest(lib, m, p, input);
      StepThen(lib, s, m, t, p, next, 3);
    } else {
      var next := StageFile(input, k + 1);
      var grown := Object(s.staging[p].files[files[k].0 := files[k].1], None);
      var m := s.(staging := s.staging[p := grown], processes := s.processes[p := next]);
      CollectGrows(files, k);
      assert StageStep(lib, p, s, s.processes[p], m.(processes := s.processes), next);
      t := FromFile(lib, m, p, input, k + 1);
      StepThen(lib, s, m, t, p, next, |files| - k + 3);
    }
  }

  /** Left undisturbed, a publisher of a new digest gets through from any state: its object is then there,
      complete, and its repository's pointer names it. */
  lemma UndisturbedPublishes(lib: Library, s: System, p: nat, input: Input) returns (t: System)
    requires At(s, p) == Some(CheckObject(input)) && lib.sha(input.repomd) !in s.objects
    ensures Reaches(lib, s, t, |StagedFiles(input)| + 5) && Shows(lib, t, input)
  {
    var next := StageFile(input, 0);
    var m := s.(staging := s.staging[p := Object(map[], None)], processes := s.processes[p := next]);
    assert StagedFiles(input)[..0] == [];
    assert StageStep(lib, p, s, s.processes[p], m.(processes := s.processes), next);
    t := FromFile(lib, m, p, input, 0);
    StepThen(lib, s, m, t, p, next, |StagedFiles(input)| + 4);
  }
}
