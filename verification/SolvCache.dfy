/** The content-addressed solv cache (crates/dnfast-cache/src/solv_cache.rs) as many processes on one
    directory, one system call at a time, while files are rewritten and replaced from outside.

    A cookie records the file generation under which the content was fully hashed. The theorem is that
    accepting on a cookie is as good as hashing. */
module SolvCache {
  import opened Bytes

  type Digest = seq<Byte>
  type Sha256 = seq<Byte> -> Digest

  const MAX_SOLV_BYTES := 536870912

  /** A file: its bytes and its generation, which is fresh after every change. */
  datatype Inode = Inode(bytes: seq<Byte>, generation: nat)

  datatype Protection = FsVerity(measure: nat) | BtrfsChecksum

  datatype Cookie = Cookie(binding: Digest, sha256: Digest, size: nat, generation: nat, protection: Protection)

  /** The text of a `.ref` file: a digest, or something `read_reference` rejects. */
  datatype Reference = Named(sha256: Digest) | Malformed

  /** The directory, by kind of name, and the inodes, named or not. `history` remembers the bytes of
      every generation there ever was; `clock` is the next generation. */
  datatype Fs = Fs(
    inodes: map<nat, Inode>,
    contents: map<(Digest, Digest), nat>,
    cookies: map<(Digest, Digest), Cookie>,
    references: map<Digest, Reference>,
    history: map<nat, seq<Byte>>,
    clock: nat)

  /** What `open` and `commit` hand out: an open file with the digest and size reported for it. */
  datatype Handle = Handle(inode: nat, generation: nat, sha256: Digest, size: nat)

  datatype Failure = Corrupt | Io

  datatype Outcome = Opened(handle: Handle) | Missing | Failed(failure: Failure)

  /** A commit in progress: the staged file, its digest and its size. */
  datatype Staged = Staged(binding: Digest, inode: nat, sha256: Digest, size: nat)

  /** Who asked for a content to be opened. */
  datatype Caller =
    | ByOpen
    | ByCheck(staged: Staged)   // commit verifying what it linked
    | ByWinner(staged: Staged)  // commit testing the content already referenced
    | ByFinish(staged: Staged)  // commit reopening through the reference

  datatype Request = Request(binding: Digest, sha256: Digest, caller: Caller)

  /** An open file with the generation and size of its first `fstat`. */
  datatype File = File(inode: nat, before: nat, size: nat)

  /** Where a process stands. Each constructor names the system call it makes next. */
  datatype Pc =
    | Finished(outcome: Outcome)
    | ReadReference(binding: Digest, caller: Caller)
    | OpenContent(request: Request)
    | StatBefore(request: Request, inode: nat)
    | ReadCookie(request: Request, file: File)
    | MeasureProtection(request: Request, file: File, cookie: Cookie)
    | Hash(request: Request, file: File, read: seq<Byte>)
    | Protect(request: Request, file: File, read: seq<Byte>)
    | StatAfterHash(request: Request, file: File, read: seq<Byte>, protection: Protection)
    | LinkCookie(request: Request, file: File, cookie: Cookie)
    | RereadCookie(request: Request, file: File, cookie: Cookie)
    | StatAfter(request: Request, file: File, size: nat)
    | HashStaged(binding: Digest, inode: nat, read: seq<Byte>)
    | LinkContent(staged: Staged)
    | OpenExisting(staged: Staged)
    | MatchExisting(staged: Staged, inode: nat, read: seq<Byte>)
    | ReplaceContent(staged: Staged)
    | UnlinkCookie(staged: Staged)
    | LinkReference(staged: Staged)
    | RereadReference(staged: Staged)
    | ReplaceReference(staged: Staged)

  // ---------------------------------------------------------------- control flow

  /** How the caller of `open_content` goes on with its result. */
  function Return(caller: Caller, outcome: Outcome): Pc {
    match caller
    case ByOpen => Finished(outcome)
    case ByCheck(staged) =>
      if outcome.Opened? && outcome.handle.size == staged.size then LinkReference(staged)
      else if outcome.Failed? then Finished(outcome)
      else Finished(Failed(Corrupt))
    case ByWinner(staged) =>
      if outcome == Failed(Corrupt) then ReplaceReference(staged) else Finished(outcome)
    case ByFinish(_) =>
      if outcome.Missing? then Finished(Failed(Corrupt)) else Finished(outcome)
  }

  /** Where a failing system call leads. */
  function Fail(pc: Pc, failure: Failure): Pc {
    match pc
    case ReadReference(_, caller) => Return(caller, Failed(failure))
    case OpenContent(r) => Return(r.caller, Failed(failure))
    case StatBefore(r, _) => Return(r.caller, Failed(failure))
    case ReadCookie(r, _) => Return(r.caller, Failed(failure))
    case MeasureProtection(r, _, _) => Return(r.caller, Failed(failure))
    case Hash(r, _, _) => Return(r.caller, Failed(failure))
    case Protect(r, _, _) => Return(r.caller, Failed(failure))
    case StatAfterHash(r, _, _, _) => Return(r.caller, Failed(failure))
    case LinkCookie(r, _, _) => Return(r.caller, Failed(failure))
    case RereadCookie(r, _, _) => Return(r.caller, Failed(failure))
    case StatAfter(r, _, _) => Return(r.caller, Failed(failure))
    case RereadReference(staged) =>
      if failure == Corrupt then ReplaceReference(staged) else Finished(Failed(failure))
    case _ => Finished(Failed(failure))
  }

  /** One more `read` call: some further bytes, or end of file. */
  predicate Reads(bytes: seq<Byte>, read: seq<Byte>, read': seq<Byte>) {
    |read| < |read'| <= |bytes| && read' == read + bytes[|read|..|read'|]
  }

  predicate AcceptsHash(sha: Sha256, read: seq<Byte>, expected: Digest) {
    0 < |read| <= MAX_SOLV_BYTES && sha(read) == expected
  }

  predicate CookieMatches(cookie: Cookie, request: Request, file: File) {
    && cookie.binding == request.binding && cookie.sha256 == request.sha256
    && cookie.size == file.size && cookie.generation == file.before
  }

  /** `same_file_generation` between the first `fstat` and now. */
  predicate SameStat(fs: Fs, file: File)
    requires file.inode in fs.inodes
  {
    fs.inodes[file.inode].generation == file.before && |fs.inodes[file.inode].bytes| == file.size
  }

  /** One system call of one process. */
  ghost predicate ProcessStep(sha: Sha256, fs: Fs, pc: Pc, fs': Fs, pc': Pc) {
    || (!pc.Finished? && fs' == fs && (pc' == Fail(pc, Io) || pc' == Fail(pc, Corrupt)))
    || LookupStep(fs, pc, fs', pc')
    || HashStep(sha, fs, pc, fs', pc')
    || CookieStep(fs, pc, fs', pc')
    || CommitStep(sha, fs, pc, fs', pc')
  }

  /** A system call of `open_cached` and of `open_content_inner` up to its decision on the cookie. */
  predicate LookupStep(fs: Fs, pc: Pc, fs': Fs, pc': Pc) {
    match pc
    case ReadReference(binding, caller) =>
      fs' == fs && pc' == (
        if binding !in fs.references then Return(caller, Missing)
        else match fs.references[binding]
             case Named(d) => OpenContent(Request(binding, d, caller))
             case Malformed => Return(caller, Failed(Corrupt)))
    case OpenContent(r) =>
      fs' == fs && pc' == (
        if (r.binding, r.sha256) in fs.contents then StatBefore(r, fs.contents[(r.binding, r.sha256)])
        else Return(r.caller, Failed(Corrupt)))
    case StatBefore(r, inode) =>
      inode in fs.inodes && fs' == fs &&
      pc' == ReadCookie(r, File(inode, fs.inodes[inode].generation, |fs.inodes[inode].bytes|))
    case ReadCookie(r, file) =>
      fs' == fs && pc' == (
        if (r.binding, r.sha256) !in fs.cookies then Hash(r, file, [])
        else if CookieMatches(fs.cookies[(r.binding, r.sha256)], r, file)
          then MeasureProtection(r, file, fs.cookies[(r.binding, r.sha256)])
        else Return(r.caller, Failed(Corrupt)))
    case MeasureProtection(r, file, cookie) =>
      fs' == fs && pc' == StatAfter(r, file, file.size)
    case _ => false
  }

  /** A system call on the slow path of `open_content_inner`, after which a cookie is wanted. */
  predicate HashStep(sha: Sha256, fs: Fs, pc: Pc, fs': Fs, pc': Pc) {
    match pc
    case Hash(r, file, read) =>
      file.inode in fs.inodes && fs' == fs &&
      var bytes := fs.inodes[file.inode].bytes;
      if |read| >= |bytes| then
        pc' == if AcceptsHash(sha, read, r.sha256) then Protect(r, file, read) else Return(r.caller, Failed(Corrupt))
      else pc'.Hash? && pc' == Hash(r, file, pc'.read) && Reads(bytes, read, pc'.read)
    case Protect(r, file, read) =>
      fs' == fs &&
      (pc' == StatAfter(r, file, |read|) ||
       (pc'.StatAfterHash? && pc' == StatAfterHash(r, file, read, pc'.protection)))
    case StatAfterHash(r, file, read, protection) =>
      file.inode in fs.inodes && fs' == fs && pc' == (
        if SameStat(fs, file) then LinkCookie(r, file, Cookie(r.binding, r.sha256, |read|, file.before, protection))
        else Return(r.caller, Failed(Corrupt)))
    case _ => false
  }

  /** A system call of `publish_integrity_cookie`, and the final `fstat`. */
  predicate CookieStep(fs: Fs, pc: Pc, fs': Fs, pc': Pc) {
    match pc
    case LinkCookie(r, file, cookie) =>
      if (r.binding, r.sha256) in fs.cookies then fs' == fs && pc' == RereadCookie(r, file, cookie)
      else fs' == fs.(cookies := fs.cookies[(r.binding, r.sha256) := cookie]) && pc' == StatAfter(r, file, cookie.size)
    case RereadCookie(r, file, cookie) =>
      fs' == fs && pc' == (
        if (r.binding, r.sha256) in fs.cookies && fs.cookies[(r.binding, r.sha256)] == cookie
          then StatAfter(r, file, cookie.size)
        else Return(r.caller, Failed(Corrupt)))
    case StatAfter(r, file, size) =>
      file.inode in fs.inodes && fs' == fs && pc' == (
        if SameStat(fs, file) then Return(r.caller, Opened(Handle(file.inode, file.before, r.sha256, size)))
        else Return(r.caller, Failed(Corrupt)))
    case _ => false
  }

  /** A system call of `commit` itself. */
  predicate CommitStep(sha: Sha256, fs: Fs, pc: Pc, fs': Fs, pc': Pc) {
    match pc
    case HashStaged(binding, inode, read) =>
      inode in fs.inodes && fs' == fs &&
      var bytes := fs.inodes[inode].bytes;
      if |read| >= |bytes| then
        pc' == if 0 < |read| <= MAX_SOLV_BYTES then LinkContent(Staged(binding, inode, sha(read), |read|))
               else Finished(Failed(Corrupt))
      else pc'.HashStaged? && pc' == HashStaged(binding, inode, pc'.read) && Reads(bytes, read, pc'.read)
    case LinkContent(staged) =>
      if (staged.binding, staged.sha256) in fs.contents then fs' == fs && pc' == OpenExisting(staged)
      else Links(fs, staged, fs') && pc' == UnlinkCookie(staged)
    case OpenExisting(staged) =>
      fs' == fs && pc' == (
        if (staged.binding, staged.sha256) in fs.contents
          then MatchExisting(staged, fs.contents[(staged.binding, staged.sha256)], [])
        else ReplaceContent(staged))
    case MatchExisting(staged, inode, read) =>
      inode in fs.inodes && fs' == fs &&
      var bytes := fs.inodes[inode].bytes;
      if |read| >= |bytes| then
        pc' == if AcceptsHash(sha, read, staged.sha256) && |read| == staged.size then UnlinkCookie(staged)
               else ReplaceContent(staged)
      else || pc' == ReplaceContent(staged)  // a failed read counts as a mismatch
           || (pc'.MatchExisting? && pc' == MatchExisting(staged, inode, pc'.read) && Reads(bytes, read, pc'.read))
    case ReplaceContent(staged) => Links(fs, staged, fs') && pc' == UnlinkCookie(staged)
    case UnlinkCookie(staged) =>
      fs' == fs.(cookies := fs.cookies - {(staged.binding, staged.sha256)}) &&
      pc' == OpenContent(Request(staged.binding, staged.sha256, ByCheck(staged)))
    case LinkReference(staged) =>
      if staged.binding in fs.references then fs' == fs && pc' == RereadReference(staged)
      else fs' == fs.(references := fs.references[staged.binding := Named(staged.sha256)]) &&
           pc' == ReadReference(staged.binding, ByFinish(staged))
    case RereadReference(staged) =>
      fs' == fs && pc' == (
        if staged.binding !in fs.references then ReplaceReference(staged)
        else match fs.references[staged.binding]
             case Malformed => ReplaceReference(staged)
             case Named(d) =>
               if d == staged.sha256 then ReadReference(staged.binding, ByFinish(staged))
               else OpenContent(Request(staged.binding, d, ByWinner(staged))))
    case ReplaceReference(staged) =>
      fs' == fs.(references := fs.references[staged.binding := Named(staged.sha256)]) &&
      pc' == ReadReference(staged.binding, ByFinish(staged))
    case _ => false
  }

  /** The staged file becomes the content of its name. */
  predicate Links(fs: Fs, staged: Staged, fs': Fs) {
    fs' == fs.(contents := fs.contents[(staged.binding, staged.sha256) := staged.inode])
  }

  /** The bytes of a file become `bytes` under a fresh generation. */
  function Write(fs: Fs, inode: nat, bytes: seq<Byte>): Fs {
    fs.(inodes := fs.inodes[inode := Inode(bytes, fs.clock)],
        history := fs.history[fs.clock := bytes],
        clock := fs.clock + 1)
  }

  /** The outside: files are created, rewritten and touched (which includes link counts and verity
      flags), contents and references replaced at will, and any name removed. Only cookies are never
      written from outside. */
  ghost predicate OutsideStep(fs: Fs, fs': Fs) {
    || (exists inode: nat, bytes :: fs' == Write(fs, inode, bytes))
    || (exists contents :: fs' == fs.(contents := contents))
    || (exists references :: fs' == fs.(references := references))
    || (exists names :: fs' == fs.(cookies := fs.cookies - names))
  }

  // ---------------------------------------------------------------- runs

  datatype System = System(fs: Fs, processes: map<nat, Pc>)

  predicate Initial(s: System) {
    && s.processes == map[] && s.fs.cookies == map[]
    && (forall i :: i in s.fs.inodes ==> Recorded(s.fs, s.fs.inodes[i]))
    && (forall g :: g in s.fs.history ==> g < s.fs.clock)
  }

  predicate Recorded(fs: Fs, inode: Inode) {
    inode.generation in fs.history && fs.history[inode.generation] == inode.bytes
  }

  /** A call begins: `open`, or `commit` on a staged file of any content. */
  predicate Begins(pc: Pc) {
    || (pc.ReadReference? && pc.caller == ByOpen)
    || (pc.HashStaged? && pc.read == [])
  }

  ghost predicate Next(sha: Sha256, s: System, s': System) {
    || (OutsideStep(s.fs, s'.fs) && s'.processes == s.processes)
    || (exists p: nat, pc' :: s'.fs == s.fs && p !in s.processes && Begins(pc') && s'.processes == s.processes[p := pc'])
    || (exists p: nat, pc' :: p in s.processes && ProcessStep(sha, s.fs, s.processes[p], s'.fs, pc') &&
          s'.processes == s.processes[p := pc'])
  }

  ghost predicate Run(sha: Sha256, run: seq<System>) {
    run != [] && Initial(run[0]) && forall i :: 0 <= i < |run| - 1 ==> Next(sha, run[i], run[i + 1])
  }

  // ---------------------------------------------------------------- invariant

  /** Under this generation the content had this size and a full hash accepts it for this digest. */
  predicate Certified(sha: Sha256, fs: Fs, generation: nat, sha256: Digest, size: nat) {
    generation in fs.history && AcceptsHash(sha, fs.history[generation], sha256) && |fs.history[generation]| == size
  }

  ghost predicate FsInvariant(sha: Sha256, fs: Fs) {
    && (forall i :: i in fs.inodes ==> Recorded(fs, fs.inodes[i]))
    && (forall g :: g in fs.history ==> g < fs.clock)
    && (forall n :: n in fs.cookies ==>
          Certified(sha, fs, fs.cookies[n].generation, fs.cookies[n].sha256, fs.cookies[n].size))
  }

  /** If the file still has its first generation, these are its bytes so far. */
  predicate Unchanged(fs: Fs, file: File) {
    && file.inode in fs.inodes && file.before in fs.history && |fs.history[file.before]| == file.size
    && file.before <= fs.inodes[file.inode].generation
  }

  predicate SameGeneration(fs: Fs, file: File)
    requires file.inode in fs.inodes
  {
    fs.inodes[file.inode].generation == file.before
  }

  ghost predicate PcInvariant(sha: Sha256, fs: Fs, pc: Pc) {
    match pc
    case Finished(Opened(h)) => Certified(sha, fs, h.generation, h.sha256, h.size)
    case ReadCookie(r, file) => Unchanged(fs, file)
    case MeasureProtection(r, file, cookie) =>
      Unchanged(fs, file) && Certified(sha, fs, file.before, r.sha256, file.size)
    case Hash(r, file, read) =>
      Unchanged(fs, file) && (SameGeneration(fs, file) ==> read <= fs.inodes[file.inode].bytes)
    case Protect(r, file, read) =>
      Unchanged(fs, file) && AcceptsHash(sha, read, r.sha256) && (SameGeneration(fs, file) ==> read == fs.inodes[file.inode].bytes)
    case StatAfterHash(r, file, read, _) =>
      Unchanged(fs, file) && AcceptsHash(sha, read, r.sha256) && (SameGeneration(fs, file) ==> read == fs.inodes[file.inode].bytes)
    case LinkCookie(r, file, cookie) =>
      Unchanged(fs, file) && cookie.sha256 == r.sha256 && cookie.generation == file.before &&
      Certified(sha, fs, file.before, r.sha256, cookie.size)
    case RereadCookie(r, file, cookie) =>
      Unchanged(fs, file) && cookie.sha256 == r.sha256 && cookie.generation == file.before &&
      Certified(sha, fs, file.before, r.sha256, cookie.size)
    case StatAfter(r, file, size) =>
      Unchanged(fs, file) && (SameGeneration(fs, file) ==> Certified(sha, fs, file.before, r.sha256, size))
    case _ => true
  }

  ghost predicate Invariant(sha: Sha256, s: System) {
    FsInvariant(sha, s.fs) && forall p :: p in s.processes ==> PcInvariant(sha, s.fs, s.processes[p])
  }

  /** What every step guarantees to the other processes: generations are never forgotten and never
      come back, and a file of one generation has one content. */
  predicate Extends(fs: Fs, fs': Fs) {
    && (forall g :: g in fs.history ==> g in fs'.history && fs'.history[g] == fs.history[g])
    && (forall i :: i in fs.inodes ==>
          i in fs'.inodes && fs.inodes[i].generation <= fs'.inodes[i].generation &&
          (fs'.inodes[i].generation == fs.inodes[i].generation ==> fs'.inodes[i] == fs.inodes[i]))
  }

  lemma PcInvariantStable(sha: Sha256, fs: Fs, fs': Fs, pc: Pc)
    requires PcInvariant(sha, fs, pc) && Extends(fs, fs')
    ensures PcInvariant(sha, fs', pc)
  {
  }

  lemma WriteKeeps(sha: Sha256, fs: Fs, inode: nat, bytes: seq<Byte>)
    requires FsInvariant(sha, fs)
    ensures FsInvariant(sha, Write(fs, inode, bytes)) && Extends(fs, Write(fs, inode, bytes))
  {
    var fs' := Write(fs, inode, bytes);
    assert forall g :: g in fs.history ==> g != fs.clock && fs'.history[g] == fs.history[g];
  }

  lemma OutsideKeeps(sha: Sha256, fs: Fs, fs': Fs)
    requires FsInvariant(sha, fs) && OutsideStep(fs, fs')
    ensures FsInvariant(sha, fs') && Extends(fs, fs')
  {
    if inode: nat, bytes :| fs' == Write(fs, inode, bytes) {
      WriteKeeps(sha, fs, inode, bytes);
    } else {
      assert fs'.inodes == fs.inodes && fs'.history == fs.history && fs'.clock == fs.clock;
      assert forall n :: n in fs'.cookies ==> n in fs.cookies && fs'.cookies[n] == fs.cookies[n];
    }
  }

  lemma ReturnKeeps(sha: Sha256, fs: Fs, caller: Caller, outcome: Outcome)
    requires outcome.Opened? ==>
               Certified(sha, fs, outcome.handle.generation, outcome.handle.sha256, outcome.handle.size)
    ensures PcInvariant(sha, fs, Return(caller, outcome))
  {
  }

  lemma FailKeeps(sha: Sha256, fs: Fs, pc: Pc, failure: Failure)
    requires !pc.Finished?
    ensures PcInvariant(sha, fs, Fail(pc, failure))
  {
  }

  lemma LookupKeeps(sha: Sha256, fs: Fs, pc: Pc, fs': Fs, pc': Pc)
    requires FsInvariant(sha, fs) && PcInvariant(sha, fs, pc) && LookupStep(fs, pc, fs', pc')
    ensures FsInvariant(sha, fs') && Extends(fs, fs') && PcInvariant(sha, fs', pc')
  {
  }

  lemma HashKeeps(sha: Sha256, fs: Fs, pc: Pc, fs': Fs, pc': Pc)
    requires FsInvariant(sha, fs) && PcInvariant(sha, fs, pc) && HashStep(sha, fs, pc, fs', pc')
    ensures FsInvariant(sha, fs') && Extends(fs, fs') && PcInvariant(sha, fs', pc')
  {
  }

  lemma CookieKeeps(sha: Sha256, fs: Fs, pc: Pc, fs': Fs, pc': Pc)
    requires FsInvariant(sha, fs) && PcInvariant(sha, fs, pc) && CookieStep(fs, pc, fs', pc')
    ensures FsInvariant(sha, fs') && Extends(fs, fs') && PcInvariant(sha, fs', pc')
  {
  }

  lemma CommitKeeps(sha: Sha256, fs: Fs, pc: Pc, fs': Fs, pc': Pc)
    requires FsInvariant(sha, fs) && PcInvariant(sha, fs, pc) && CommitStep(sha, fs, pc, fs', pc')
    ensures FsInvariant(sha, fs') && Extends(fs, fs') && PcInvariant(sha, fs', pc')
  {
  }

  lemma ProcessKeeps(sha: Sha256, fs: Fs, pc: Pc, fs': Fs, pc': Pc)
    requires FsInvariant(sha, fs) && PcInvariant(sha, fs, pc) && ProcessStep(sha, fs, pc, fs', pc')
    ensures FsInvariant(sha, fs') && Extends(fs, fs') && PcInvariant(sha, fs', pc')
  {
    if LookupStep(fs, pc, fs', pc') {
      LookupKeeps(sha, fs, pc, fs', pc');
    } else if HashStep(sha, fs, pc, fs', pc') {
      HashKeeps(sha, fs, pc, fs', pc');
    } else if CookieStep(fs, pc, fs', pc') {
      CookieKeeps(sha, fs, pc, fs', pc');
    } else if CommitStep(sha, fs, pc, fs', pc') {
      CommitKeeps(sha, fs, pc, fs', pc');
    } else {
      FailKeeps(sha, fs, pc, Io);
      FailKeeps(sha, fs, pc, Corrupt);
    }
  }

  lemma NextKeeps(sha: Sha256, s: System, s': System)
    requires Invariant(sha, s) && Next(sha, s, s')
    ensures Invariant(sha, s')
  {
    if OutsideStep(s.fs, s'.fs) && s'.processes == s.processes {
      OutsideKeeps(sha, s.fs, s'.fs);
    } else if p: nat, pc' :|
        p in s.processes && ProcessStep(sha, s.fs, s.processes[p], s'.fs, pc') && s'.processes == s.processes[p := pc']
    {
      ProcessKeeps(sha, s.fs, s.processes[p], s'.fs, pc');
    }
    assert Extends(s.fs, s'.fs);
    forall q | q in s'.processes ensures PcInvariant(sha, s'.fs, s'.processes[q]) {
      if q in s.processes {
        PcInvariantStable(sha, s.fs, s'.fs, s.processes[q]);
      }
    }
  }

  lemma {:induction false} RunKeeps(sha: Sha256, run: seq<System>, n: nat)
    requires Run(sha, run) && n < |run|
    ensures Invariant(sha, run[n])
  {
    if n > 0 {
      RunKeeps(sha, run, n - 1);
      NextKeeps(sha, run[n - 1], run[n]);
    }
  }

  /** Over every interleaving, a handle that was given out carries the digest and size of the content
      its generation stands for; while the file keeps that generation, a full hash would accept it. */
  lemma HandlesAreVerified(sha: Sha256, run: seq<System>, n: nat, p: nat)
    requires Run(sha, run) && n < |run|
    requires p in run[n].processes && run[n].processes[p].Finished? && run[n].processes[p].outcome.Opened?
    ensures var fs, h := run[n].fs, run[n].processes[p].outcome.handle;
            Certified(sha, fs, h.generation, h.sha256, h.size) &&
            (h.inode in fs.inodes && fs.inodes[h.inode].generation == h.generation ==>
               AcceptsHash(sha, fs.inodes[h.inode].bytes, h.sha256) && |fs.inodes[h.inode].bytes| == h.size)
  {
    RunKeeps(sha, run, n);
  }

  predicate HandsOut(pc: Pc) { pc.Finished? && pc.outcome.Opened? }

  lemma LookupHandsOutNothing(fs: Fs, pc: Pc, fs': Fs, pc': Pc)
    requires LookupStep(fs, pc, fs', pc')
    ensures !HandsOut(pc')
  {
  }

  lemma HashHandsOutNothing(sha: Sha256, fs: Fs, pc: Pc, fs': Fs, pc': Pc)
    requires HashStep(sha, fs, pc, fs', pc')
    ensures !HandsOut(pc')
  {
  }

  lemma CommitHandsOutNothing(sha: Sha256, fs: Fs, pc: Pc, fs': Fs, pc': Pc)
    requires CommitStep(sha, fs, pc, fs', pc')
    ensures !HandsOut(pc')
  {
  }

  lemma CookieHandsOut(fs: Fs, pc: Pc, fs': Fs, pc': Pc)
    requires CookieStep(fs, pc, fs', pc') && HandsOut(pc')
    ensures pc.StatAfter? && fs' == fs && pc.file.inode in fs.inodes && SameStat(fs, pc.file)
    ensures pc'.outcome.handle == Handle(pc.file.inode, pc.file.before, pc.request.sha256, pc.size)
  {
  }

  /** Handles come from the final `fstat` alone, through whichever caller. */
  lemma OnlyStatAfterHandsOut(sha: Sha256, fs: Fs, pc: Pc, fs': Fs, pc': Pc)
    requires ProcessStep(sha, fs, pc, fs', pc') && HandsOut(pc')
    ensures CookieStep(fs, pc, fs', pc')
  {
    if LookupStep(fs, pc, fs', pc') {
      LookupHandsOutNothing(fs, pc, fs', pc');
    } else if HashStep(sha, fs, pc, fs', pc') {
      HashHandsOutNothing(sha, fs, pc, fs', pc');
    } else if CommitStep(sha, fs, pc, fs', pc') {
      CommitHandsOutNothing(sha, fs, pc, fs', pc');
    } else if !CookieStep(fs, pc, fs', pc') {
      FailHandsOutNothing(pc, Io);
      FailHandsOutNothing(pc, Corrupt);
    }
  }

  lemma FailHandsOutNothing(pc: Pc, failure: Failure)
    ensures !HandsOut(Fail(pc, failure))
  {
  }

  lemma ProcessMoved(sha: Sha256, s: System, s': System, p: nat)
    requires Next(sha, s, s') && p in s.processes && p in s'.processes && s'.processes[p] != s.processes[p]
    ensures ProcessStep(sha, s.fs, s.processes[p], s'.fs, s'.processes[p])
  {
  }

  /** At the moment a handle is given out, the file it holds has exactly the reported digest and size. */
  lemma HandOutIsExact(sha: Sha256, run: seq<System>, n: nat, p: nat)
    requires Run(sha, run) && n + 1 < |run|
    requires p in run[n].processes && !run[n].processes[p].Finished?
    requires p in run[n + 1].processes && run[n + 1].processes[p].Finished? && run[n + 1].processes[p].outcome.Opened?
    ensures var fs, h := run[n + 1].fs, run[n + 1].processes[p].outcome.handle;
            h.inode in fs.inodes && AcceptsHash(sha, fs.inodes[h.inode].bytes, h.sha256) &&
            |fs.inodes[h.inode].bytes| == h.size
  {
    RunKeeps(sha, run, n);
    var s, s' := run[n], run[n + 1];
    assert Next(sha, s, s');
    ProcessMoved(sha, s, s', p);
    OnlyStatAfterHandsOut(sha, s.fs, s.processes[p], s'.fs, s'.processes[p]);
    CookieHandsOut(s.fs, s.processes[p], s'.fs, s'.processes[p]);
    assert PcInvariant(sha, s.fs, s.processes[p]);
  }

  /** The fast path against the slow one: whenever the cookie check lets a file through and the final
      `fstat` still sees the same generation, the full hash, size limits included, accepts the file. */
  lemma CookieImpliesHash(sha: Sha256, run: seq<System>, n: nat, p: nat)
    requires Run(sha, run) && n < |run|
    requires p in run[n].processes && run[n].processes[p].MeasureProtection?
    ensures var fs, pc := run[n].fs, run[n].processes[p];
            pc.file.inode in fs.inodes &&
            (SameGeneration(fs, pc.file) ==>
               AcceptsHash(sha, fs.inodes[pc.file.inode].bytes, pc.request.sha256) &&
               |fs.inodes[pc.file.inode].bytes| == pc.file.size)
  {
    RunKeeps(sha, run, n);
  }
}
