/** Verification receipts for the RPM database (crates/dnfast-cache/src/rpmdb_receipt.rs) as processes
    on one receipt directory, stopping anywhere, while the database and its WAL change at will.

    A receipt lets a reader skip a full verification; the theorems say whose word it is taking. */
module RpmdbReceipt {
  import opened Bytes
  import opened Framing
  import opened ReceiptText

  type Text = seq<Byte>
  type Sha256 = seq<Byte> -> Text

  /** A measured database generation for a binding. */
  datatype Generation = Generation(binding: Text, stat: Stat) {
    function DescriptorText(): Text { Descriptor(binding, stat) }
  }

  function ReceiptName(sha: Sha256, g: Generation): Text { sha(g.DescriptorText()) + Ascii(".verified") }

  /** The comparison the program makes: of binding and descriptor text (the name follows from them). */
  predicate SameText(a: Generation, b: Generation) {
    a.binding == b.binding && a.DescriptorText() == b.DescriptorText()
  }

  /** A repair name carries the id of the operating-system process, which all its threads share. */
  datatype Name = Receipt(text: Text) | Current | Repair(target: Name, process: nat)

  /** The database file, whether its file system protects it, and whether its WAL is empty. */
  datatype Database = Database(stat: Stat, protected: bool, quiescent: bool)

  datatype Result =
    | Hit(generation: Generation)
    | CurrentHit(generation: Generation, state: Text)
    | Miss(corrupted: bool)
    | Unsupported
    | Published
    | Failed

  /** What `describe` was called for. */
  datatype Purpose =
    | ForCheck
    | ForCurrent(state: Text, descriptor: Text)
    | ForPublish(expected: Generation, pending: Option<Text>)
    | ForPublishCurrent(expected: Generation, state: Text)

  /** A text on its way to a name; afterwards `publish_current` may go on with its own receipt. */
  datatype Write = Write(name: Name, text: Text, next: Option<(Generation, Text)>)

  datatype Pc =
    | MeasureWal(binding: Text, purpose: Purpose)
    | MeasureFile(binding: Text, purpose: Purpose)
    | MeasureAgain(generation: Generation, purpose: Purpose)
    | MeasureWalAgain(generation: Generation, purpose: Purpose)
    | ReadCurrent
    | ReadReceipt(generation: Generation, state: Option<Text>)
    | Link(write: Write)
    | Reread(write: Write)
    | UnlinkRepair(write: Write)
    | LinkRepair(write: Write)
    | RenameRepair(write: Write)
    | Done(result: Result)

  /** `processes` are the calls going on, threads of one process or of several: `owner` says whose they are.
      `published` and `states` remember every generation `publish` was called on and every state
      `publish_current` was given with it. */
  datatype System = System(
    directory: map<Name, Text>,
    database: Database,
    published: set<Generation>,
    states: set<(Generation, Text)>,
    processes: map<nat, Pc>,
    owner: nat -> nat)

  // ---------------------------------------------------------------- steps

  /** Where `describe` leads when the database cannot be described. */
  function Undescribed(purpose: Purpose): Pc {
    if purpose.ForCheck? || purpose.ForCurrent? then Done(Unsupported) else Done(Failed)
  }

  /** Where `describe` leads with its measurement. */
  function Described(sha: Sha256, g: Generation, purpose: Purpose): Pc {
    match purpose
    case ForCheck => ReadReceipt(g, None)
    case ForCurrent(state, descriptor) =>
      if g.DescriptorText() == descriptor then ReadReceipt(g, Some(state)) else Done(Miss(false))
    case ForPublish(expected, state) =>
      if SameText(g, expected) then
        Link(Write(Receipt(ReceiptName(sha, g)), g.DescriptorText(),
                   if state.Some? then Some((expected, state.value)) else None))
      else Done(Failed)
    case ForPublishCurrent(expected, state) =>
      var text := PrintCurrent(g.binding, state, g.DescriptorText());
      if SameText(g, expected) && |text| <= MAX_CURRENT_RECEIPT_BYTES then Link(Write(Current, text, None))
      else Done(Failed)
  }

  /** Where a completed write leads. */
  function Written(write: Write): Pc {
    if write.next.Some? then MeasureWal(write.next.value.0.binding, ForPublishCurrent(write.next.value.0, write.next.value.1))
    else Done(Published)
  }

  /** A read of a receipt file: too long, or not ending in a newline, is corrupt. */
  predicate Readable(text: Text, maximum: nat) { 0 < |text| <= maximum && text[|text| - 1] == NEWLINE }

  function AfterReadCurrent(directory: map<Name, Text>): Pc {
    if Current !in directory then Done(Miss(false))
    else if !Readable(directory[Current], MAX_CURRENT_RECEIPT_BYTES) then Done(Miss(true))
    else
      match ParseCurrent(directory[Current])
      case None => Done(Miss(true))
      case Some((binding, state, descriptor)) => MeasureWal(binding, ForCurrent(state, descriptor))
  }

  function AfterReadReceipt(sha: Sha256, directory: map<Name, Text>, g: Generation, state: Option<Text>): Pc {
    var name := Receipt(ReceiptName(sha, g));
    if name !in directory then Done(Miss(false))
    else if !Readable(directory[name], MAX_RECEIPT_BYTES) || directory[name] != g.DescriptorText() then Done(Miss(true))
    else if state.None? then Done(Hit(g))
    else Done(CurrentHit(g, state.value))
  }

  /** One system call made in the operating-system process `p`. Any call may also fail. */
  ghost predicate ProcessStep(sha: Sha256, p: nat, s: System, pc: Pc, directory': map<Name, Text>, pc': Pc) {
    || (!pc.Done? && directory' == s.directory && (pc' == Done(Failed) || pc' == Done(Miss(true))))
    || MeasureStep(sha, s, pc, directory', pc')
    || FileStep(sha, p, s, pc, directory', pc')
  }

  ghost predicate MeasureStep(sha: Sha256, s: System, pc: Pc, directory': map<Name, Text>, pc': Pc) {
    directory' == s.directory &&
    match pc
    case MeasureWal(binding, purpose) =>
      pc' == if s.database.quiescent then MeasureFile(binding, purpose) else Undescribed(purpose)
    case MeasureFile(binding, purpose) =>
      pc' == (
        var g := Generation(binding, s.database.stat);
        if !s.database.protected then Undescribed(purpose)
        else if |g.DescriptorText()| > MAX_RECEIPT_BYTES then Done(Failed)
        else MeasureAgain(g, purpose))
    case MeasureAgain(g, purpose) =>
      // the descriptor may refer to a file that is no longer the database
      pc' == MeasureWalAgain(g, purpose) || pc' == Done(Failed)
    case MeasureWalAgain(g, purpose) =>
      pc' == if s.database.quiescent then Described(sha, g, purpose) else Done(Failed)
    case _ => false
  }

  ghost predicate FileStep(sha: Sha256, p: nat, s: System, pc: Pc, directory': map<Name, Text>, pc': Pc) {
    match pc
    case ReadCurrent => directory' == s.directory && pc' == AfterReadCurrent(s.directory)
    case ReadReceipt(g, state) => directory' == s.directory && pc' == AfterReadReceipt(sha, s.directory, g, state)
    case Link(w) =>
      if w.name in s.directory then directory' == s.directory && pc' == Reread(w)
      else directory' == s.directory[w.name := w.text] && pc' == Written(w)
    case Reread(w) =>
      directory' == s.directory &&
      pc' == if w.name in s.directory && s.directory[w.name] == w.text then Written(w) else UnlinkRepair(w)
    case UnlinkRepair(w) => directory' == s.directory - {Repair(w.name, p)} && pc' == LinkRepair(w)
    case LinkRepair(w) =>
      if Repair(w.name, p) in s.directory then directory' == s.directory && pc' == Done(Failed)
      else directory' == s.directory[Repair(w.name, p) := w.text] && pc' == RenameRepair(w)
    case RenameRepair(w) =>
      if Repair(w.name, p) !in s.directory then directory' == s.directory && pc' == Done(Failed)
      else directory' == s.directory[w.name := s.directory[Repair(w.name, p)]] - {Repair(w.name, p)} && pc' == Written(w)
    case _ => false
  }

  /** A call begins. Bindings are validated digests; generations come from earlier checks. */
  ghost predicate Begins(s: System, pc: Pc, published': set<Generation>, states': set<(Generation, Text)>) {
    || (pc == ReadCurrent && published' == s.published && states' == s.states)
    || (pc.MeasureWal? && IsDigest(pc.binding) &&
        match pc.purpose
        case ForCheck => published' == s.published && states' == s.states
        case ForPublish(expected, None) =>
          expected.binding == pc.binding && published' == s.published + {expected} && states' == s.states
        case ForPublish(expected, Some(state)) =>
          expected.binding == pc.binding && IsState(state) &&
          published' == s.published + {expected} && states' == s.states + {(expected, state)}
        case _ => false)
  }

  ghost predicate Next(sha: Sha256, s: System, s': System) {
    || (exists database :: s' == s.(database := database))
    || (exists names :: s' == s.(directory := s.directory - names))
    || (exists p: nat, pc :: p !in s.processes && Begins(s, pc, s'.published, s'.states) &&
          s' == s.(published := s'.published, states := s'.states, processes := s.processes[p := pc]))
    || (exists p: nat, pc' :: p in s.processes && ProcessStep(sha, s.owner(p), s, s.processes[p], s'.directory, pc') &&
          s' == s.(directory := s'.directory, processes := s.processes[p := pc']))
  }

  predicate Initial(s: System) {
    s.directory == map[] && s.processes == map[] && s.published == {} && s.states == {}
  }

  ghost predicate Run(sha: Sha256, run: seq<System>) {
    run != [] && Initial(run[0]) && forall i :: 0 <= i < |run| - 1 ==> Next(sha, run[i], run[i + 1])
  }

  // ---------------------------------------------------------------- invariant

  /** The text under a receipt name is the descriptor of a published generation of that name; the
      current receipt prints a published generation with a state published for it. */
  ghost predicate Allowed(sha: Sha256, published: set<Generation>, states: set<(Generation, Text)>, name: Name, text: Text) {
    match name
    case Receipt(n) =>
      exists g :: g in published && IsDigest(g.binding) && text == g.DescriptorText() && n == ReceiptName(sha, g)
    case Current =>
      exists g, state :: (g, state) in states && IsDigest(g.binding) && IsState(state) &&
        IsDescriptorText(g.DescriptorText()) && text == PrintCurrent(g.binding, state, g.DescriptorText())
    case Repair(target, _) => Allowed(sha, published, states, target, text)
  }

  ghost predicate PurposeInvariant(published: set<Generation>, states: set<(Generation, Text)>, binding: Text, purpose: Purpose) {
    IsDigest(binding) &&
    match purpose
    case ForCheck => true
    case ForCurrent(state, descriptor) =>
      exists g :: (g, state) in states && g.binding == binding && descriptor == g.DescriptorText()
    case ForPublish(expected, state) =>
      expected in published && IsDigest(expected.binding) &&
      (state.Some? ==> (expected, state.value) in states && IsState(state.value))
    case ForPublishCurrent(expected, state) =>
      (expected, state) in states && IsDigest(expected.binding) && IsState(state)
  }

  ghost predicate WriteInvariant(sha: Sha256, published: set<Generation>, states: set<(Generation, Text)>, w: Write) {
    Allowed(sha, published, states, w.name, w.text) &&
    (w.next.Some? ==>
       w.next.value in states && IsDigest(w.next.value.0.binding) && IsState(w.next.value.1))
  }

  ghost predicate PcInvariant(sha: Sha256, published: set<Generation>, states: set<(Generation, Text)>, pc: Pc) {
    match pc
    case MeasureWal(binding, purpose) => PurposeInvariant(published, states, binding, purpose)
    case MeasureFile(binding, purpose) => PurposeInvariant(published, states, binding, purpose)
    case MeasureAgain(g, purpose) =>
      |g.DescriptorText()| <= MAX_RECEIPT_BYTES && PurposeInvariant(published, states, g.binding, purpose)
    case MeasureWalAgain(g, purpose) =>
      |g.DescriptorText()| <= MAX_RECEIPT_BYTES && PurposeInvariant(published, states, g.binding, purpose)
    case ReadCurrent => true
    case ReadReceipt(g, state) => IsDigest(g.binding) && (state.Some? ==> (g, state.value) in states)
    case Link(w) => WriteInvariant(sha, published, states, w)
    case Reread(w) => WriteInvariant(sha, published, states, w)
    case UnlinkRepair(w) => WriteInvariant(sha, published, states, w)
    case LinkRepair(w) => WriteInvariant(sha, published, states, w)
    case RenameRepair(w) => WriteInvariant(sha, published, states, w)
    case Done(Hit(g)) => g in published
    case Done(CurrentHit(g, state)) => g in published && (g, state) in states
    case Done(_) => true
  }

  ghost predicate DirectoryInvariant(sha: Sha256, published: set<Generation>, states: set<(Generation, Text)>,
                                     directory: map<Name, Text>)
  {
    forall n :: n in directory ==> Allowed(sha, published, states, n, directory[n])
  }

  ghost predicate Invariant(sha: Sha256, s: System) {
    && DirectoryInvariant(sha, s.published, s.states, s.directory)
    && forall p :: p in s.processes ==> PcInvariant(sha, s.published, s.states, s.processes[p])
  }

  // ---------------------------------------------------------------- preservation

  lemma {:induction false} AllowedGrows(sha: Sha256, p: set<Generation>, t: set<(Generation, Text)>,
                                        p': set<Generation>, t': set<(Generation, Text)>, name: Name, text: Text)
    requires p <= p' && t <= t' && Allowed(sha, p, t, name, text)
    ensures Allowed(sha, p', t', name, text)
  {
    match name
    case Repair(target, _) => AllowedGrows(sha, p, t, p', t', target, text);
    case _ =>
  }

  lemma PcInvariantGrows(sha: Sha256, p: set<Generation>, t: set<(Generation, Text)>,
                         p': set<Generation>, t': set<(Generation, Text)>, pc: Pc)
    requires p <= p' && t <= t' && PcInvariant(sha, p, t, pc)
    ensures PcInvariant(sha, p', t', pc)
  {
    if pc.Link? || pc.Reread? || pc.UnlinkRepair? || pc.LinkRepair? || pc.RenameRepair? {
      AllowedGrows(sha, p, t, p', t', pc.write.name, pc.write.text);
    }
  }

  lemma SameTextIsSame(a: Generation, b: Generation)
    requires IsDigest(a.binding) && IsDigest(b.binding) && a.DescriptorText() == b.DescriptorText()
    ensures a == b
  {
    DescriptorInjective(a.binding, a.stat, b.binding, b.stat);
  }

  lemma DescriptorEnds(g: Generation)
    ensures g.DescriptorText() != [] && g.DescriptorText()[|g.DescriptorText()| - 1] == NEWLINE
  {
    SpacedNumbersEnd(Fields(g.stat));
  }

  lemma DescribedKeeps(sha: Sha256, s: System, g: Generation, purpose: Purpose)
    requires |g.DescriptorText()| <= MAX_RECEIPT_BYTES
    requires PurposeInvariant(s.published, s.states, g.binding, purpose)
    ensures PcInvariant(sha, s.published, s.states, Described(sha, g, purpose))
  {
    DescriptorEnds(g);
    match purpose
    case ForCurrent(state, descriptor) =>
      var e :| (e, state) in s.states && e.binding == g.binding && descriptor == e.DescriptorText();
      if g.DescriptorText() == descriptor {
        SameTextIsSame(g, e);
      }
    case ForPublish(expected, _) =>
      if SameText(g, expected) {
        SameTextIsSame(g, expected);
      }
    case ForPublishCurrent(expected, _) =>
      if SameText(g, expected) {
        SameTextIsSame(g, expected);
      }
    case ForCheck =>
  }

  lemma MeasureKeeps(sha: Sha256, s: System, pc: Pc, directory': map<Name, Text>, pc': Pc)
    requires Invariant(sha, s) && PcInvariant(sha, s.published, s.states, pc)
    requires MeasureStep(sha, s, pc, directory', pc')
    ensures PcInvariant(sha, s.published, s.states, pc')
  {
    if pc.MeasureWalAgain? {
      DescribedKeeps(sha, s, pc.generation, pc.purpose);
    }
  }

  /** The current receipt, read back, names a generation and a state that were published together. */
  lemma ReadCurrentKeeps(sha: Sha256, s: System)
    requires Invariant(sha, s)
    ensures PcInvariant(sha, s.published, s.states, AfterReadCurrent(s.directory))
  {
    if Current in s.directory {
      assert Allowed(sha, s.published, s.states, Current, s.directory[Current]);
      var g, state :| (g, state) in s.states && IsDigest(g.binding) && IsState(state) &&
        IsDescriptorText(g.DescriptorText()) && s.directory[Current] == PrintCurrent(g.binding, state, g.DescriptorText());
      CurrentRoundTrip(g.binding, state, g.DescriptorText());
    }
  }

  lemma ReadReceiptKeeps(sha: Sha256, s: System, g: Generation, state: Option<Text>)
    requires Invariant(sha, s) && PcInvariant(sha, s.published, s.states, ReadReceipt(g, state))
    ensures PcInvariant(sha, s.published, s.states, AfterReadReceipt(sha, s.directory, g, state))
  {
    var name := Receipt(ReceiptName(sha, g));
    if name in s.directory && s.directory[name] == g.DescriptorText() {
      assert Allowed(sha, s.published, s.states, name, s.directory[name]);
      var e :| e in s.published && IsDigest(e.binding) && s.directory[name] == e.DescriptorText();
      SameTextIsSame(e, g);
    }
  }

  lemma FileKeeps(sha: Sha256, p: nat, s: System, pc: Pc, directory': map<Name, Text>, pc': Pc)
    requires Invariant(sha, s) && PcInvariant(sha, s.published, s.states, pc)
    requires FileStep(sha, p, s, pc, directory', pc')
    ensures DirectoryInvariant(sha, s.published, s.states, directory')
    ensures PcInvariant(sha, s.published, s.states, pc')
  {
    match pc
    case ReadCurrent => ReadCurrentKeeps(sha, s);
    case ReadReceipt(g, state) => ReadReceiptKeeps(sha, s, g, state);
    case RenameRepair(w) =>
      if Repair(w.name, p) in s.directory {
        assert Allowed(sha, s.published, s.states, Repair(w.name, p), s.directory[Repair(w.name, p)]);
      }
    case _ =>
  }

  lemma ProcessKeeps(sha: Sha256, p: nat, s: System, pc: Pc, directory': map<Name, Text>, pc': Pc)
    requires Invariant(sha, s) && PcInvariant(sha, s.published, s.states, pc)
    requires ProcessStep(sha, p, s, pc, directory', pc')
    ensures DirectoryInvariant(sha, s.published, s.states, directory')
    ensures PcInvariant(sha, s.published, s.states, pc')
  {
    if MeasureStep(sha, s, pc, directory', pc') {
      MeasureKeeps(sha, s, pc, directory', pc');
    } else if FileStep(sha, p, s, pc, directory', pc') {
      FileKeeps(sha, p, s, pc, directory', pc');
    }
  }

  lemma BeginKeeps(sha: Sha256, s: System, s': System, p: nat, pc: Pc)
    requires Invariant(sha, s) && Begins(s, pc, s'.published, s'.states)
    requires s' == s.(published := s'.published, states := s'.states, processes := s.processes[p := pc])
    ensures Invariant(sha, s')
  {
    assert s.published <= s'.published && s.states <= s'.states;
    forall n | n in s'.directory ensures Allowed(sha, s'.published, s'.states, n, s'.directory[n]) {
      AllowedGrows(sha, s.published, s.states, s'.published, s'.states, n, s.directory[n]);
    }
    forall q | q in s'.processes ensures PcInvariant(sha, s'.published, s'.states, s'.processes[q]) {
      if q != p {
        PcInvariantGrows(sha, s.published, s.states, s'.published, s'.states, s.processes[q]);
      }
    }
  }

  lemma NextKeeps(sha: Sha256, s: System, s': System)
    requires Invariant(sha, s) && Next(sha, s, s')
    ensures Invariant(sha, s')
  {
    if p: nat, pc :| p !in s.processes && Begins(s, pc, s'.published, s'.states) &&
                     s' == s.(published := s'.published, states := s'.states, processes := s.processes[p := pc]) {
      BeginKeeps(sha, s, s', p, pc);
    } else if p: nat, pc' :| p in s.processes && ProcessStep(sha, s.owner(p), s, s.processes[p], s'.directory, pc') &&
                             s' == s.(directory := s'.directory, processes := s.processes[p := pc']) {
      ProcessKeeps(sha, s.owner(p), s, s.processes[p], s'.directory, pc');
    }
  }

  lemma {:induction false} RunKeeps(sha: Sha256, run: seq<System>, n: nat)
    requires Run(sha, run) && n < |run|
    ensures Invariant(sha, run[n])
  {
    if n > 0 {
      RunKeeps(sha, run, n - 1);
      NextKeeps(sha, run[n - 1], run[n]);
    }
  }

  /** `check` answers `Hit` only for a generation that `publish` was called on. */
  lemma HitWasPublished(sha: Sha256, run: seq<System>, n: nat, p: nat, g: Generation)
    requires Run(sha, run) && n < |run|
    requires p in run[n].processes && run[n].processes[p] == Done(Hit(g))
    ensures g in run[n].published
  {
    RunKeeps(sha, run, n);
  }

  /** `current` answers only with a state that `publish_current` was given for exactly that generation. */
  lemma CurrentHitWasPublished(sha: Sha256, run: seq<System>, n: nat, p: nat, g: Generation, state: Text)
    requires Run(sha, run) && n < |run|
    requires p in run[n].processes && run[n].processes[p] == Done(CurrentHit(g, state))
    ensures (g, state) in run[n].states && g in run[n].published
  {
    RunKeeps(sha, run, n);
  }

  // ---------------------------------------------------------------- undisturbed calls

  /** `n` steps lead from the one state to the other. */
  ghost predicate Reaches(sha: Sha256, s: System, t: System, n: nat)
    decreases n
  {
    if n == 0 then s == t else exists m :: Next(sha, s, m) && Reaches(sha, m, t, n - 1)
  }

  function At(s: System, p: nat): Option<Pc> { if p in s.processes then Some(s.processes[p]) else None }

  lemma StepThen(sha: Sha256, s: System, m: System, t: System, p: nat, pc: Pc, n: nat)
    requires p in s.processes && ProcessStep(sha, s.owner(p), s, s.processes[p], m.directory, pc)
    requires m == s.(directory := m.directory, processes := s.processes[p := pc])
    requires Reaches(sha, m, t, n)
    ensures Reaches(sha, s, t, n + 1)
  {
    assert Next(sha, s, m);
  }

  /** A step that leaves the directory alone. */
  function Moved(s: System, p: nat, pc: Pc): System { s.(processes := s.processes[p := pc]) }

  predicate Describable(s: System, g: Generation) {
    s.database == Database(g.stat, true, true) && |g.DescriptorText()| <= MAX_RECEIPT_BYTES
  }

  lemma QuietStep(sha: Sha256, s: System, t: System, p: nat, pc: Pc, pc': Pc, n: nat)
    requires MeasureStep(sha, s, pc, s.directory, pc') && p in s.processes
    requires Reaches(sha, Moved(s, p, pc'), t, n)
    ensures Reaches(sha, Moved(s, p, pc), t, n + 1)
  {
    var from := Moved(s, p, pc);
    assert Moved(from, p, pc') == Moved(s, p, pc');
    StepThen(sha, from, Moved(s, p, pc'), t, p, pc', n);
  }

  /** Measuring a quiet, protected database takes four steps, whatever it is for. */
  lemma MeasureThen(sha: Sha256, s: System, t: System, p: nat, g: Generation, purpose: Purpose, n: nat)
    requires At(s, p) == Some(MeasureWal(g.binding, purpose)) && Describable(s, g)
    requires Reaches(sha, Moved(s, p, Described(sha, g, purpose)), t, n)
    ensures Reaches(sha, s, t, n + 4)
  {
    MeasureAgainThen(sha, s, t, p, g, purpose, n);
    QuietStep(sha, s, t, p, MeasureFile(g.binding, purpose), MeasureAgain(g, purpose), n + 2);
    QuietStep(sha, s, t, p, MeasureWal(g.binding, purpose), MeasureFile(g.binding, purpose), n + 3);
    assert Moved(s, p, MeasureWal(g.binding, purpose)) == s;
  }

  lemma MeasureAgainThen(sha: Sha256, s: System, t: System, p: nat, g: Generation, purpose: Purpose, n: nat)
    requires p in s.processes && Describable(s, g)
    requires Reaches(sha, Moved(s, p, Described(sha, g, purpose)), t, n)
    ensures Reaches(sha, Moved(s, p, MeasureAgain(g, purpose)), t, n + 2)
  {
    QuietStep(sha, s, t, p, MeasureWalAgain(g, purpose), Described(sha, g, purpose), n);
    QuietStep(sha, s, t, p, MeasureAgain(g, purpose), MeasureWalAgain(g, purpose), n + 1);
  }

  /** The receipt of this generation is there. */
  predicate HasReceipt(sha: Sha256, s: System, g: Generation) {
    var name := Receipt(ReceiptName(sha, g));
    name in s.directory && s.directory[name] == g.DescriptorText()
  }

  /** Moving on with another directory. */
  function Changed(s: System, p: nat, directory: map<Name, Text>, pc: Pc): System {
    s.(directory := directory, processes := s.processes[p := pc])
  }

  lemma FileThen(sha: Sha256, s: System, p: nat, directory: map<Name, Text>, pc: Pc, t: System, n: nat)
    requires p in s.processes && FileStep(sha, s.owner(p), s, s.processes[p], directory, pc)
    requires Reaches(sha, Changed(s, p, directory, pc), t, n)
    ensures Reaches(sha, s, t, n + 1)
  {
    StepThen(sha, s, Changed(s, p, directory, pc), t, p, pc, n);
  }

  /** Reading a receipt that is there. */
  lemma ReadThen(sha: Sha256, s: System, p: nat, g: Generation) returns (t: System)
    requires At(s, p) == Some(ReadReceipt(g, None)) && HasReceipt(sha, s, g) && |g.DescriptorText()| <= MAX_RECEIPT_BYTES
    ensures Reaches(sha, s, t, 1) && At(t, p) == Some(Done(Hit(g)))
  {
    t := Changed(s, p, s.directory, Done(Hit(g)));
    DescriptorEnds(g);
    assert AfterReadReceipt(sha, s.directory, g, None) == Done(Hit(g));
    assert Reaches(sha, t, t, 0);
    FileThen(sha, s, p, s.directory, Done(Hit(g)), t, 0);
  }

  /** A check of a published generation that is still the database's, left undisturbed, hits. */
  lemma UndisturbedCheckHits(sha: Sha256, s: System, p: nat, g: Generation) returns (t: System)
    requires At(s, p) == Some(MeasureWal(g.binding, ForCheck)) && Describable(s, g) && HasReceipt(sha, s, g)
    ensures Reaches(sha, s, t, 5) && At(t, p) == Some(Done(Hit(g)))
  {
    t := ReadThen(sha, Moved(s, p, ReadReceipt(g, None)), p, g);
    MeasureThen(sha, s, t, p, g, ForCheck, 1);
  }

  /** The last step of a repair, with the repair file there. */
  lemma RenameThen(sha: Sha256, s: System, p: nat, w: Write) returns (t: System)
    requires At(s, p) == Some(RenameRepair(w)) && w.next.None? && !w.name.Repair?
    requires var repair := Repair(w.name, s.owner(p)); repair in s.directory && s.directory[repair] == w.text
    ensures Reaches(sha, s, t, 1) && At(t, p) == Some(Done(Published))
    ensures w.name in t.directory && t.directory[w.name] == w.text && t.database == s.database
  {
    var repair := Repair(w.name, s.owner(p));
    var directory := s.directory[w.name := w.text] - {repair};
    t := Changed(s, p, directory, Done(Published));
    assert Reaches(sha, t, t, 0);
    FileThen(sha, s, p, directory, Done(Published), t, 0);
  }

  /** The repair of a name: the old repair file goes, the new text is linked beside it and renamed over it. */
  lemma RepairThen(sha: Sha256, s: System, p: nat, w: Write) returns (t: System)
    requires At(s, p) == Some(UnlinkRepair(w)) && w.next.None? && !w.name.Repair?
    ensures Reaches(sha, s, t, 3) && At(t, p) == Some(Done(Published))
    ensures w.name in t.directory && t.directory[w.name] == w.text && t.database == s.database
  {
    var repair := Repair(w.name, s.owner(p));
    var without := s.directory - {repair};
    var a := Changed(s, p, without, LinkRepair(w));
    var b := Changed(a, p, without[repair := w.text], RenameRepair(w));
    t := RenameThen(sha, b, p, w);
    FileThen(sha, a, p, without[repair := w.text], RenameRepair(w), t, 1);
    FileThen(sha, s, p, without, LinkRepair(w), t, 2);
  }

  /** From the link on, whatever is under the name: nothing, the text already, or something else. */
  lemma WriteThen(sha: Sha256, s: System, p: nat, w: Write) returns (t: System, n: nat)
    requires At(s, p) == Some(Link(w)) && w.next.None? && !w.name.Repair?
    ensures Reaches(sha, s, t, n) && At(t, p) == Some(Done(Published))
    ensures w.name in t.directory && t.directory[w.name] == w.text && t.database == s.database
  {
    if w.name !in s.directory {
      t, n := Changed(s, p, s.directory[w.name := w.text], Done(Published)), 1;
      assert Reaches(sha, t, t, 0);
      StepThen(sha, s, t, t, p, Done(Published), 0);
    } else {
      var reread := Moved(s, p, Reread(w));
      if s.directory[w.name] == w.text {
        t, n := Moved(reread, p, Done(Published)), 2;
        assert Reaches(sha, t, t, 0);
        StepThen(sha, reread, t, t, p, Done(Published), 0);
        StepThen(sha, s, reread, t, p, Reread(w), 1);
      } else {
        var unlink := Moved(reread, p, UnlinkRepair(w));
        t := RepairThen(sha, unlink, p, w);
        n := 5;
        StepThen(sha, reread, unlink, t, p, UnlinkRepair(w), 3);
        StepThen(sha, s, reread, t, p, Reread(w), 4);
      }
    }
  }

  /** A publication of the generation the database is in, left undisturbed, puts its receipt there, whatever
      is there before: nothing, the same text, or a different or malformed one that is then repaired. */
  lemma UndisturbedPublishes(sha: Sha256, s: System, p: nat, g: Generation) returns (t: System, n: nat)
    requires At(s, p) == Some(MeasureWal(g.binding, ForPublish(g, None))) && Describable(s, g)
    ensures Reaches(sha, s, t, n) && At(t, p) == Some(Done(Published)) && HasReceipt(sha, t, g) && t.database == s.database
  {
    var w := Write(Receipt(ReceiptName(sha, g)), g.DescriptorText(), None);
    t, n := WriteThen(sha, Moved(s, p, Link(w)), p, w);
    MeasureThen(sha, s, t, p, g, ForPublish(g, None), n);
    n := n + 4;
  }
}
