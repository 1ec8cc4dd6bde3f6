/** The resident planner (crates/dnfast-executor/src/resident.rs): a solver pool kept between requests
    while the RPMDB, the published planning snapshot and the receipts change underneath it.

    The outside is a function from instants to what could be observed then; each observation of the
    planner takes the next instant, so anything may change between any two of them. */
module ResidentPlanner {
  import opened Bytes
  import RpmVersion
  import PlanPolicy

  type Text = seq<Byte>
  type Architecture = RpmVersion.Architecture
  type Action = PlanPolicy.Action

  const PLAN_LIFETIME_SECONDS: nat := 300
  const U64_MAX: nat := 0xFFFF_FFFF_FFFF_FFFF
  const SNAPSHOT_SCHEMA_VERSION: nat := 7

  // ---------------------------------------------------------------- the outside

  /** The RPMDB: the cookie librpm reports, the packages it lists, and whether a full verification
      would pass. The cookie says nothing about the last. */
  datatype Database = Database(cookie: Text, inventory: Text, sound: bool)

  /** The planner's copy of what one RPMDB read reported. */
  datatype Reading = Reading(inventory: Text, cookie: Text)

  /** What a verification receipt is issued for. */
  datatype Binding = Binding(architecture: Architecture, cookie: Text, inventory: Text)

  /** A receipt, or the generation a receipt check accepted: one file generation and its binding. */
  datatype Receipt = Receipt(generation: nat, binding: Binding)

  /** The state record beside the current receipt. `wellFormed` is the schema and ABI check. */
  datatype StartupState = StartupState(wellFormed: bool, architecture: Architecture, cookie: Text, inventory: Text)

  datatype CurrentRecord = CurrentRecord(receipt: Receipt, state: Option<StartupState>)

  /** Everything observable at one instant. `generation` is absent while the WAL is active or the file
      system has no checksums; `loaded` is what loading the installed packages into a solver yields. */
  datatype Host = Host(
    works: bool,
    snapshot: Text,
    database: Database,
    generation: Option<nat>,
    receipts: set<Receipt>,
    current: Option<CurrentRecord>,
    loaded: Text)

  /** The content of a published planning snapshot. */
  datatype Payload = Payload(
    schema: nat, architecture: Architecture, policy: Text, inventory: Text, repositories: Text)

  datatype Integrity = Integrity(
    policy: Text, trust: Text, inventory: Text, metadata: Text, snapshot: Text, repositories: seq<Text>)

  datatype Context = Context(installed: Text, repositories: Text, selected: seq<Text>)

  /** Providers found in the file lists for the selector at `index`. */
  datatype Mapped = Mapped(index: nat, providers: seq<nat>)

  /** Everything the native solver and the plan builder are given. */
  datatype Question = Question(
    context: Context, integrity: Integrity, inventory: Text, policy: Text,
    action: Action, packages: seq<Text>, mapped: seq<Mapped>)

  /** The functions whose inside is not modelled: digests, the content addressed by a snapshot digest,
      file lists and the solver. */
  datatype Library = Library(
    sha: Text -> Text,
    payload: Text -> Payload,
    metadata: (nat, Text, seq<Text>) -> Text,
    trust: (Text, seq<Text>) -> Text,
    selectable: (Text, seq<Text>) -> bool,
    indexed: (Text, seq<Text>) -> bool,
    providedBy: (Context, Text) -> bool,
    fileProviders: (Text, seq<Text>, Text) -> seq<nat>,
    answer: Question -> Option<Text>)

  type Outside = nat -> Host

  // ---------------------------------------------------------------- assumptions about the outside

  /** Equal cookies list equal packages. */
  predicate CookieDetermines(host: Outside, t: nat, u: nat) {
    host(t).database.cookie == host(u).database.cookie ==> host(t).database.inventory == host(u).database.inventory
  }

  /** The file generation changes with every change of the database, so an equal generation at two
      instants means that nothing changed from the one to the other. */
  predicate GenerationCovers(host: Outside, a: nat, t: nat, b: nat) {
    a <= t <= b && host(a).generation.Some? && host(a).generation == host(b).generation ==>
      host(t).database == host(a).database
  }

  /** At instant `a` the receipt's generation held a sound database with the bound cookie and packages. */
  predicate Attests(host: Outside, lib: Library, a: nat, r: Receipt) {
    && host(a).generation == Some(r.generation)
    && host(a).database.sound
    && host(a).database.cookie == r.binding.cookie
    && lib.sha(host(a).database.inventory) == r.binding.inventory
  }

  ghost predicate Truthful(host: Outside, lib: Library, r: Receipt) {
    exists a: nat :: Attests(host, lib, a, r)
  }

  /** How a receipt comes to be published: after a hit of the same receipt, or after a full verification that
      passed between two sights of one generation, with the read it was compared with. */
  datatype Publication = OnHit(at: nat) | OnVerification(measured: nat, during: nat, after: nat, again: nat)

  /** The publication happened before this instant, for this receipt. */
  predicate Earned(host: Outside, lib: Library, r: Receipt, p: Publication, now: nat) {
    match p
    case OnHit(at) => at + 1 < now && r in host(at + 1).receipts
    case OnVerification(m, v, b, again) =>
      && m < v < b < again < now
      && host(m).generation == Some(r.generation) == host(again).generation
      && host(v).database.sound && host(b).database.cookie == r.binding.cookie
      && lib.sha(host(b).database.inventory) == r.binding.inventory
  }

  ghost predicate EarnedBefore(host: Outside, lib: Library, r: Receipt, now: nat) {
    exists p :: Earned(host, lib, r, p, now)
  }

  /** A receipt that is there was published before, by a planner like this one. */
  ghost predicate ReceiptEarned(host: Outside, lib: Library, t: nat, r: Receipt) {
    r in host(t).receipts ==> EarnedBefore(host, lib, r, t)
  }

  /** What the planner relies on. Receipts are written by planners alone; what is asked of them here is what
      this planner guarantees of its own, see `published` below. */
  ghost predicate Environment(host: Outside, lib: Library) {
    && (forall t: nat, u: nat :: CookieDetermines(host, t, u))
    && (forall a: nat, t: nat, b: nat :: GenerationCovers(host, a, t, b))
    && (forall t: nat, r: Receipt :: ReceiptEarned(host, lib, t, r))
  }

  /** A verification between two sights of one generation attests the generation's database. */
  lemma VerifiedIsTruthful(host: Outside, lib: Library, r: Receipt, p: Publication, now: nat)
    requires Environment(host, lib) && Earned(host, lib, r, p, now) && p.OnVerification?
    ensures Truthful(host, lib, r)
  {
    assert GenerationCovers(host, p.measured, p.during, p.again);
    assert GenerationCovers(host, p.measured, p.after, p.again);
    assert Attests(host, lib, p.measured, r);
  }

  /** If every receipt was published as planners publish, every receipt there ever is tells the truth: a hit
      leads back to earlier hits and in the end to a verification. */
  lemma {:induction false} ReceiptsAreHonest(host: Outside, lib: Library, r: Receipt, t: nat)
    requires Environment(host, lib) && r in host(t).receipts
    ensures Truthful(host, lib, r)
    decreases t, 1
  {
    assert ReceiptEarned(host, lib, t, r);
    var p :| Earned(host, lib, r, p, t);
    EarnedIsTruthful(host, lib, r, p, t);
  }

  lemma {:induction false} EarnedIsTruthful(host: Outside, lib: Library, r: Receipt, p: Publication, now: nat)
    requires Environment(host, lib) && Earned(host, lib, r, p, now)
    ensures Truthful(host, lib, r)
    decreases now, 0
  {
    match p
    case OnHit(at) => ReceiptsAreHonest(host, lib, r, at + 1);
    case OnVerification(_, _, _, _) => VerifiedIsTruthful(host, lib, r, p, now);
  }

  /** Any later or earlier sight of a truthful receipt's generation is a sight of the same database. */
  lemma GenerationSeen(host: Outside, lib: Library, r: Receipt, t: nat)
    requires Environment(host, lib) && Truthful(host, lib, r)
    requires host(t).generation == Some(r.generation)
    ensures Attests(host, lib, t, r)
  {
    var a: nat :| Attests(host, lib, a, r);
    assert if a <= t then GenerationCovers(host, a, t, t) else GenerationCovers(host, t, a, a);
  }

  // ---------------------------------------------------------------- receipts

  datatype Check = Hit(receipt: Receipt) | Miss(receipt: Receipt) | Unsupported | CheckFailed

  /** `RpmDbReceiptCache::check`: measure the generation, then look for its receipt. */
  function CheckReceipt(host: Outside, t: nat, binding: Binding): Check {
    if !host(t).works || !host(t + 1).works then CheckFailed
    else match host(t).generation
      case None => Unsupported
      case Some(g) =>
        var r := Receipt(g, binding);
        if r in host(t + 1).receipts then Hit(r) else Miss(r)
  }

  function IsCurrent(host: Outside, t: nat, expected: Receipt): (r: Result<bool, ()>) {
    match CheckReceipt(host, t, expected.binding)
    case CheckFailed => Err(())
    case c => Ok(c == Hit(expected))
  }

  /** `RpmDbReceiptCache::current`: read the current record, measure, look for the receipt. */
  function CurrentReceipt(host: Outside, t: nat): (r: Result<Option<CurrentRecord>, ()>) {
    if !host(t).works || !host(t + 1).works || !host(t + 2).works then Err(())
    else match host(t).current
      case None => Ok(None)
      case Some(c) =>
        Ok(if host(t + 1).generation == Some(c.receipt.generation) && c.receipt in host(t + 2).receipts then Some(c) else None)
  }

  // ---------------------------------------------------------------- planner state

  datatype Plan = Plan(question: Question, answer: Text, expires: nat)

  datatype CachedSolve = CachedSolve(action: Action, packages: seq<Text>, plan: Plan)

  datatype Pool = Pool(
    snapshot: Text,
    repositoryIds: seq<Text>,
    integrity: Integrity,
    policy: Text,
    context: Context,
    inventory: Text,
    cookie: Text,
    generation: Option<Receipt>,
    lastSolve: Option<CachedSolve>,
    trimPending: bool)

  datatype Pending = Pending(
    architecture: Architecture, context: Context, reading: Reading, generation: Option<Receipt>)

  /** Why a cookie was accepted. */
  datatype Evidence =
    | ByReceipt(at: nat, receipt: Receipt)
    | ByVerification(before: nat, during: nat, after: nat)
    | ByTransaction(at: nat, reported: Text)

  /** The instant at which the accepted cookie was the RPMDB's. */
  function SeenAt(e: Evidence): nat {
    match e
    case ByReceipt(at, _) => at
    case ByVerification(_, _, after) => after
    case ByTransaction(at, _) => at
  }

  /** The receipt is there for the generation of a sound database. */
  predicate ReceiptHolds(host: Outside, at: nat, receipt: Receipt) {
    host(at).generation == Some(receipt.generation) && receipt in host(at + 1).receipts && host(at).database.sound
  }

  /** The evidence is a receipt hit on a sound database, a passed full verification between two equal
      reads, or the RPMDB agreeing with what a transaction reported, and it is about this cookie. */
  predicate Supports(host: Outside, lib: Library, e: Evidence, cookie: Text) {
    && host(SeenAt(e)).database.cookie == cookie
    && match e
       case ByReceipt(at, receipt) => ReceiptHolds(host, at, receipt) && receipt.binding.cookie == cookie
       case ByVerification(a, v, b) => a < v < b && host(v).database.sound && host(a).database.cookie == cookie
       case ByTransaction(at, reported) => lib.sha(host(at).database.inventory) == lib.sha(reported)
  }

  /** All of the evidence was gathered at or after this instant. */
  predicate Since(e: Evidence, start: nat) {
    match e
    case ByReceipt(at, _) => start <= at
    case ByVerification(a, _, _) => start <= a
    case ByTransaction(at, _) => start <= at
  }

  // ---------------------------------------------------------------- what a fresh solve gives

  /** The version the metadata digest of a snapshot of this schema is tagged with. */
  function MetadataDomain(schema: nat): nat { if schema >= SNAPSHOT_SCHEMA_VERSION then 5 else if schema >= 5 then 4 else 3 }

  function IntegrityFor(lib: Library, digest: Text, repositories: seq<Text>): Integrity {
    var p := lib.payload(digest);
    Integrity(lib.sha(p.policy), lib.trust(p.repositories, repositories), lib.sha(p.inventory),
              lib.metadata(MetadataDomain(p.schema), p.repositories, repositories), digest, repositories)
  }

  predicate IsPath(selector: Text) { selector != [] && selector[0] == '/' as int }

  /** The selector at position `i` has to be looked up in the file lists. */
  predicate Unprovided(lib: Library, context: Context, selector: Text) {
    IsPath(selector) && !lib.providedBy(context, selector)
  }

  /** `mapped_file_selectors`: the providers of each path that primary metadata does not provide. */
  function MapSelectors(lib: Library, context: Context, digest: Text, names: seq<Text>): seq<Mapped> {
    if names == [] then []
    else
      var last := |names| - 1;
      var found := lib.fileProviders(digest, context.selected, names[last]);
      MapSelectors(lib, context, digest, names[..last]) +
      if Unprovided(lib, context, names[last]) && found != [] then [Mapped(last, found)] else []
  }

  /** The speculative reader: it has no pool yet, so it looks up every path selector. */
  function Prefetch(lib: Library, digest: Text, selected: seq<Text>, names: seq<Text>): seq<Mapped> {
    if names == [] then []
    else
      var last := |names| - 1;
      Prefetch(lib, digest, selected, names[..last]) +
      if IsPath(names[last]) then [Mapped(last, lib.fileProviders(digest, selected, names[last]))] else []
  }

  /** `mapped_file_selectors_from_prefetch`. */
  function FromPrefetch(lib: Library, context: Context, prefetched: seq<Mapped>, names: seq<Text>): seq<Mapped>
    requires forall m :: m in prefetched ==> m.index < |names|
  {
    if prefetched == [] then []
    else
      var m := prefetched[|prefetched| - 1];
      FromPrefetch(lib, context, prefetched[..|prefetched| - 1], names) +
      if Unprovided(lib, context, names[m.index]) && m.providers != [] then [m] else []
  }

  predicate AllPrimary(lib: Library, context: Context, names: seq<Text>) {
    forall i :: 0 <= i < |names| ==> !Unprovided(lib, context, names[i])
  }

  lemma {:induction false} PrefetchInRange(lib: Library, digest: Text, selected: seq<Text>, names: seq<Text>)
    ensures forall m :: m in Prefetch(lib, digest, selected, names) ==> m.index < |names|
  {
    if names != [] {
      PrefetchInRange(lib, digest, selected, names[..|names| - 1]);
    }
  }

  lemma {:induction false} FromPrefetchPrefix(lib: Library, context: Context, prefetched: seq<Mapped>, names: seq<Text>, n: nat)
    requires n <= |names| && forall m :: m in prefetched ==> m.index < n
    ensures FromPrefetch(lib, context, prefetched, names) == FromPrefetch(lib, context, prefetched, names[..n])
  {
    if prefetched != [] {
      FromPrefetchPrefix(lib, context, prefetched[..|prefetched| - 1], names, n);
    }
  }

  /** Reading the file lists of the pool's own snapshot ahead of the pool changes nothing. */
  lemma {:induction false} PrefetchAgrees(lib: Library, context: Context, digest: Text, names: seq<Text>)
    ensures var p := Prefetch(lib, digest, context.selected, names);
            (forall m :: m in p ==> m.index < |names|) &&
            FromPrefetch(lib, context, p, names) == MapSelectors(lib, context, digest, names)
  {
    PrefetchInRange(lib, digest, context.selected, names);
    if names != [] {
      var last := |names| - 1;
      var shorter := Prefetch(lib, digest, context.selected, names[..last]);
      PrefetchAgrees(lib, context, digest, names[..last]);
      FromPrefetchPrefix(lib, context, shorter, names, last);
      var p := Prefetch(lib, digest, context.selected, names);
      if IsPath(names[last]) {
        assert p[..|p| - 1] == shorter;
      } else {
        assert p == shorter;
      }
    }
  }

  /** When primary metadata provides every path there is nothing to map. */
  lemma {:induction false} NothingToMap(lib: Library, context: Context, digest: Text, names: seq<Text>)
    requires AllPrimary(lib, context, names)
    ensures MapSelectors(lib, context, digest, names) == []
  {
    if names != [] {
      NothingToMap(lib, context, digest, names[..|names| - 1]);
    }
  }

  /** The question a solve of this pool asks. */
  function QuestionOf(lib: Library, pool: Pool, action: Action, names: seq<Text>): Question {
    Question(pool.context, pool.integrity, pool.inventory, pool.policy, action, names,
             MapSelectors(lib, pool.context, pool.snapshot, names))
  }

  /** The plan a solve of this pool builds, without any cache. */
  function FreshPlan(lib: Library, pool: Pool, action: Action, names: seq<Text>, expires: nat): Option<Plan> {
    PlanFor(lib, QuestionOf(lib, pool, action, names), expires)
  }

  function PlanFor(lib: Library, q: Question, expires: nat): Option<Plan> {
    var answer := lib.answer(q);
    if answer.None? then None else Some(Plan(q, answer.value, expires))
  }

  function Expiry(now: nat): nat { if now + PLAN_LIFETIME_SECONDS > U64_MAX then U64_MAX else now + PLAN_LIFETIME_SECONDS }

  // ---------------------------------------------------------------- invariants of the state

  /** The metadata digest of the snapshot the pool was opened from, which a refresh carries over. */
  function CarriedMetadata(lib: Library, pool: Pool): Text {
    var built := lib.payload(pool.snapshot);
    lib.metadata(MetadataDomain(built.schema), built.repositories, pool.repositoryIds)
  }

  /** The integrity is that of the snapshot now published, except that the metadata digest is the one of the
      snapshot the pool was opened from. The repositories of the two are the same, and if they are two then
      the later one was written by a refresh, in the current schema. */
  predicate IntegrityMatches(lib: Library, pool: Pool) {
    var own := IntegrityFor(lib, pool.integrity.snapshot, pool.repositoryIds);
    var built, published := lib.payload(pool.snapshot), lib.payload(pool.integrity.snapshot);
    && pool.integrity == own.(metadata := CarriedMetadata(lib, pool))
    && built.repositories == published.repositories
    && (pool.snapshot == pool.integrity.snapshot || published.schema == SNAPSHOT_SCHEMA_VERSION)
    && pool.policy == published.policy
    && lib.sha(pool.inventory) == pool.integrity.inventory
  }

  /** Whatever was done to a pool, its integrity is the one a rebuild from the published snapshot would compute
      exactly if it was never refreshed or the snapshot it was opened from had the current schema. */
  lemma PoolIntegrityExact(lib: Library, pool: Pool)
    requires IntegrityMatches(lib, pool)
    requires var r := lib.payload(pool.snapshot).repositories;
             forall d: nat | d != 5 :: lib.metadata(d, r, pool.repositoryIds) != lib.metadata(5, r, pool.repositoryIds)
    ensures pool.integrity == IntegrityFor(lib, pool.integrity.snapshot, pool.repositoryIds) <==>
              (pool.snapshot == pool.integrity.snapshot || lib.payload(pool.snapshot).schema >= SNAPSHOT_SCHEMA_VERSION)
  {
    var own := IntegrityFor(lib, pool.integrity.snapshot, pool.repositoryIds);
    assert pool.integrity == own <==> CarriedMetadata(lib, pool) == own.metadata;
  }

  ghost predicate GenerationMatches(host: Outside, lib: Library, generation: Option<Receipt>, reading: Reading) {
    generation.Some? ==>
      && Truthful(host, lib, generation.value)
      && generation.value.binding.cookie == reading.cookie
      && generation.value.binding.inventory == lib.sha(reading.inventory)
  }

  /** The stored solve is a fresh solve of this very pool. */
  predicate SolveBelongs(lib: Library, pool: Pool) {
    pool.lastSolve.Some? ==>
      var s := pool.lastSolve.value;
      FreshPlan(lib, pool, s.action, s.packages, s.plan.expires) == Some(s.plan)
  }

  ghost predicate Accepted(host: Outside, lib: Library, e: Evidence, reading: Reading) {
    && Supports(host, lib, e, reading.cookie)
    && lib.sha(host(SeenAt(e)).database.inventory) == lib.sha(reading.inventory)
  }

  ghost predicate PoolValid(host: Outside, lib: Library, pool: Pool, e: Evidence) {
    && Accepted(host, lib, e, Reading(pool.inventory, pool.cookie))
    && GenerationMatches(host, lib, pool.generation, Reading(pool.inventory, pool.cookie))
    && IntegrityMatches(lib, pool)
    && SolveBelongs(lib, pool)
  }

  ghost predicate PendingValid(host: Outside, lib: Library, pending: Pending, e: Evidence) {
    && Accepted(host, lib, e, pending.reading)
    && GenerationMatches(host, lib, pending.generation, pending.reading)
  }

  /** Every receipt was earned by the time it was published. */
  ghost predicate AllEarned(host: Outside, lib: Library, published: map<Receipt, nat>) {
    forall r :: r in published ==> EarnedBefore(host, lib, r, published[r])
  }

  /** The RPMDB at this instant is the one the pool was accepted with. */
  predicate DatabaseIs(host: Outside, lib: Library, at: nat, pool: Pool) {
    && host(at).database.cookie == pool.cookie
    && lib.sha(host(at).database.inventory) == lib.sha(pool.inventory)
    && (pool.generation.Some? ==> host(at).database.sound)
  }

  /** As `build_pool` leaves it. */
  predicate RebuiltPool(pool: Pool, repositories: seq<Text>) {
    pool.snapshot == pool.integrity.snapshot && pool.context.selected == repositories
  }

  /** The pool fits the request and the published snapshot but its generation has to be asked again. */
  predicate MissedGeneration(host: Outside, at: nat, cached: Option<Pool>, repositories: seq<Text>) {
    && cached.Some? && cached.value.repositoryIds == repositories
    && host(at).snapshot == cached.value.integrity.snapshot && cached.value.generation.Some?
  }

  /** What lets `ensure` keep the pool: the published snapshot is its own, and its generation receipt, or
      without one its cookie, is current. */
  predicate StillHolds(host: Outside, at: nat, cached: Option<Pool>, repositories: seq<Text>) {
    && host(at).works && cached.Some? && cached.value.repositoryIds == repositories
    && cached.value.integrity.snapshot == host(at).snapshot && DatabaseHolds(host, at + 1, cached.value)
  }

  predicate DatabaseHolds(host: Outside, at: nat, pool: Pool) {
    match pool.generation
    case Some(receipt) => IsCurrent(host, at, receipt) == Ok(true)
    case None => host(at).works && host(at).database.cookie == pool.cookie
  }

  /** Instants of a call at which the pool's snapshot was the published one and the pool's packages and
      cookie were the RPMDB's; a pool that still has its generation was then also on a sound database. */
  datatype Confirmation = Confirmation(snapshotAt: nat, databaseAt: nat)

  predicate Confirms(host: Outside, lib: Library, c: Confirmation, start: nat, end: nat, pool: Pool) {
    && start <= c.snapshotAt < end && start <= c.databaseAt < end
    && host(c.snapshotAt).snapshot == pool.integrity.snapshot
    && DatabaseIs(host, lib, c.databaseAt, pool)
  }

  datatype Solved = Solved(plan: Plan, integrity: Integrity, policy: Text, inventory: Text, cookie: Text)

  /** Installed packages about to be built upon. `fullVerify` forbids acceptance by cookie. */
  datatype Installed = Installed(context: Context, reading: Reading, fullVerify: bool, generation: Option<Receipt>)

  /** The reading is what the RPMDB held at that instant, and with a generation it was sound then. */
  ghost predicate InstalledAt(host: Outside, lib: Library, i: Installed, at: nat) {
    && host(at).database.cookie == i.reading.cookie
    && lib.sha(host(at).database.inventory) == lib.sha(i.reading.inventory)
    && GenerationMatches(host, lib, i.generation, i.reading)
    && (i.generation.Some? ==> !i.fullVerify && ReceiptHolds(host, at, i.generation.value))
  }

  /** Nothing fails, nothing changes, and the RPMDB is sound. */
  predicate CalmAt(host: Outside, t: nat) {
    host(t).works && host(t).database.sound && host(t).database == host(0).database && host(t).snapshot == host(0).snapshot
  }

  ghost predicate Calm(host: Outside) { forall t: nat :: CalmAt(host, t) }

  /** ... and the RPMDB lists these packages. */
  ghost predicate CalmWith(host: Outside, lib: Library, inventory: Text) {
    Calm(host) && lib.sha(host(0).database.inventory) == lib.sha(inventory)
  }

  /** The published snapshot offers the repositories and lists the packages of the RPMDB. */
  predicate Buildable(host: Outside, lib: Library, repositories: seq<Text>) {
    && lib.selectable(lib.payload(host(0).snapshot).repositories, repositories)
    && lib.sha(host(0).database.inventory) == lib.sha(lib.payload(host(0).snapshot).inventory)
  }

  class Planner {
    const host: Outside
    const lib: Library
    var clock: nat
    var cached: Option<Pool>
    var verifiedCookie: Option<Text>
    var pending: Option<Pending>
    /** Why the pool, the verified cookie and the pending reading were accepted. */
    ghost var poolBy: Evidence
    ghost var cookieBy: Evidence
    ghost var pendingBy: Evidence
    /** Every receipt this planner published, with the instant it was there at the latest. */
    ghost var published: map<Receipt, nat>

    ghost predicate Valid()
      reads this
    {
      && Environment(host, lib)
      && (cached.Some? ==> PoolValid(host, lib, cached.value, poolBy) && SeenAt(poolBy) < clock)
      && (verifiedCookie.Some? ==> Supports(host, lib, cookieBy, verifiedCookie.value) && SeenAt(cookieBy) < clock)
      && (pending.Some? ==> PendingValid(host, lib, pending.value, pendingBy) && SeenAt(pendingBy) < clock)
      && AllEarned(host, lib, published)
    }

    constructor (host: Outside, lib: Library)
      requires Environment(host, lib)
      ensures Valid() && cached.None? && verifiedCookie.None? && pending.None?
      ensures this.host == host && this.lib == lib
    {
      this.host, this.lib := host, lib;
      clock, cached, verifiedCookie, pending := 0, None, None, None;
      published := map[];
    }

    /** One RPMDB read. */
    method ReadInventory() returns (r: Result<Reading, ()>, ghost at: nat)
      modifies this`clock
      ensures at == old(clock) && clock == at + 1 && (r.Ok? <==> host(at).works)
      ensures r.Ok? ==> host(at).database.cookie == r.value.cookie && host(at).database.inventory == r.value.inventory
    {
      at := clock;
      var h := host(clock);
      clock := clock + 1;
      r := if h.works then Ok(Reading(h.database.inventory, h.database.cookie)) else Err(());
    }

    /** Loads the installed packages into a new solver context. */
    method LoadInstalled() returns (r: Result<Context, ()>)
      modifies this`clock
      ensures clock == old(clock) + 1 && (r.Ok? <==> host(old(clock)).works)
    {
      var h := host(clock);
      clock := clock + 1;
      r := if h.works then Ok(Context(h.loaded, [], [])) else Err(());
    }

    /** `open_installed_context`. */
    method OpenInstalled() returns (r: Result<(Context, Reading), ()>, ghost at: nat)
      modifies this`clock
      ensures old(clock) <= clock
      ensures Calm(host) ==> r.Ok?
      ensures r.Ok? ==> old(clock) <= at < clock &&
                        host(at).database.cookie == r.value.1.cookie && host(at).database.inventory == r.value.1.inventory
    {
      assert Calm(host) ==> CalmAt(host, clock) && CalmAt(host, clock + 1);
      var context := LoadInstalled();
      if context.Err? { return Err(()), 0; }
      var reading;
      reading, at := ReadInventory();
      r := if reading.Ok? then Ok((context.value, reading.value)) else Err(());
    }

    /** `verify_rpmdb_unchanged`: a full verification, then a read that must equal the one before. */
    method VerifyUnchanged(before: Reading, ghost at: nat) returns (r: Result<Reading, ()>, ghost proof: Evidence)
      requires at < clock && host(at).database.cookie == before.cookie
      modifies this`clock
      ensures old(clock) <= clock
      ensures r.Ok? ==> && r.value.cookie == before.cookie && lib.sha(r.value.inventory) == lib.sha(before.inventory)
                        && proof == ByVerification(at, old(clock), old(clock) + 1) && clock == old(clock) + 2
                        && Accepted(host, lib, proof, r.value)
      ensures Calm(host) && lib.sha(host(at).database.inventory) == lib.sha(before.inventory) ==> r.Ok?
    {
      assert Calm(host) ==> CalmAt(host, at) && CalmAt(host, clock) && CalmAt(host, clock + 1);
      proof := ByVerification(at, clock, clock + 1);
      var h := host(clock);
      clock := clock + 1;
      if !h.works || !h.database.sound { return Err(()), proof; }
      var after, _ := ReadInventory();
      if after.Err? { return Err(()), proof; }
      if before.cookie != after.value.cookie || lib.sha(before.inventory) != lib.sha(after.value.inventory) {
        return Err(()), proof;
      }
      r := after;
    }

    /** `publish_current`: the generation must still be the expected one before either file is written. */
    method PublishCurrent(receipt: Receipt, ghost how: Publication) returns (ok: bool)
      requires Environment(host, lib) && AllEarned(host, lib, published)
      requires host(clock).generation == Some(receipt.generation) ==> Earned(host, lib, receipt, how, clock + 1)
      modifies this`clock, this`published
      ensures AllEarned(host, lib, published) && old(clock) <= clock
      ensures ok ==> Truthful(host, lib, receipt)
      ensures ok ==> published == old(published)[receipt := old(clock) + 1]
      ensures published == old(published) || published == old(published)[receipt := old(clock) + 1]
    {
      var first := host(clock);
      clock := clock + 1;
      if !first.works || first.generation != Some(receipt.generation) { return false; }
      EarnedIsTruthful(host, lib, receipt, how, clock);
      assert EarnedBefore(host, lib, receipt, clock);
      published := published[receipt := clock];
      var second := host(clock);
      clock := clock + 1;
      ok := second.works && second.generation == Some(receipt.generation);
    }

    function BindingOf(reading: Reading, architecture: Architecture): Binding {
      Binding(architecture, reading.cookie, lib.sha(reading.inventory))
    }

    /** `verify_startup` from the current receipt alone, without opening the RPMDB. */
    method StartFromReceipt(architecture: Architecture, payload: Payload)
      returns (r: Result<Option<(Reading, Receipt)>, ()>, ghost proof: Evidence)
      requires Environment(host, lib)
      modifies this`clock
      ensures old(clock) <= clock
      ensures r.Ok? && r.value.Some? ==>
                && Since(proof, old(clock)) && SeenAt(proof) < clock && proof.ByReceipt?
                && r.value.value.0.inventory == payload.inventory
                && Accepted(host, lib, proof, r.value.value.0)
                && GenerationMatches(host, lib, Some(r.value.value.1), r.value.value.0)
    {
      proof := ByTransaction(clock, []);
      var current := CurrentReceipt(host, clock);
      clock := clock + 3;
      if current.Err? { return Err(()), proof; }
      if current.value.None? || current.value.value.state.None? { return Ok(None), proof; }
      var record, state := current.value.value, current.value.value.state.value;
      var candidate := Reading(payload.inventory, state.cookie);
      var binding := BindingOf(candidate, architecture);
      var check := CheckReceipt(host, clock, binding);
      proof := ByReceipt(clock, record.receipt);
      clock := clock + 2;
      if check.CheckFailed? { return Err(()), proof; }
      if state.wellFormed && state.architecture == architecture && 0 < |state.cookie| <= 4096 &&
         state.inventory == lib.sha(payload.inventory) && check == Hit(record.receipt) {
        ReceiptsAreHonest(host, lib, record.receipt, clock - 1);
        GenerationSeen(host, lib, record.receipt, clock - 2);
        return Ok(Some((candidate, record.receipt))), proof;
      }
      return Ok(None), proof;
    }

    /** `verify_startup` with the RPMDB opened: by binding receipt, else by full verification. */
    method StartFromDatabase(architecture: Architecture)
      returns (r: Result<(Reading, Option<Receipt>), ()>, ghost proof: Evidence)
      requires Environment(host, lib) && AllEarned(host, lib, published)
      modifies this`clock, this`published
      ensures AllEarned(host, lib, published) && old(clock) <= clock
      ensures r.Ok? ==> && Since(proof, old(clock)) && SeenAt(proof) < clock && !proof.ByTransaction?
                        && Accepted(host, lib, proof, r.value.0)
                        && GenerationMatches(host, lib, r.value.1, r.value.0)
    {
      proof := ByTransaction(clock, []);
      var before, at := ReadInventory();
      if before.Err? { return Err(()), proof; }
      ghost var measured := clock;
      var check := CheckReceipt(host, clock, BindingOf(before.value, architecture));
      clock := clock + 2;
      match check
      case CheckFailed => return Err(()), proof;
      case Hit(receipt) =>
        proof := ByReceipt(measured, receipt);
        ReceiptsAreHonest(host, lib, receipt, measured + 1);
        GenerationSeen(host, lib, receipt, measured);
        var ok := PublishCurrent(receipt, OnHit(measured));
        return (if ok then Ok((before.value, Some(receipt))) else Err(())), proof;
      case Miss(receipt) =>
        var after;
        after, proof := VerifyUnchanged(before.value, at);
        if after.Err? { return Err(()), proof; }
        ghost var how := OnVerification(measured, proof.during, proof.after, clock);
        var ok := PublishCurrent(receipt, how);
        return (if ok then Ok((after.value, Some(receipt))) else Err(())), proof;
      case Unsupported =>
        var after;
        after, proof := VerifyUnchanged(before.value, at);
        return (if after.Ok? then Ok((after.value, None)) else Err(())), proof;
    }

    /** The reading `verify_startup` settles on: from the current receipt, else from the RPMDB. */
    method StartReading(architecture: Architecture)
      returns (r: Result<Pending, ()>, ghost proof: Evidence)
      requires Environment(host, lib) && AllEarned(host, lib, published)
      modifies this`clock, this`published
      ensures AllEarned(host, lib, published) && old(clock) <= clock
      ensures r.Ok? ==> && PendingValid(host, lib, r.value, proof) && r.value.architecture == architecture
                        && Since(proof, old(clock)) && SeenAt(proof) < clock && !proof.ByTransaction?
    {
      var h := host(clock);
      clock := clock + 1;
      proof := ByTransaction(clock, []);
      var payload := lib.payload(h.snapshot);
      if !h.works || payload.architecture != architecture { return Err(()), proof; }
      var quick;
      quick, proof := StartFromReceipt(architecture, payload);
      if quick.Err? { return Err(()), proof; }
      var reading, generation;
      if quick.value.Some? {
        reading, generation := quick.value.value.0, Some(quick.value.value.1);
      } else {
        var slow;
        slow, proof := StartFromDatabase(architecture);
        if slow.Err? { return Err(()), proof; }
        reading, generation := slow.value.0, slow.value.1;
      }
      var context := LoadInstalled();
      r := if context.Ok? then Ok(Pending(architecture, context.value, reading, generation)) else Err(());
    }

    /** `verify_startup`. A failure leaves the planner as it was. */
    method VerifyStartup(architecture: Architecture) returns (ok: bool)
      requires Valid()
      modifies this
      ensures Valid() && old(clock) <= clock
      ensures cached == old(cached) && poolBy == old(poolBy)
      ensures !ok ==> verifiedCookie == old(verifiedCookie) && pending == old(pending)
      ensures ok ==> && pending.Some? && pending.value.architecture == architecture
                     && verifiedCookie == Some(pending.value.reading.cookie)
                     && cookieBy == pendingBy && Since(cookieBy, old(clock)) && !cookieBy.ByTransaction?
    {
      var start, proof := StartReading(architecture);
      ok := start.Ok?;
      if ok {
        verifiedCookie, cookieBy := Some(start.value.reading.cookie), proof;
        pending, pendingBy := Some(start.value), proof;
      }
    }

    /** The installed packages a pool is built on: the pending ones while their generation is current or
        the RPMDB still reads the same, else a newly opened context. */
    method TakeInstalled(pending: Option<Pending>, ghost pendingBy: Evidence, architecture: Architecture)
      returns (r: Result<Installed, ()>, ghost at: nat)
      requires Environment(host, lib) && (pending.Some? ==> PendingValid(host, lib, pending.value, pendingBy))
      modifies this`clock
      ensures old(clock) <= clock
      ensures r.Ok? ==> && old(clock) <= at < clock && InstalledAt(host, lib, r.value, at)
                        && (r.value.fullVerify || r.value.generation.Some? ==> pending.Some? && pending.value.generation.Some?)
                        && (pending.Some? && pending.value.architecture == architecture && pending.value.generation.Some? ==>
                              r.value.fullVerify || r.value.generation.Some?)
      ensures Calm(host) ==> r.Ok?
    {
      assert Calm(host) ==> CalmAt(host, clock) && CalmAt(host, clock + 1) && CalmAt(host, clock + 2);
      at := clock;
      var fullVerify := false;
      if pending.Some? && pending.value.architecture == architecture {
        var p := pending.value;
        if p.generation.Some? {
          var current := IsCurrent(host, clock, p.generation.value);
          clock := clock + 2;
          if current.Err? { return Err(()), at; }
          if current.value {
            GenerationSeen(host, lib, p.generation.value, at);
            return Ok(Installed(p.context, p.reading, false, p.generation)), at;
          }
          fullVerify := true;
        }
        var live;
        live, at := ReadInventory();
        if live.Err? { return Err(()), at; }
        if live.value.cookie == p.reading.cookie && lib.sha(live.value.inventory) == lib.sha(p.reading.inventory) {
          return Ok(Installed(p.context, live.value, fullVerify, None)), at;
        }
      }
      var reopened;
      reopened, at := OpenInstalled();
      r := if reopened.Ok? then Ok(Installed(reopened.value.0, reopened.value.1, fullVerify, None)) else Err(());
    }

    /** The acceptance step of `build_pool`: a full verification unless a generation receipt holds or the
        cookie was verified before. */
    method AcceptInstalled(installed: Installed, ghost at: nat, verified: Option<Text>, ghost verifiedBy: Evidence)
      returns (r: Result<Reading, ()>, ghost proof: Evidence, ghost seen: nat)
      requires Environment(host, lib) && at < clock && InstalledAt(host, lib, installed, at)
      requires verified.Some? ==> Supports(host, lib, verifiedBy, verified.value) && SeenAt(verifiedBy) < clock
      modifies this`clock
      ensures old(clock) <= clock
      ensures r.Ok? ==> && Accepted(host, lib, proof, r.value) && SeenAt(proof) < clock
                        && InstalledAt(host, lib, installed.(reading := r.value), seen) && at <= seen < clock
                        && (Since(proof, at) || (proof == verifiedBy && verified == Some(r.value.cookie) &&
                                                 !installed.fullVerify && installed.generation.None?))
      ensures Calm(host) ==> r.Ok?
    {
      var reading := installed.reading;
      seen := at;
      if installed.fullVerify || verified != Some(reading.cookie) {
        r, proof := VerifyUnchanged(reading, at);
        if r.Ok? && installed.generation.None? { seen := proof.after; }
        if r.Ok? { assert CookieDetermines(host, at, proof.after); }
      } else if installed.generation.Some? {
        r, proof := Ok(reading), ByReceipt(at, installed.generation.value);
      } else {
        assert CookieDetermines(host, SeenAt(verifiedBy), at);
        r, proof := Ok(reading), verifiedBy;
      }
    }

    /** `build_pool`. */
    method BuildPool(digest: Text, repositories: seq<Text>, verified: Option<Text>, ghost verifiedBy: Evidence,
                     pending: Option<Pending>, ghost pendingBy: Evidence)
      returns (r: Result<Pool, ()>, ghost proof: Evidence, ghost seen: nat)
      requires Environment(host, lib) && (pending.Some? ==> PendingValid(host, lib, pending.value, pendingBy))
      requires verified.Some? ==> Supports(host, lib, verifiedBy, verified.value) && SeenAt(verifiedBy) < clock
      modifies this`clock
      ensures old(clock) <= clock
      ensures r.Ok? ==> && PoolValid(host, lib, r.value, proof) && SeenAt(proof) < clock
                        && r.value.integrity == IntegrityFor(lib, digest, repositories) && r.value.snapshot == digest
                        && r.value.repositoryIds == repositories && r.value.context.selected == repositories
                        && r.value.lastSolve.None?
                        && old(clock) <= seen < clock && DatabaseIs(host, lib, seen, r.value)
                        && (Since(proof, old(clock)) || (proof == verifiedBy && verified == Some(r.value.cookie) &&
                              (pending.Some? && pending.value.architecture == lib.payload(digest).architecture ==>
                                 pending.value.generation.None?)))
      ensures Calm(host) && Buildable(host, lib, repositories) && digest == host(0).snapshot ==> r.Ok?
    {
      var payload := lib.payload(digest);
      var installed, at := TakeInstalled(pending, pendingBy, payload.architecture);
      proof, seen := ByTransaction(at, []), at;
      if installed.Err? { return Err(()), proof, seen; }
      var reading;
      reading, proof, seen := AcceptInstalled(installed.value, at, verified, verifiedBy);
      if reading.Err? { return Err(()), proof, seen; }
      assert Calm(host) ==> CalmAt(host, seen) && CalmAt(host, clock);
      if lib.sha(reading.value.inventory) != lib.sha(payload.inventory) { return Err(()), proof, seen; }
      var h := host(clock);
      clock := clock + 1;
      if !h.works || !lib.selectable(payload.repositories, repositories) { return Err(()), proof, seen; }
      r := Ok(Pool(digest, repositories, IntegrityFor(lib, digest, repositories), payload.policy,
                   Context(installed.value.context.installed, payload.repositories, repositories),
                   reading.value.inventory, reading.value.cookie, installed.value.generation, None, true));
    }

    /** Whether the RPMDB is still the pool's: by its generation, or failing a generation by its cookie. */
    method PoolCurrent(pool: Pool, ghost proof: Evidence) returns (r: Result<bool, ()>)
      requires Environment(host, lib) && PoolValid(host, lib, pool, proof)
      modifies this`clock
      ensures old(clock) < clock
      ensures r == Ok(true) <==> DatabaseHolds(host, old(clock), pool)
      ensures r == Ok(true) ==> DatabaseIs(host, lib, old(clock), pool)
      ensures Calm(host) ==> r.Ok?
    {
      assert Calm(host) ==> CalmAt(host, clock) && CalmAt(host, clock + 1);
      ghost var at := clock;
      if pool.generation.Some? {
        r := IsCurrent(host, clock, pool.generation.value);
        clock := clock + 2;
        if r == Ok(true) { GenerationSeen(host, lib, pool.generation.value, at); }
      } else {
        var live, _ := ReadInventory();
        assert CookieDetermines(host, at, SeenAt(proof));
        r := if live.Err? then Err(()) else Ok(live.value.cookie == pool.cookie);
      }
    }

    /** The checks of `ensure` that keep the pool: its snapshot is published and its generation, or
        failing a generation its cookie, is current. Some(missed) asks for a rebuild. */
    method StillCurrent(repositories: seq<Text>)
      returns (r: Result<Option<bool>, ()>, ghost c: Confirmation)
      requires Environment(host, lib)
      requires cached.Some? ==> PoolValid(host, lib, cached.value, poolBy)
      modifies this`clock
      ensures old(clock) < clock
      ensures r == Ok(None) <==> StillHolds(host, old(clock), cached, repositories)
      ensures r == Ok(None) ==> Confirms(host, lib, c, old(clock), clock, cached.value)
      ensures r.Ok? && r.value.Some? ==>
                r.value.value == MissedGeneration(host, old(clock), cached, repositories)
      ensures Calm(host) ==> r.Ok?
    {
      c := Confirmation(clock, clock + 1);
      var h := host(clock);
      clock := clock + 1;
      assert Calm(host) ==> CalmAt(host, c.snapshotAt);
      if !h.works { return Err(()), c; }
      if cached.None? || cached.value.repositoryIds != repositories || cached.value.integrity.snapshot != h.snapshot {
        return Ok(Some(false)), c;
      }
      var current := PoolCurrent(cached.value, poolBy);
      r := if current.Err? then Err(()) else if current.value then Ok(None) else Ok(Some(cached.value.generation.Some?));
    }

    method KeepPool(pool: Pool, ghost proof: Evidence)
      requires Valid() && PoolValid(host, lib, pool, proof) && SeenAt(proof) < clock
      modifies this`cached, this`poolBy, this`verifiedCookie, this`cookieBy
      ensures Valid() && cached == Some(pool) && poolBy == proof
      ensures verifiedCookie == Some(pool.cookie) && cookieBy == proof
    {
      verifiedCookie, cookieBy := Some(pool.cookie), proof;
      cached, poolBy := Some(pool), proof;
    }

    /** Opens the published snapshot and builds a pool from it, taking the pending context. */
    method OpenAndBuild(repositories: seq<Text>)
      returns (r: Result<Pool, ()>, ghost proof: Evidence, ghost c: Confirmation)
      requires Valid()
      modifies this`clock, this`pending
      ensures old(clock) < clock && pending in {None, old(pending)}
      ensures r.Ok? ==> && pending.None? && r.value.repositoryIds == repositories && r.value.lastSolve.None?
                        && PoolValid(host, lib, r.value, proof) && SeenAt(proof) < clock
                        && Confirms(host, lib, c, old(clock), clock, r.value) && RebuiltPool(r.value, repositories)
                        && (Since(proof, old(clock)) || (verifiedCookie == Some(r.value.cookie) && proof == cookieBy))
      ensures Calm(host) && Buildable(host, lib, repositories) ==> r.Ok?
    {
      assert Calm(host) ==> CalmAt(host, clock);
      c, proof := Confirmation(clock, clock), poolBy;
      var h := host(clock);
      clock := clock + 1;
      r := Err(());
      if h.works && lib.selectable(lib.payload(h.snapshot).repositories, repositories) {
        var taken := pending;
        pending := None;
        ghost var seen;
        r, proof, seen := BuildPool(h.snapshot, repositories, verifiedCookie, cookieBy, taken, pendingBy);
        c := c.(databaseAt := seen);
      }
    }

    /** The rebuild of `ensure`. */
    method Rebuild(repositories: seq<Text>, missed: bool) returns (ok: bool, ghost c: Confirmation)
      requires Valid()
      modifies this
      ensures Valid() && old(clock) < clock && published == old(published)
      ensures ok ==> && cached.Some? && cached.value.repositoryIds == repositories && cached.value.lastSolve.None?
                     && Confirms(host, lib, c, old(clock), clock, cached.value)
                     && RebuiltPool(cached.value, repositories)
                     && verifiedCookie == Some(cached.value.cookie) && cookieBy == poolBy && pending.None?
                     && (Since(poolBy, old(clock)) ||
                         (!missed && old(verifiedCookie) == Some(cached.value.cookie) && poolBy == old(cookieBy)))
      ensures !ok ==> cached == old(cached) && (verifiedCookie == old(verifiedCookie) || verifiedCookie.None?)
      ensures Calm(host) && Buildable(host, lib, repositories) ==> ok
    {
      if missed { verifiedCookie := None; }
      var pool, proof, confirmed := OpenAndBuild(repositories);
      c := confirmed;
      ok := pool.Ok?;
      if ok { KeepPool(pool.value, proof); }
    }

    /** `ensure`: on success the pool's snapshot and RPMDB state were current during this call. After a
        generation miss the new pool rests on evidence gathered in this call, never on the cookie. */
    method Ensure(repositories: seq<Text>) returns (ok: bool, ghost c: Confirmation)
      requires Valid()
      modifies this
      ensures Valid() && old(clock) < clock && published == old(published)
      ensures ok ==> && cached.Some? && cached.value.repositoryIds == repositories
                     && Confirms(host, lib, c, old(clock), clock, cached.value)
      ensures StillHolds(host, old(clock), old(cached), repositories) ==> ok && cached == old(cached)
      ensures !ok ==> cached == old(cached) && (verifiedCookie == old(verifiedCookie) || verifiedCookie.None?)
      ensures ok ==> || (cached == old(cached) && poolBy == old(poolBy))
                     || (cached.value.lastSolve.None? && RebuiltPool(cached.value, repositories) &&
                         verifiedCookie == Some(cached.value.cookie) && cookieBy == poolBy && pending.None? &&
                         (Since(poolBy, old(clock)) ||
                          (old(verifiedCookie) == Some(cached.value.cookie) && poolBy == old(cookieBy) &&
                           !MissedGeneration(host, old(clock), old(cached), repositories))))
      ensures Calm(host) && Buildable(host, lib, repositories) ==> ok
    {
      var kept;
      kept, c := StillCurrent(repositories);
      ok := kept == Ok(None);
      if kept.Ok? && kept.value.Some? {
        ok, c := Rebuild(repositories, kept.value.value);
      }
    }

    /** `warm`. */
    method Warm(repositories: seq<Text>) returns (r: Option<Text>, ghost c: Confirmation)
      requires Valid()
      modifies this
      ensures Valid() && published == old(published)
      ensures r.Some? ==> cached.Some? && r.value == cached.value.cookie &&
                          Confirms(host, lib, c, old(clock), clock, cached.value)
      ensures Calm(host) && Buildable(host, lib, repositories) ==> r.Some?
    {
      var ok;
      ok, c := Ensure(repositories);
      r := if ok then Some(cached.value.cookie) else None;
    }

    /** The speculative file list reader, started before there is a pool. */
    method StartPrefetch(names: seq<Text>, repositories: seq<Text>) returns (p: Option<Prefetched>)
      modifies this`clock
      ensures old(clock) <= clock && (cached.Some? ==> clock == old(clock))
      ensures p.Some? ==> cached.None?
      ensures p.Some? && p.value.found.Some? ==> p.value.found.value == Prefetch(lib, p.value.digest, repositories, names)
    {
      p := None;
      if cached.None? && exists i :: 0 <= i < |names| && IsPath(names[i]) {
        var h := host(clock);
        clock := clock + 1;
        p := Some(Prefetched(h.snapshot,
                             if h.works then Some(Prefetch(lib, h.snapshot, repositories, names)) else None));
      }
    }

    /** The selectors mapped through file lists. Whatever was prefetched, they are the pool's own. */
    method MapNames(pool: Pool, names: seq<Text>, prefetched: Option<Prefetched>) returns (r: Option<seq<Mapped>>)
      requires FitsPrefetch(lib, pool, names, prefetched)
      ensures r.Some? ==> r.value == MapSelectors(lib, pool.context, pool.snapshot, names)
    {
      match prefetched
      case None => r := Some(MapSelectors(lib, pool.context, pool.snapshot, names));
      case Some(p) =>
        if AllPrimary(lib, pool.context, names) {
          NothingToMap(lib, pool.context, pool.snapshot, names);
          r := Some([]);
        } else if p.found.None? {
          r := None;
        } else if p.digest == pool.integrity.snapshot {
          PrefetchAgrees(lib, pool.context, pool.snapshot, names);
          r := Some(FromPrefetch(lib, pool.context, p.found.value, names));
        } else {
          r := Some(MapSelectors(lib, pool.context, pool.snapshot, names));
        }
    }

    method SolverWorks() returns (works: bool)
      requires Valid()
      modifies this`clock
      ensures Valid() && old(clock) <= clock
    {
      var h := host(clock);
      clock := clock + 1;
      works := h.works;
    }

    /** Asks the solver about the pool. */
    method Ask(pool: Pool, action: Action, names: seq<Text>, prefetched: Option<Prefetched>, now: nat)
      returns (r: Option<Plan>, asked: bool)
      requires Valid()
      requires FitsPrefetch(lib, pool, names, prefetched)
      modifies this`clock
      ensures Valid() && old(clock) <= clock && (r.Some? ==> asked)
      ensures asked ==> r == FreshPlan(lib, pool, action, names, Expiry(now))
    {
      r, asked := None, false;
      var mapped := MapNames(pool, names, prefetched);
      if mapped.Some? {
        asked := SolverWorks();
        if asked {
          r := PlanFor(lib, Question(pool.context, pool.integrity, pool.inventory, pool.policy, action, names, mapped.value),
                       Expiry(now));
        }
      }
    }

    /** The uncached part of `solve`: ask the solver and remember the answer. */
    method SolveFresh(action: Action, names: seq<Text>, prefetched: Option<Prefetched>, now: nat) returns (r: Option<Plan>)
      requires Valid() && cached.Some?
      requires FitsPrefetch(lib, cached.value, names, prefetched)
      modifies this`clock, this`cached
      ensures Valid() && old(clock) <= clock && cached.Some? && SamePool(cached.value, old(cached).value)
      ensures r.Some? ==> cached.value.lastSolve == Some(CachedSolve(action, names, r.value)) && r.value.expires == Expiry(now)
      ensures r.None? ==> cached.value.lastSolve == old(cached).value.lastSolve
    {
      var asked: bool;
      r, asked := Ask(cached.value, action, names, prefetched, now);
      if asked { KeepSolve(action, names, r); }
    }

    /** Remembers an answer, if there is one. */
    method KeepSolve(action: Action, names: seq<Text>, plan: Option<Plan>)
      requires Valid() && cached.Some?
      requires plan.Some? ==> plan == FreshPlan(lib, cached.value, action, names, plan.value.expires)
      modifies this`cached
      ensures Valid() && cached == Some(old(cached).value.(trimPending := true,
                lastSolve := if plan.None? then old(cached).value.lastSolve else Some(CachedSolve(action, names, plan.value))))
    {
      var pool := cached.value;
      var pool' := pool.(trimPending := true);
      if plan.Some? {
        Remembered(lib, pool, action, names, plan.value);
        pool' := pool'.(lastSolve := Some(CachedSolve(action, names, plan.value)));
      }
      PoolKept(host, lib, pool, pool', poolBy);
      cached := Some(pool');
    }

    /** `solve` once the pool is there: the remembered solve if it fits, else a fresh one. */
    method SolvePool(action: Action, names: seq<Text>, prefetched: Option<Prefetched>, now: nat) returns (r: Option<Plan>)
      requires Valid() && cached.Some? && now <= U64_MAX
      requires FitsPrefetch(lib, cached.value, names, prefetched)
      modifies this`clock, this`cached
      ensures Valid() && old(clock) <= clock && cached.Some? && SamePool(cached.value, old(cached).value)
      ensures Remembers(old(cached).value, action, names, now) ==>
                cached == old(cached) && r == Some(cached.value.lastSolve.value.plan)
      ensures r.Some? ==> && r == FreshPlan(lib, cached.value, action, names, r.value.expires)
                          && (now < r.value.expires || now == U64_MAX) && (r.value.expires == Expiry(now) || cached == old(cached))
    {
      var last := cached.value.lastSolve;
      if last.Some? && last.value.action == action && last.value.packages == names && last.value.plan.expires > now {
        r := Some(last.value.plan);
      } else {
        r := SolveFresh(action, names, prefetched, now);
      }
    }

    /** The part of `solve` before the pool is used: the speculative reader and `ensure`. */
    method PrepareSolve(names: seq<Text>, repositories: seq<Text>)
      returns (ok: bool, prefetched: Option<Prefetched>, ghost c: Confirmation)
      requires Valid()
      modifies this
      ensures Valid() && old(clock) <= clock && published == old(published)
      ensures ok ==> && cached.Some? && cached.value.repositoryIds == repositories
                     && Confirms(host, lib, c, old(clock), clock, cached.value)
                     && FitsPrefetch(lib, cached.value, names, prefetched)
      ensures StillHolds(host, old(clock), old(cached), repositories) ==> ok && cached == old(cached)
      ensures Calm(host) && Buildable(host, lib, repositories) ==> ok
    {
      prefetched := StartPrefetch(names, repositories);
      ok, c := Ensure(repositories);
    }

    /** `solve`. Cached or not, the plan is what a fresh solve of the pool gives, with an expiry that has
        not passed, for a snapshot and an RPMDB state that were current during this call. */
    method Solve(action: Action, names: seq<Text>, repositories: seq<Text>, now: nat)
      returns (r: Option<Solved>, ghost c: Confirmation)
      requires Valid() && now <= U64_MAX
      modifies this
      ensures Valid() && old(clock) <= clock && published == old(published)
      ensures r.Some? ==> && cached.Some? && Confirms(host, lib, c, old(clock), clock, cached.value)
                          && cached.value.repositoryIds == repositories && r.value == SolvedOf(r.value.plan, cached.value)
                          && Some(r.value.plan) == FreshPlan(lib, cached.value, action, names, r.value.plan.expires)
                          && (now < r.value.plan.expires || now == U64_MAX)
      ensures old(cached).Some? && StillHolds(host, old(clock), old(cached), repositories) && Remembers(old(cached).value, action, names, now)
              ==> r.Some? && r.value.plan == old(cached).value.lastSolve.value.plan
    {
      var ok, prefetched, confirmed := PrepareSolve(names, repositories);
      c := confirmed;
      r := None;
      if ok {
        var plan := SolvePool(action, names, prefetched, now);
        r := if plan.None? then None else Some(SolvedOf(plan.value, cached.value));
      }
    }

    /** `requires_full_filelists`: some path selector is answered neither by primary metadata nor, for an
        install, by checksum-bound file indexes. */
    method RequiresFullFilelists(action: Action, names: seq<Text>, repositories: seq<Text>) returns (r: Option<bool>)
      requires Valid()
      modifies this
      ensures Valid() && old(clock) <= clock && published == old(published)
      ensures r == Some(true) ==>
                && cached.Some? && !AllPrimary(lib, cached.value.context, names)
                && (action.Install? ==> !lib.indexed(cached.value.context.repositories, repositories))
    {
      if !exists i :: 0 <= i < |names| && IsPath(names[i]) { return Some(false); }
      if action.Install? {
        var h := host(clock);
        clock := clock + 1;
        var offered := lib.payload(h.snapshot).repositories;
        if !h.works || !lib.selectable(offered, repositories) { return None; }
        if lib.indexed(offered, repositories) { return Some(false); }
      }
      var ok, _ := Ensure(repositories);
      if !ok { return None; }
      var context := cached.value.context;
      r := Some(!AllPrimary(lib, context, names) && (!action.Install? || !lib.indexed(context.repositories, repositories)));
    }

    /** `current_system_digest`. */
    method CurrentDigest() returns (r: Option<Text>, ghost at: nat)
      requires Valid()
      modifies this`clock
      ensures Valid() && at == old(clock) && clock == at + 1
      ensures r == if host(at).works then Some(host(at).snapshot) else None
    {
      at := clock;
      var h := host(clock);
      clock := clock + 1;
      r := if h.works then Some(h.snapshot) else None;
    }

    /** `invalidate`. */
    method Invalidate()
      requires Valid()
      modifies this`cached, this`pending
      ensures Valid() && cached.None? && pending.None?
    {
      cached, pending := None, None;
    }

    /** `take_trim_pending`. */
    method TakeTrimPending() returns (trim: bool)
      requires Valid()
      modifies this`cached
      ensures Valid() && (trim <==> old(cached).Some? && old(cached).value.trimPending)
      ensures cached == if old(cached).None? then None else Some(old(cached).value.(trimPending := false))
    {
      trim := cached.Some? && cached.value.trimPending;
      if cached.Some? { cached := Some(cached.value.(trimPending := false)); }
    }

    /** `refresh_after_mutation`: `published` is the source snapshot with the reported packages. On
        success the pool has forgotten its solve and generation; a pool of another snapshot is dropped,
        and so is one whose RPMDB does not read as reported. */
    method RefreshAfterMutation(inventory: Text, source: Text, publishedSnapshot: Text) returns (ok: bool)
      requires Valid()
      requires lib.payload(publishedSnapshot) == WithInventory(lib.payload(source), inventory)
      modifies this
      ensures Valid() && old(clock) <= clock && published == old(published)
      ensures !ok ==> cached.None? && pending.None?
      ensures ok ==> (cached.None? <==> old(cached).Some? && old(cached).value.integrity.snapshot != source)
      ensures cached.Some? ==>
                && ok && old(cached).Some? && poolBy.ByTransaction? && poolBy.reported == inventory && Since(poolBy, old(clock))
                && cached.value.integrity.snapshot == publishedSnapshot && cached.value.inventory == inventory
                && cached.value.lastSolve.None? && cached.value.generation.None?
                && verifiedCookie == Some(cached.value.cookie) && cookieBy == poolBy
                && cached.value.snapshot == old(cached).value.snapshot
                && cached.value.integrity == Refreshed(lib, old(cached).value.integrity, inventory, publishedSnapshot)
      ensures cached.None? ==> verifiedCookie == old(verifiedCookie)
      ensures old(cached).Some? && old(cached).value.integrity.snapshot == source && CalmWith(host, lib, inventory)
              ==> ok && cached.Some?
    {
      if cached.Some? && cached.value.integrity.snapshot != source {
        cached, pending, ok := None, None, true;
        return;
      }
      var refreshed, proof := ReadRefreshed(inventory, source, publishedSnapshot);
      ok := refreshed.Some?;
      if ok { KeepPool(refreshed.value, proof); } else { Invalidate(); }
    }

    method ReadRefreshed(inventory: Text, source: Text, publishedSnapshot: Text)
      returns (r: Option<Pool>, ghost proof: Evidence)
      requires Valid() && (cached.Some? ==> cached.value.integrity.snapshot == source)
      requires lib.payload(publishedSnapshot) == WithInventory(lib.payload(source), inventory)
      modifies this`clock
      ensures Valid() && old(clock) <= clock
      ensures r.Some? ==> && cached.Some? && PoolValid(host, lib, r.value, proof) && SeenAt(proof) < clock
                          && proof.ByTransaction? && proof.reported == inventory && Since(proof, old(clock))
                          && r.value.inventory == inventory && r.value.lastSolve.None? && r.value.generation.None?
                          && r.value.integrity == Refreshed(lib, cached.value.integrity, inventory, publishedSnapshot)
                          && r.value.snapshot == cached.value.snapshot
      ensures cached.Some? && CalmWith(host, lib, inventory) ==> r.Some?
    {
      assert Calm(host) ==> CalmAt(host, clock) && CalmAt(host, clock + 1);
      proof := poolBy;
      if cached.None? { return None, proof; }
      var context := LoadInstalled();
      if context.Err? { return None, proof; }
      var live, at := ReadInventory();
      if live.Err? || lib.sha(live.value.inventory) != lib.sha(inventory) { return None, proof; }
      proof := ByTransaction(at, inventory);
      RefreshMatches(lib, cached.value, inventory, live.value.cookie, context.value.installed, publishedSnapshot);
      r := Some(RefreshedPool(lib, cached.value, inventory, live.value.cookie, context.value.installed, publishedSnapshot));
    }

    /** The same of the pool of any planner, after any requests and refreshes. */
    lemma RefreshedIntegrityExact()
      requires Valid() && cached.Some?
      requires var r := lib.payload(cached.value.snapshot).repositories;
               forall d: nat | d != 5 :: lib.metadata(d, r, cached.value.repositoryIds) != lib.metadata(5, r, cached.value.repositoryIds)
      ensures cached.value.integrity == IntegrityFor(lib, cached.value.integrity.snapshot, cached.value.repositoryIds) <==>
                (cached.value.snapshot == cached.value.integrity.snapshot ||
                 lib.payload(cached.value.snapshot).schema >= SNAPSHOT_SCHEMA_VERSION)
    {
      PoolIntegrityExact(lib, cached.value);
    }
  }

  lemma PoolKept(host: Outside, lib: Library, pool: Pool, pool': Pool, e: Evidence)
    requires PoolValid(host, lib, pool, e) && SamePool(pool', pool) && SolveBelongs(lib, pool')
    ensures PoolValid(host, lib, pool', e)
  {
  }

  function SolvedOf(plan: Plan, pool: Pool): Solved {
    Solved(plan, pool.integrity, pool.policy, pool.inventory, pool.cookie)
  }

  /** The pool's last solve answers this request and has not expired. */
  predicate Remembers(pool: Pool, action: Action, names: seq<Text>, now: nat) {
    && pool.lastSolve.Some? && pool.lastSolve.value.action == action
    && pool.lastSolve.value.packages == names && pool.lastSolve.value.plan.expires > now
  }

  /** The pools differ at most in the remembered solve and the trim flag. */
  predicate SamePool(a: Pool, b: Pool) { a == b.(lastSolve := a.lastSolve, trimPending := a.trimPending) }

  lemma Remembered(lib: Library, pool: Pool, action: Action, names: seq<Text>, plan: Plan)
    requires FreshPlan(lib, pool, action, names, plan.expires) == Some(plan)
    ensures SolveBelongs(lib, pool.(trimPending := true, lastSolve := Some(CachedSolve(action, names, plan))))
  {
  }

  /** What a file list reader found, for the snapshot it opened; None when it failed. */
  datatype Prefetched = Prefetched(digest: Text, found: Option<seq<Mapped>>)

  /** A prefetch was started without a pool, so the pool is newly built; what it found is what the file lists
      of the snapshot it opened say. */
  predicate FitsPrefetch(lib: Library, pool: Pool, names: seq<Text>, prefetched: Option<Prefetched>) {
    prefetched.Some? ==>
      && RebuiltPool(pool, pool.context.selected)
      && (prefetched.value.found.Some? ==>
            prefetched.value.found.value == Prefetch(lib, prefetched.value.digest, pool.context.selected, names))
  }

  /** `publish_inventory_onto_current`: the same payload with other packages, in the current schema. */
  function WithInventory(p: Payload, inventory: Text): Payload {
    p.(inventory := inventory, schema := SNAPSHOT_SCHEMA_VERSION)
  }

  /** The integrity a refreshed pool is given. */
  function Refreshed(lib: Library, integrity: Integrity, inventory: Text, snapshot: Text): Integrity {
    Integrity(integrity.policy, integrity.trust, lib.sha(inventory), integrity.metadata, snapshot, integrity.repositories)
  }

  /** The pool after a refresh: the snapshot it was opened from stays. */
  function RefreshedPool(lib: Library, pool: Pool, inventory: Text, cookie: Text, installed: Text, snapshot: Text): Pool {
    pool.(integrity := Refreshed(lib, pool.integrity, inventory, snapshot), inventory := inventory, cookie := cookie,
          generation := None, lastSolve := None, context := pool.context.(installed := installed))
  }

  lemma RefreshMatches(lib: Library, pool: Pool, inventory: Text, cookie: Text, installed: Text, snapshot: Text)
    requires IntegrityMatches(lib, pool)
    requires lib.payload(snapshot) == WithInventory(lib.payload(pool.integrity.snapshot), inventory)
    ensures IntegrityMatches(lib, RefreshedPool(lib, pool, inventory, cookie, installed, snapshot))
  {
  }

  /** One refresh: what was reported, what loading and reading gave, and the snapshot then published. */
  datatype Refresh = Refresh(inventory: Text, cookie: Text, installed: Text, snapshot: Text)

  function RefreshAll(lib: Library, pool: Pool, steps: seq<Refresh>): Pool {
    if steps == [] then pool
    else
      var last := steps[|steps| - 1];
      RefreshedPool(lib, RefreshAll(lib, pool, steps[..|steps| - 1]), last.inventory, last.cookie, last.installed, last.snapshot)
  }

  /** The snapshot after these refreshes. */
  function SnapshotAfter(first: Text, steps: seq<Refresh>): Text {
    if steps == [] then first else steps[|steps| - 1].snapshot
  }

  /** Each snapshot is the one before it with the reported packages. */
  predicate Published(lib: Library, first: Text, steps: seq<Refresh>) {
    forall i :: 0 <= i < |steps| ==>
      lib.payload(steps[i].snapshot) == WithInventory(lib.payload(SnapshotAfter(first, steps[..i])), steps[i].inventory)
  }

  /** A newly built pool after any number of refreshes: what a rebuild would compute depends on nothing but the
      schema of the snapshot the pool was opened from, however many refreshes in the current schema follow. */
  lemma {:induction false} RefreshedManyTimes(lib: Library, pool: Pool, steps: seq<Refresh>)
    requires IntegrityMatches(lib, pool) && pool.snapshot == pool.integrity.snapshot
    requires Published(lib, pool.snapshot, steps)
    requires var r := lib.payload(pool.snapshot).repositories;
             forall d: nat | d != 5 :: lib.metadata(d, r, pool.repositoryIds) != lib.metadata(5, r, pool.repositoryIds)
    ensures var last, p := SnapshotAfter(pool.snapshot, steps), RefreshAll(lib, pool, steps);
            && IntegrityMatches(lib, p) && p.integrity.snapshot == last
            && p.snapshot == pool.snapshot && p.repositoryIds == pool.repositoryIds
            && (p.integrity == IntegrityFor(lib, last, pool.repositoryIds) <==>
                  (last == pool.snapshot || lib.payload(pool.snapshot).schema >= SNAPSHOT_SCHEMA_VERSION))
  {
    if steps != [] {
      var n := |steps| - 1;
      forall i | 0 <= i < n
        ensures lib.payload(steps[..n][i].snapshot) ==
                  WithInventory(lib.payload(SnapshotAfter(pool.snapshot, steps[..n][..i])), steps[..n][i].inventory)
      {
        assert steps[..n][..i] == steps[..i];
      }
      RefreshedManyTimes(lib, pool, steps[..n]);
      var last := steps[n];
      RefreshMatches(lib, RefreshAll(lib, pool, steps[..n]), last.inventory, last.cookie, last.installed, last.snapshot);
    }
    PoolIntegrityExact(lib, RefreshAll(lib, pool, steps));
  }

  /** An outside that never changes, without receipts. */
  lemma StillHost(host: Outside, lib: Library, h: Host)
    requires forall t: nat :: host(t) == h
    requires h.works && h.database.sound && h.generation.None? && h.receipts == {}
    ensures Environment(host, lib) && Calm(host)
  {
    forall t: nat ensures CalmAt(host, t) {
      assert host(t) == h;
    }
    forall t: nat, r: Receipt ensures ReceiptEarned(host, lib, t, r) {
      assert host(t) == h;
    }
    forall t: nat, u: nat ensures CookieDetermines(host, t, u) {
      assert host(t) == host(u);
    }
    forall a: nat, t: nat, b: nat ensures GenerationCovers(host, a, t, b) {
      assert host(a) == h;
    }
  }

  /** Such a planner exists and gets there: opened on a schema 6 snapshot and refreshed twice. The second refresh
      starts from a snapshot in the current schema, and still the integrity is not a rebuild's. */
  method TwiceRefreshedDiffers(architecture: Architecture, lib: Library) returns (planner: Planner, warmed: Option<Text>, once: bool, twice: bool)
    ensures warmed.Some? && once && twice && planner.Valid() && planner.cached.Some?
    ensures planner.lib.payload([1]).schema == SNAPSHOT_SCHEMA_VERSION
    ensures planner.cached.value.integrity.snapshot == [2]
    ensures planner.cached.value.integrity != IntegrityFor(planner.lib, [2], [])
  {
    var payload := (d: Text) => Payload(if d == [0] then 6 else SNAPSHOT_SCHEMA_VERSION, architecture, [], [1], []);
    var concrete := lib.(sha := (t: Text) => t, payload := payload,
                         metadata := (d: nat, r: Text, ids: seq<Text>) => if d == 5 then [5] else [4],
                         selectable := (r: Text, ids: seq<Text>) => true);
    var host := (t: nat) => Host(true, [0], Database([9], [1], true), None, {}, None, [1]);
    StillHost(host, concrete, host(0));
    planner := new Planner(host, concrete);
    ghost var c;
    warmed, c := planner.Warm([]);
    once := planner.RefreshAfterMutation([1], [0], [1]);
    twice := planner.RefreshAfterMutation([1], [1], [2]);
  }
}
