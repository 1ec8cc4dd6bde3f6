/** The Prepare, Decision, Outcome exchange of the resident daemon (crates/dnfast-executor/src/resident.rs):
    what a connection can make the daemon do, and the token that ties a decision to a prepared plan. */
module DaemonProtocol {
  import opened Bytes
  import opened Framing
  import ResidentPlanner

  type Text = seq<Byte>
  type Plan = ResidentPlanner.Plan
  type Solved = ResidentPlanner.Solved
  type Action = ResidentPlanner.Action
  type Sha256 = seq<Byte> -> Text

  // ---------------------------------------------------------------- the solve token

  /** What a token is computed from. */
  datatype TokenInput = TokenInput(
    nonce: seq<Byte>, sequence: nat, plan: Text, cookie: Text,
    metadata: Text, trust: Text, policy: Text, expires: nat)

  predicate WellFormed(t: TokenInput) {
    && |t.nonce| == 32 && IsU64(t.sequence) && IsU64(t.expires)
    && Fits(t.plan) && Fits(t.cookie) && Fits(t.metadata) && Fits(t.trust) && Fits(t.policy)
  }

  function TokenTail(t: TokenInput): seq<Byte> {
    Prefixed(t.metadata) + (Prefixed(t.trust) + (Prefixed(t.policy) + Prefixed(U64(t.expires))))
  }

  /** The bytes `solve_token` feeds to the hash. */
  function TokenBytes(t: TokenInput): seq<Byte> {
    Ascii("dnfast-resident-solve-token-v1") +
    (Prefixed(t.nonce) + (Prefixed(U64(t.sequence)) + (Prefixed(t.plan) + (Prefixed(t.cookie) + TokenTail(t)))))
  }

  lemma TokenTailInjective(a: TokenInput, b: TokenInput)
    requires WellFormed(a) && WellFormed(b) && TokenTail(a) == TokenTail(b)
    ensures a.metadata == b.metadata && a.trust == b.trust && a.policy == b.policy && a.expires == b.expires
  {
    PrefixedPeel(a.metadata, b.metadata, Prefixed(a.trust) + (Prefixed(a.policy) + Prefixed(U64(a.expires))),
                 Prefixed(b.trust) + (Prefixed(b.policy) + Prefixed(U64(b.expires))));
    PrefixedPeel(a.trust, b.trust, Prefixed(a.policy) + Prefixed(U64(a.expires)), Prefixed(b.policy) + Prefixed(U64(b.expires)));
    PrefixedPeel(a.policy, b.policy, Prefixed(U64(a.expires)), Prefixed(U64(b.expires)));
    FixedPeel(U64(8), U64(8), U64(a.expires), U64(b.expires));
    U64Injective(a.expires, b.expires);
  }

  /** The token input determines nonce, sequence, plan digest, cookie, metadata, trust, policy and expiry. */
  lemma TokenBytesInjective(a: TokenInput, b: TokenInput)
    requires WellFormed(a) && WellFormed(b) && TokenBytes(a) == TokenBytes(b)
    ensures a == b
  {
    var tag := Ascii("dnfast-resident-solve-token-v1");
    var a3, b3 := Prefixed(a.cookie) + TokenTail(a), Prefixed(b.cookie) + TokenTail(b);
    var a2, b2 := Prefixed(a.plan) + a3, Prefixed(b.plan) + b3;
    var a1, b1 := Prefixed(U64(a.sequence)) + a2, Prefixed(U64(b.sequence)) + b2;
    FixedPeel(tag, tag, Prefixed(a.nonce) + a1, Prefixed(b.nonce) + b1);
    PrefixedPeel(a.nonce, b.nonce, a1, b1);
    PrefixedPeel(U64(a.sequence), U64(b.sequence), a2, b2);
    U64Injective(a.sequence, b.sequence);
    PrefixedPeel(a.plan, b.plan, a3, b3);
    PrefixedPeel(a.cookie, b.cookie, TokenTail(a), TokenTail(b));
    TokenTailInjective(a, b);
  }

  /** `solve_token`. */
  method SolveToken(sha: Sha256, t: TokenInput) returns (token: Text)
    ensures token == sha(TokenBytes(t))
  {
    var h := new Hasher();
    ghost var policyOn := Prefixed(t.policy) + Prefixed(U64(t.expires));
    ghost var trustOn := Prefixed(t.trust) + policyOn;
    ghost var planOn := Prefixed(t.plan) + (Prefixed(t.cookie) + TokenTail(t));
    ghost var sequenceOn := Prefixed(U64(t.sequence)) + planOn;
    h.Update(Ascii("dnfast-resident-solve-token-v1"), Prefixed(t.nonce) + sequenceOn);
    assert h.fed + (Prefixed(t.nonce) + sequenceOn) == TokenBytes(t);
    h.UpdatePrefixed(t.nonce, sequenceOn);
    h.UpdatePrefixed(U64(t.sequence), planOn);
    h.UpdatePrefixed(t.plan, Prefixed(t.cookie) + TokenTail(t));
    h.UpdatePrefixed(t.cookie, TokenTail(t));
    assert h.fed + (Prefixed(t.metadata) + trustOn) == TokenBytes(t);
    h.UpdatePrefixed(t.metadata, trustOn);
    h.UpdatePrefixed(t.trust, policyOn);
    h.UpdatePrefixed(t.policy, Prefixed(U64(t.expires)));
    assert h.fed + Prefixed(U64(t.expires)) == TokenBytes(t);
    h.UpdatePrefixed(U64(t.expires), []);
    assert h.fed == TokenBytes(t);
    token := sha(h.fed);
  }

  function Pow2(bits: nat): nat { if bits == 0 then 1 else 2 * Pow2(bits - 1) }

  /** Exclusive or of the lowest `bits` bits. */
  function Xor(a: nat, b: nat, bits: nat): nat {
    if bits == 0 then 0 else 2 * Xor(a / 2, b / 2, bits - 1) + (a + b) % 2
  }

  /** Inclusive or of the lowest `bits` bits. */
  function Or(a: nat, b: nat, bits: nat): nat {
    if bits == 0 then 0 else 2 * Or(a / 2, b / 2, bits - 1) + if a % 2 == 1 || b % 2 == 1 then 1 else 0
  }

  lemma {:induction false} XorIsZero(a: nat, b: nat, bits: nat)
    requires a < Pow2(bits) && b < Pow2(bits)
    ensures Xor(a, b, bits) < Pow2(bits) && (Xor(a, b, bits) == 0 <==> a == b)
  {
    if bits > 0 {
      XorIsZero(a / 2, b / 2, bits - 1);
    }
  }

  lemma {:induction false} OrIsZero(a: nat, b: nat, bits: nat)
    requires a < Pow2(bits) && b < Pow2(bits)
    ensures Or(a, b, bits) < Pow2(bits) && (Or(a, b, bits) == 0 <==> a == 0 && b == 0)
  {
    if bits > 0 {
      OrIsZero(a / 2, b / 2, bits - 1);
    }
  }

  lemma ByteWidth()
    ensures Pow2(8) == 256
  {
    assert Pow2(4) == 16;
  }

  /** `secure_equal` compares without an early exit: the accumulated differences are zero exactly for
      equal strings. */
  method SecureEqual(left: seq<Byte>, right: seq<Byte>) returns (equal: bool)
    ensures equal <==> left == right
  {
    if |left| != |right| { return false; }
    ByteWidth();
    var different: Byte := 0;
    for i := 0 to |left|
      invariant different == 0 <==> left[..i] == right[..i]
    {
      assert left[..i + 1] == left[..i] + [left[i]] && right[..i + 1] == right[..i] + [right[i]];
      XorIsZero(left[i], right[i], 8);
      OrIsZero(different, Xor(left[i], right[i], 8), 8);
      different := Or(different, Xor(left[i], right[i], 8), 8);
    }
    assert left[..|left|] == left && right[..|left|] == right;
    equal := different == 0;
  }

  // ---------------------------------------------------------------- messages and connections

  const PROTOCOL_SCHEMA: Text := Ascii("dnfast.daemon.v1")
  const U64_LIMIT: nat := 0x1_0000_0000_0000_0000

  /** `action` is absent when its name is not an action's. */
  datatype ClientMessage =
    | Ping(schema: Text)
    | Warm(schema: Text, repositories: seq<Text>)
    | PlanOnly(schema: Text, action: Option<Action>, repositories: seq<Text>, packages: seq<Text>)
    | Prepare(schema: Text, action: Option<Action>, repositories: seq<Text>, packages: seq<Text>)
    | Decision(schema: Text, token: Text, approved: bool)

  datatype ServerMessage =
    | Pong
    | Warmed(cookie: Text)
    | Fallback
    | Planned(plan: Plan)
    | Prepared(token: Text, digest: Text)
    | Outcome(applied: bool, digest: Text)
    | Failed

  predicate IdByte(b: Byte) {
    '0' as int <= b <= '9' as int || 'a' as int <= b <= 'z' as int || 'A' as int <= b <= 'Z' as int ||
    b == '_' as int || b == '.' as int || b == '-' as int
  }

  /** `canonical_repository_ids`. */
  predicate CanonicalIds(ids: seq<Text>) {
    && (forall i :: 0 <= i < |ids| ==> ids[i] != [] && forall k :: 0 <= k < |ids[i]| ==> IdByte(ids[i][k]))
    && (forall i :: 0 < i < |ids| ==> CompareBytes(ids[i - 1], ids[i]) == Less)
  }

  /** One client: the frames it sends, unreadable ones as None, and which writes reach it. */
  class Connection {
    const incoming: seq<Option<ClientMessage>>
    const reaches: nat -> bool
    var taken: nat
    var sent: seq<ServerMessage>

    constructor (incoming: seq<Option<ClientMessage>>, reaches: nat -> bool)
      ensures taken == 0 && sent == [] && this.incoming == incoming && this.reaches == reaches
    {
      this.incoming, this.reaches := incoming, reaches;
      taken, sent := 0, [];
    }

    function Upcoming(): (m: Option<ClientMessage>)
      reads this`taken
    {
      if taken < |incoming| then incoming[taken] else None
    }

    method Read() returns (m: Option<ClientMessage>)
      modifies this`taken
      ensures m == old(Upcoming()) && taken == old(taken) + 1
    {
      m := Upcoming();
      taken := taken + 1;
    }

    method Write(m: ServerMessage) returns (ok: bool)
      modifies this`sent
      ensures ok == reaches(|old(sent)|) && sent == if ok then old(sent) + [m] else old(sent)
    {
      ok := reaches(|sent|);
      if ok { sent := sent + [m]; }
    }
  }

  // ---------------------------------------------------------------- executions

  function InputOf(nonce: seq<Byte>, sequence: nat, plan: Text, solved: Solved): TokenInput {
    var i := solved.plan.question.integrity;
    TokenInput(nonce, sequence, plan, solved.cookie, i.metadata, i.trust, i.policy, solved.plan.expires)
  }

  lemma NextSequence(n: nat)
    ensures (n + 1) % U64_LIMIT == if n % U64_LIMIT + 1 == U64_LIMIT then 0 else n % U64_LIMIT + 1
  {
  }

  /** One run of the executor: what it ran, as which prepare of this daemon, on which decision, and the
      instant after that decision at which the plan's snapshot was still the published one. */
  datatype Execution = Execution(solved: Solved, ordinal: nat, prepared: ServerMessage, decision: ClientMessage, confirmedAt: nat)

  /** What happens outside the daemon once a decision was approved; None and false are failures. */
  datatype Fortune = Fortune(
    bindings: bool, recovers: bool, stages: bool, journals: bool, mounts: bool,
    inventory: Option<Text>, cleans: bool, published: Option<(Text, Text)>, rootCleans: bool)

  /** The publisher replaces nothing but the packages. */
  predicate PublishesInventory(lib: ResidentPlanner.Library, f: Fortune) {
    f.inventory.Some? && f.published.Some? ==>
      lib.payload(f.published.value.1) == ResidentPlanner.WithInventory(lib.payload(f.published.value.0), f.inventory.value)
  }

  class Daemon {
    const planner: ResidentPlanner.Planner
    const sha: Sha256
    const planDigest: Plan -> Text
    const executable: (Plan, nat) -> bool
    const nonce: seq<Byte>
    var sequence: nat
    var recovered: Option<ResidentPlanner.Architecture>
    var journal: seq<Text>
    /** Every run of the executor, the only thing here that changes the RPMDB. */
    ghost var executed: seq<Execution>
    /** How many plans were prepared; `sequence` is this number in 64 bits. */
    ghost var prepares: nat

    /** The token of the `ordinal`-th prepared plan. */
    function TokenFor(ordinal: nat, solved: Solved): Text {
      sha(TokenBytes(InputOf(nonce, ordinal % U64_LIMIT, planDigest(solved.plan), solved)))
    }

    /** Executed on an approved decision that returned the token this plan was prepared with, while the
        plan's snapshot was published. */
    predicate Justified(e: Execution) {
      && e.prepared == Prepared(TokenFor(e.ordinal, e.solved), planDigest(e.solved.plan))
      && e.decision == Decision(PROTOCOL_SCHEMA, TokenFor(e.ordinal, e.solved), true)
      && planner.host(e.confirmedAt).snapshot == e.solved.integrity.snapshot
    }

    predicate AllJustified(es: seq<Execution>, prepares: nat) {
      && (forall i :: 0 <= i < |es| ==> Justified(es[i]) && es[i].ordinal <= prepares)
      && (forall i, j :: 0 <= i < j < |es| ==> es[i].ordinal < es[j].ordinal)
    }

    ghost predicate Valid()
      reads this, planner
    {
      planner.Valid() && |nonce| == 32 && sequence == prepares % U64_LIMIT && AllJustified(executed, prepares)
    }

    constructor (planner: ResidentPlanner.Planner, sha: Sha256, planDigest: Plan -> Text,
                 executable: (Plan, nat) -> bool, nonce: seq<Byte>)
      requires planner.Valid() && |nonce| == 32
      ensures Valid() && sequence == 0 && journal == [] && executed == [] && this.planner == planner && this.nonce == nonce
    {
      this.planner, this.sha, this.planDigest, this.executable, this.nonce := planner, sha, planDigest, executable, nonce;
      sequence, recovered, journal, executed, prepares := 0, None, [], [], 0;
    }

    /** The plan's snapshot is the published one at this instant. */
    predicate StillPublished(solved: Solved, at: nat) {
      planner.host(at).works && planner.host(at).snapshot == solved.integrity.snapshot
    }

    /** Whether the next two looks at the published snapshot, and everything else that is checked between an
        approval and the journal, let this plan through. */
    predicate Ready(solved: Solved, fortune: Fortune, now: nat)
      reads planner, this`recovered
    {
      && executable(solved.plan, now) && StillPublished(solved, planner.clock)
      && fortune.bindings && StillPublished(solved, planner.clock + 1)
      && (recovered == Some(planner.lib.payload(solved.integrity.snapshot).architecture) || fortune.recovers)
      && fortune.stages
    }

    /** `revalidate_solved`. */
    method Revalidate(solved: Solved, now: nat) returns (ok: bool, ghost at: nat)
      requires planner.Valid()
      modifies planner`clock
      ensures planner.Valid() && old(planner.clock) <= planner.clock
      ensures ok <==> executable(solved.plan, now) && StillPublished(solved, old(planner.clock))
      ensures executable(solved.plan, now) ==> planner.clock == old(planner.clock) + 1
      ensures ok ==> old(planner.clock) <= at < planner.clock && planner.host(at).snapshot == solved.integrity.snapshot
    {
      at, ok := 0, executable(solved.plan, now);
      if ok {
        var digest;
        digest, at := planner.CurrentDigest();
        ok := digest == Some(solved.integrity.snapshot);
      }
    }

    /** The checks between an approved decision and the journal. */
    method ReadyToExecute(solved: Solved, fortune: Fortune, now: nat) returns (ok: bool, at: nat)
      requires planner.Valid()
      modifies planner`clock, this`recovered
      ensures planner.Valid() && old(planner.clock) <= planner.clock
      ensures ok <==> old(Ready(solved, fortune, now))
      ensures ok ==> old(planner.clock) <= at < planner.clock && planner.host(at).snapshot == solved.integrity.snapshot
    {
      at := planner.clock;
      var valid, _ := Revalidate(solved, now);
      if !valid || !fortune.bindings { return false, at; }
      at := planner.clock;
      var digest, _ := planner.CurrentDigest();
      if digest != Some(solved.integrity.snapshot) { return false, at; }
      var architecture := planner.lib.payload(solved.integrity.snapshot).architecture;
      if recovered != Some(architecture) {
        if !fortune.recovers { return false, at; }
        recovered := Some(architecture);
      }
      ok := fortune.stages;
    }

    lemma JustifiedGrows(es: seq<Execution>, e: Execution)
      requires Justified(e) && AllJustified(es, e.ordinal)
      requires forall i :: 0 <= i < |es| ==> es[i].ordinal < e.ordinal
      ensures AllJustified(es + [e], e.ordinal)
    {
    }

    /** After the executor ran: clean up, publish the packages it reported, refresh the pool. */
    method Finish(fortune: Fortune) returns (ok: bool)
      requires planner.Valid() && PublishesInventory(planner.lib, fortune)
      modifies planner
      ensures planner.Valid()
      ensures ok && planner.cached.Some? ==> planner.cached.value.lastSolve.None?
    {
      if fortune.inventory.None? || !fortune.cleans || fortune.published.None? { return false; }
      ok := planner.RefreshAfterMutation(fortune.inventory.value, fortune.published.value.0, fortune.published.value.1);
      ok := ok && fortune.rootCleans;
    }

    /** Everything after an approved decision. The journal entry comes before the executor. */
    method Execute(connection: Connection, solved: Solved, ghost prepared: ServerMessage, ghost decision: ClientMessage,
                   fortune: Fortune, now: nat) returns (ok: bool)
      requires Valid() && PublishesInventory(planner.lib, fortune)
      requires prepared == Prepared(TokenFor(prepares, solved), planDigest(solved.plan))
      requires decision == Decision(PROTOCOL_SCHEMA, TokenFor(prepares, solved), true)
      requires forall i :: 0 <= i < |executed| ==> executed[i].ordinal < prepares
      modifies planner, this`recovered, this`journal, this`executed, connection`sent
      ensures Valid()
      ensures journal == if old(Ready(solved, fortune, now)) && fortune.journals then old(journal) + [planDigest(solved.plan)]
                         else old(journal)
      ensures if old(Ready(solved, fortune, now)) && fortune.journals && fortune.mounts
              then exists at: nat :: executed == old(executed) + [Execution(solved, prepares, prepared, decision, at)] && old(planner.clock) <= at
              else executed == old(executed)
      ensures ok ==> executed != old(executed)
    {
      var ready, at := ReadyToExecute(solved, fortune, now);
      if !ready || !fortune.journals { return false; }
      journal := journal + [planDigest(solved.plan)];
      if !fortune.mounts { return false; }
      ghost var execution := Execution(solved, prepares, prepared, decision, at);
      JustifiedGrows(executed, execution);
      executed := executed + [execution];
      ok := Finish(fortune);
      if ok { ok := connection.Write(Outcome(true, planDigest(solved.plan))); }
    }

    /** The next frame is the approval of this token and the prepared message gets through to ask for it. */
    predicate Approves(connection: Connection, token: Text)
      reads connection
    {
      connection.reaches(|connection.sent|) &&
      connection.Upcoming() == Some(Decision(PROTOCOL_SCHEMA, token, true))
    }

    /** Counts the prepare, wrapping, and computes its token. */
    method NextToken(solved: Solved) returns (token: Text)
      requires sequence == prepares % U64_LIMIT
      modifies this`sequence, this`prepares
      ensures prepares == old(prepares) + 1 && sequence == prepares % U64_LIMIT && token == TokenFor(prepares, solved)
    {
      NextSequence(prepares);
      sequence, prepares := if sequence + 1 == U64_LIMIT then 0 else sequence + 1, prepares + 1;
      token := SolveToken(sha, InputOf(nonce, sequence, planDigest(solved.plan), solved));
    }

    /** Sends the plan's token and reads the decision on it; None is a protocol error. */
    method AskDecision(connection: Connection, solved: Solved) returns (r: Option<bool>)
      requires sequence == prepares % U64_LIMIT
      modifies this`sequence, this`prepares, connection
      ensures prepares == old(prepares) + 1 && sequence == prepares % U64_LIMIT
      ensures r == Some(true) <==> old(Approves(connection, TokenFor(prepares + 1, solved)))
    {
      var token := NextToken(solved);
      var written := connection.Write(Prepared(token, planDigest(solved.plan)));
      r := None;
      if written {
        var frame := connection.Read();
        if frame.Some? && frame.value.Decision? && frame.value.schema == PROTOCOL_SCHEMA {
          var equal := SecureEqual(token, frame.value.token);
          if equal { r := Some(frame.value.approved); }
        }
      }
    }

    /** `prepare_and_execute`: nothing is journalled or executed and the planner stays as it was unless the
        client approves with the token of this very plan; then this plan alone is executed, at most once. */
    method PrepareAndExecute(connection: Connection, solved: Solved, fortune: Fortune, now: nat) returns (ok: bool)
      requires Valid() && PublishesInventory(planner.lib, fortune)
      modifies this, planner, connection
      ensures Valid() && prepares == old(prepares) + 1
      ensures !old(Approves(connection, TokenFor(prepares + 1, solved))) ==>
                journal == old(journal) && executed == old(executed) && recovered == old(recovered) && unchanged(planner)
      ensures old(Approves(connection, TokenFor(prepares + 1, solved)) && Ready(solved, fortune, now)) && fortune.journals && fortune.mounts
              <==> executed != old(executed)
      ensures journal == old(journal) || journal == old(journal) + [planDigest(solved.plan)]
      ensures executed == old(executed) || ExecutedOnce(old(executed), executed, solved, prepares)
      ensures executed != old(executed) ==> journal != old(journal)
    {
      var decision := AskDecision(connection, solved);
      ok := false;
      if decision == Some(false) {
        ok := connection.Write(Outcome(false, planDigest(solved.plan)));
      } else if decision == Some(true) {
        ghost var token := TokenFor(prepares, solved);
        ok := Execute(connection, solved, Prepared(token, planDigest(solved.plan)),
                      Decision(PROTOCOL_SCHEMA, token, true), fortune, now);
      }
    }

    /** Exactly one execution was added, of this plan, on this prepare. */
    ghost predicate ExecutedOnce(before: seq<Execution>, after: seq<Execution>, solved: Solved, ordinal: nat) {
      |after| == |before| + 1 && after[..|before|] == before &&
      after[|before|].solved == solved && after[|before|].ordinal == ordinal
    }

    /** The solve both Plan and Prepare start with; None is an error or a fallback already answered. */
    method SolveRequest(connection: Connection, action: Action, packages: seq<Text>, repositories: seq<Text>, now: nat)
      returns (r: Option<Solved>, ok: bool)
      requires planner.Valid() && now <= ResidentPlanner.U64_MAX
      modifies planner, connection`sent
      ensures planner.Valid()
      ensures old(planner.clock) <= planner.clock
      ensures connection.sent == old(connection.sent) || (r.None? && connection.sent == old(connection.sent) + [Fallback])
      ensures r.Some? ==> r.value.plan.question.action == action && r.value.plan.question.packages == packages &&
                          r.value.plan.question.integrity == r.value.integrity
    {
      var full := planner.RequiresFullFilelists(action, packages, repositories);
      if full.None? { return None, false; }
      if full.value {
        ok := connection.Write(Fallback);
        return None, ok;
      }
      ghost var c;
      r, c := planner.Solve(action, packages, repositories, now);
      ok := r.Some?;
    }

    /** What may be answered to a request: the cookie of the pool, or a plan for this very request that is
        executable and whose snapshot was published during the call. */
    predicate Answers(request: ClientMessage, m: ServerMessage, now: nat, start: nat)
      reads planner
    {
      match request
      case Ping(_) => m == Pong
      case Warm(_, _) => planner.cached.Some? && m == Warmed(sha(planner.cached.value.cookie))
      case PlanOnly(_, action, _, packages) =>
        m == Fallback ||
        (m.Planned? && Some(m.plan.question.action) == action && m.plan.question.packages == packages &&
         executable(m.plan, now) &&
         exists at: nat :: start <= at < planner.clock && planner.host(at).snapshot == m.plan.question.integrity.snapshot)
      case _ => false
    }

    /** The requests that never execute anything. */
    method Answer(connection: Connection, request: Option<ClientMessage>, now: nat) returns (ok: bool)
      requires planner.Valid() && now <= ResidentPlanner.U64_MAX
      modifies planner, connection`sent
      ensures planner.Valid()
      ensures connection.sent == old(connection.sent) ||
                exists m :: connection.sent == old(connection.sent) + [m] && request.Some? &&
                            Answers(request.value, m, now, old(planner.clock))
    {
      ok := false;
      match request
      case Some(Ping(schema)) =>
        if schema == PROTOCOL_SCHEMA { ok := connection.Write(Pong); }
      case Some(Warm(schema, repositories)) =>
        if schema == PROTOCOL_SCHEMA && CanonicalIds(repositories) {
          var cookie, _ := planner.Warm(repositories);
          if cookie.Some? { ok := connection.Write(Warmed(sha(cookie.value))); }
        }
      case Some(PlanOnly(schema, Some(action), repositories, packages)) =>
        if schema == PROTOCOL_SCHEMA && CanonicalIds(repositories) {
          var solved;
          solved, ok := SolveRequest(connection, action, packages, repositories, now);
          if solved.Some? {
            var valid, _ := Revalidate(solved.value, now);
            ok := valid;
            if ok { ok := connection.Write(Planned(solved.value.plan)); }
          }
        }
      case _ =>
    }

    /** `handle_connection`: whatever a client sends, at most one plan is executed, and only when the first
        frame asks to prepare it and the second approves it with its token. */
    method HandleConnection(connection: Connection, fortune: Fortune, now: nat, later: nat) returns (ok: bool)
      requires Valid() && PublishesInventory(planner.lib, fortune) && now <= ResidentPlanner.U64_MAX
      requires connection.taken == 0 && connection.sent == []
      modifies this, planner, connection
      ensures Valid()
      ensures executed == old(executed) ||
                (exists solved :: ExecutedOnce(old(executed), executed, solved, prepares) &&
                                  Requested(connection.incoming, solved, TokenFor(prepares, solved)))
      ensures executed != old(executed) ==> journal != old(journal)
      ensures !Opens(connection.incoming) ==> journal == old(journal) && sequence == old(sequence)
      ensures !Approving(connection.incoming) ==> journal == old(journal) && executed == old(executed)
    {
      var request := connection.Read();
      ok := false;
      if request.Some? && request.value.Prepare? {
        var m := request.value;
        if m.schema == PROTOCOL_SCHEMA && CanonicalIds(m.repositories) && m.action.Some? {
          var solved;
          solved, ok := SolveRequest(connection, m.action.value, m.packages, m.repositories, now);
          if solved.Some? {
            ok := PrepareAndExecute(connection, solved.value, fortune, later);
            assert executed != old(executed) ==>
                     Requested(connection.incoming, solved.value, TokenFor(prepares, solved.value));
          }
        }
      } else {
        ok := Answer(connection, request, now);
      }
    }

    method ServeOne(connection: Connection, fortune: Fortune, now: nat, later: nat)
      requires Valid() && PublishesInventory(planner.lib, fortune) && now <= ResidentPlanner.U64_MAX
      requires connection.taken == 0 && connection.sent == []
      modifies this, planner, connection
      ensures Valid() && GrewByOne(old(executed), executed)
      ensures !Approving(connection.incoming) ==> journal == old(journal) && executed == old(executed)
    {
      var ok := HandleConnection(connection, fortune, now, later);
      if !ok { var _ := connection.Write(Failed); }
      var _ := planner.TakeTrimPending();
    }

    /** `serve_system`, one connection after the other. Over every run each connection executes at most one
        plan, and while no client approves anything nothing is journalled or executed at all. */
    method Serve(connections: seq<Connection>, fortunes: nat -> Fortune, clock: nat -> nat)
      requires Valid() && forall i: nat :: PublishesInventory(planner.lib, fortunes(i)) && clock(i) <= ResidentPlanner.U64_MAX
      requires forall i :: 0 <= i < |connections| ==> connections[i].taken == 0 && connections[i].sent == []
      requires forall i, j :: 0 <= i < j < |connections| ==> connections[i] != connections[j]
      modifies this, planner, set c | c in connections
      ensures Valid() && |old(executed)| <= |executed| <= |old(executed)| + |connections|
      ensures executed[..|old(executed)|] == old(executed)
      ensures (forall i :: 0 <= i < |connections| ==> !Approving(connections[i].incoming)) ==>
                journal == old(journal) && executed == old(executed)
    {
      for i := 0 to |connections|
        invariant Valid() && |old(executed)| <= |executed| <= |old(executed)| + i
        invariant executed[..|old(executed)|] == old(executed)
        invariant forall j :: i <= j < |connections| ==> connections[j].taken == 0 && connections[j].sent == []
        invariant (forall j :: 0 <= j < i ==> !Approving(connections[j].incoming)) ==>
                    journal == old(journal) && executed == old(executed)
      {
        ServeOne(connections[i], fortunes(i), clock(2 * i), clock(2 * i + 1));
      }
    }
  }

  predicate GrewByOne(before: seq<Execution>, after: seq<Execution>) {
    |before| <= |after| <= |before| + 1 && after[..|before|] == before
  }

  /** The second frame approves something. */
  predicate Approving(incoming: seq<Option<ClientMessage>>) {
    |incoming| > 1 && incoming[1].Some? && incoming[1].value.Decision? && incoming[1].value.approved &&
    incoming[1].value.schema == PROTOCOL_SCHEMA
  }

  predicate Opens(incoming: seq<Option<ClientMessage>>) {
    |incoming| > 0 && incoming[0].Some? && incoming[0].value.Prepare?
  }

  /** The client asked for exactly this solve and then approved this token. */
  predicate Requested(incoming: seq<Option<ClientMessage>>, solved: Solved, token: Text) {
    && Opens(incoming) && |incoming| > 1
    && incoming[0].value.schema == PROTOCOL_SCHEMA && CanonicalIds(incoming[0].value.repositories)
    && incoming[0].value.action == Some(solved.plan.question.action)
    && incoming[0].value.packages == solved.plan.question.packages
    && incoming[1] == Some(Decision(PROTOCOL_SCHEMA, token, true))
  }

  lemma SequencesDiffer(i: nat, j: nat)
    requires i < j < i + U64_LIMIT
    ensures i % U64_LIMIT != j % U64_LIMIT
  {
  }

  /** Two plans prepared within 2^64 prepares of each other have different tokens, unless the hash collides
      on just these two inputs: an approval of one is a mismatch for the other. */
  lemma TokensNeverRepeat(daemon: Daemon, i: nat, a: Solved, j: nat, b: Solved)
    requires WellFormed(InputOf(daemon.nonce, i % U64_LIMIT, daemon.planDigest(a.plan), a))
    requires WellFormed(InputOf(daemon.nonce, j % U64_LIMIT, daemon.planDigest(b.plan), b))
    requires i < j < i + U64_LIMIT
    requires var x := TokenBytes(InputOf(daemon.nonce, i % U64_LIMIT, daemon.planDigest(a.plan), a));
             var y := TokenBytes(InputOf(daemon.nonce, j % U64_LIMIT, daemon.planDigest(b.plan), b));
             daemon.sha(x) == daemon.sha(y) ==> x == y
    ensures daemon.TokenFor(i, a) != daemon.TokenFor(j, b)
  {
    var x := InputOf(daemon.nonce, i % U64_LIMIT, daemon.planDigest(a.plan), a);
    var y := InputOf(daemon.nonce, j % U64_LIMIT, daemon.planDigest(b.plan), b);
    SequencesDiffer(i, j);
    if TokenBytes(x) == TokenBytes(y) {
      TokenBytesInjective(x, y);
    }
  }
}
