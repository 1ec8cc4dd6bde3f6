/** Plans and the policy they must meet (crates/dnfast-core/src/plan.rs and policy.rs): what holds of every
    plan that is accepted for execution, resting on the order of versions. */
module PlanPolicy {
  import opened Bytes
  import opened Framing
  import opened RpmVersion
  import ReceiptText

  type Text = seq<Byte>

  const MAX_PLAN_ACTIONS: nat := 100_000

  /** What the user asked for. */
  datatype Action = Install | Upgrade | Downgrade | Reinstall | DistroSync | Remove | Autoremove

  /** What is done to one package. */
  datatype Operation = DoInstall | DoUpgrade | DoDowngrade | DoReinstall | DoRemove

  datatype Reason = User | Dependency | WeakDependency | External | Unknown {
    predicate IsDependency() { Dependency? || WeakDependency? }
  }

  /** `obsoletedBy` is the identity of the action a removal is a side effect of. */
  datatype PackageAction = PackageAction(
    operation: Operation,
    name: Text,
    target: Evra,
    installed: Option<Evra>,
    instance: Option<nat>,
    header: Option<Text>,
    installedVendor: Option<Text>,
    candidateVendor: Option<Text>,
    repository: Option<Text>,
    reason: Reason,
    obsoletedBy: Option<Text>)

  /** `integrityCanonical` and `wellFormed` stand for the canonical repository bindings of a plan and
      the consistency of a policy with itself. */
  datatype Plan = Plan(
    schema: nat, root: Text, intent: Action, integrityCanonical: bool, repositories: set<Text>,
    expires: nat, actions: seq<PackageAction>)

  datatype Policy = Policy(
    wellFormed: bool, protected: set<Text>, installonly: set<Text>, runningKernel: Option<Text>)

  // ---------------------------------------------------------------- one action

  predicate Given(text: Option<Text>) { text.Some? && text.value != [] }

  predicate ValidEvra(e: Evra) { e.version != [] && e.release != [] }

  function ArchName(arch: Architecture): Text {
    match arch
    case Aarch64 => Ascii("aarch64")
    case X86_64 => Ascii("x86_64")
    case Noarch => Ascii("noarch")
  }

  const COLON: Text := [58]
  const DASH: Text := [45]
  const DOT: Text := [46]

  function EvraText(e: Evra): Text {
    ReceiptText.Decimal(e.epoch) + COLON + e.version + DASH + e.release + DOT + ArchName(e.arch)
  }

  /** `action_identity`: only actions that come from a repository have one. */
  function ActionIdentity(a: PackageAction): Option<Text> {
    if a.repository.None? then None else Some(a.repository.value + COLON + a.name + DASH + EvraText(a.target))
  }

  predicate CarriesInstalled(a: PackageAction) { a.installedVendor.Some? && a.instance.Some? && a.header.Some? }

  /** `PackageAction::validate`. */
  predicate ActionValid(a: PackageAction) {
    && a.name != [] && ValidEvra(a.target)
    && match a.operation
       case DoRemove =>
         && a.repository.None? && a.reason != Unknown && a.reason != External
         && a.installed == Some(a.target) && CarriesInstalled(a) && a.candidateVendor.None?
       case DoInstall =>
         && Given(a.repository) && a.installed.None? && a.instance.None? && a.header.None? && a.installedVendor.None?
         && Given(a.candidateVendor) && a.obsoletedBy.None?
       case _ =>
         && Given(a.repository) && a.installed.Some? && CarriesInstalled(a) && Given(a.candidateVendor)
         && a.obsoletedBy.None?
  }

  // ---------------------------------------------------------------- policy

  /** `validate_replacement_identity`. */
  predicate SameKind(installed: Evra, candidate: Evra, installedVendor: Text, candidateVendor: Text) {
    ValidEvra(installed) && ValidEvra(candidate) && installed.arch == candidate.arch && installedVendor == candidateVendor
  }

  predicate UpgradeAllowed(installed: Evra, candidate: Evra, installedVendor: Text, candidateVendor: Text) {
    SameKind(installed, candidate, installedVendor, candidateVendor) && Newer(candidate, installed)
  }

  predicate DowngradeAllowed(installed: Evra, candidate: Evra, installedVendor: Text, candidateVendor: Text) {
    SameKind(installed, candidate, installedVendor, candidateVendor) && Newer(installed, candidate)
  }

  predicate ReinstallAllowed(installed: Evra, candidate: Evra, installedVendor: Text, candidateVendor: Text) {
    SameKind(installed, candidate, installedVendor, candidateVendor) && installed == candidate
  }

  /** The package must be kept whatever its reason. */
  predicate MustStay(policy: Policy, name: Text) {
    name in policy.protected || name in policy.installonly || policy.runningKernel == Some(name)
  }

  /** `validate_removal`. */
  predicate RemovalAllowed(policy: Policy, name: Text, reason: Reason) {
    !MustStay(policy, name) && reason != External && reason != Unknown
  }

  /** Two operations are never both acceptable for one pair, and none is exactly when the two compare as
      equal without being the same text: such a candidate can be reached by no replacement at all. */
  lemma ReplacementKindsExclude(installed: Evra, candidate: Evra, vendor: Text, other: Text)
    ensures !(UpgradeAllowed(installed, candidate, vendor, other) && DowngradeAllowed(installed, candidate, vendor, other))
    ensures !(UpgradeAllowed(installed, candidate, vendor, other) && ReinstallAllowed(installed, candidate, vendor, other))
    ensures !(DowngradeAllowed(installed, candidate, vendor, other) && ReinstallAllowed(installed, candidate, vendor, other))
    ensures SameKind(installed, candidate, vendor, other) ==>
              ((UpgradeAllowed(installed, candidate, vendor, other) || DowngradeAllowed(installed, candidate, vendor, other) ||
                ReinstallAllowed(installed, candidate, vendor, other)) <==>
               (CompareEvra(candidate, installed) != Equal || candidate == installed))
  {
    NewerIsStrictWeakOrder(candidate, installed, candidate);
    CompareEvraIsTotalPreorder(candidate, installed, candidate);
  }

  /** A separator at the end is one way to be equal and different. */
  lemma EqualButDifferent(arch: Architecture)
    ensures var a, b := Evra(0, [49], [49], arch), Evra(0, [49, 46], [49], arch);
            a != b && CompareEvra(a, b) == Equal
  {
    var a: Text, b: Text := [49], [49, 46];
    assert RunLength(a[1..], true) == 0 && RunLength(b[1..], true) == 0;
    assert RunLength(a, true) == 1 && RunLength(b, true) == 1;
    assert b[..1] == a[..1] && b[1..] == [46];
    assert SkipSeparators(b[1..]) == SkipSeparators(b[1..][1..]);
    assert Tokens(b[1..]) == Tokens(a[1..]);
    assert Tokens(a) == Tokens(b);
    CompareIsTotalPreorder(a, a, a);
  }

  /** Each version is an accepted upgrade of the one before, under whatever vendors. */
  predicate UpgradeChain(chain: seq<Evra>, vendors: seq<(Text, Text)>) {
    |vendors| == |chain| &&
    forall i :: 0 < i < |chain| ==> UpgradeAllowed(chain[i - 1], chain[i], vendors[i].0, vendors[i].1)
  }

  /** No chain of accepted upgrades comes back to an earlier version, or to one that compares equal. */
  lemma {:induction false} UpgradesNeverReturn(chain: seq<Evra>, vendors: seq<(Text, Text)>, i: nat, j: nat)
    requires UpgradeChain(chain, vendors) && i < j < |chain|
    ensures Newer(chain[j], chain[i]) && chain[j] != chain[i] && chain[j].arch == chain[i].arch
  {
    NewerIsStrictWeakOrder(chain[j], chain[j - 1], chain[i]);
    NewerIsStrictWeakOrder(chain[i], chain[j], chain[i]);
    if i < j - 1 {
      UpgradesNeverReturn(chain, vendors, i, j - 1);
    }
  }

  // ---------------------------------------------------------------- canonical order

  type Before<!T> = (T, T) -> bool

  /** A derived order: strict and total, so its ties are the same value. */
  ghost predicate IsStrictTotal<T(!new)>(less: Before<T>) {
    && (forall a :: !less(a, a))
    && (forall a, b :: less(a, b) || less(b, a) || a == b)
    && (forall a, b, c :: less(a, b) && less(b, c) ==> less(a, c))
  }

  predicate StrictlySorted<T>(less: Before<T>, s: seq<T>) {
    forall i, j :: 0 <= i < j < |s| ==> less(s[i], s[j])
  }

  predicate AdjacentSorted<T>(less: Before<T>, s: seq<T>) {
    forall i :: 0 < i < |s| ==> less(s[i - 1], s[i])
  }

  /** Comparing neighbours, as the source does, is enough. */
  lemma {:induction false} NeighboursSuffice<T(!new)>(less: Before<T>, s: seq<T>)
    requires IsStrictTotal(less)
    ensures AdjacentSorted(less, s) <==> StrictlySorted(less, s)
  {
    if |s| > 1 {
      var n := |s| - 1;
      NeighboursSuffice(less, s[..n]);
      if AdjacentSorted(less, s) {
        assert AdjacentSorted(less, s[..n]);
        forall i, j | 0 <= i < j < |s| ensures less(s[i], s[j]) {
          if j < n {
            assert less(s[..n][i], s[..n][j]);
          } else if i < n - 1 {
            assert less(s[..n][i], s[..n][n - 1]) && less(s[n - 1], s[n]);
          }
        }
      }
    }
  }

  function Insert<T>(less: Before<T>, a: T, s: seq<T>): (r: seq<T>)
    ensures multiset(r) == multiset(s) + multiset{a} && |r| == |s| + 1
  {
    if s == [] || less(a, s[0]) then [a] + s
    else
      assert s == [s[0]] + s[1..];
      [s[0]] + Insert(less, a, s[1..])
  }

  predicate Sorted<T>(less: Before<T>, s: seq<T>) { forall i, j :: 0 <= i < j < |s| ==> !less(s[j], s[i]) }

  lemma {:induction false} InsertSorted<T(!new)>(less: Before<T>, a: T, s: seq<T>)
    requires IsStrictTotal(less) && Sorted(less, s)
    ensures Sorted(less, Insert(less, a, s))
  {
    var r := Insert(less, a, s);
    if s == [] || less(a, s[0]) {
      forall j | 0 < j < |r| ensures !less(r[j], a) {
        assert r[j] == s[j - 1];
      }
    } else {
      InsertSorted(less, a, s[1..]);
      var rest := Insert(less, a, s[1..]);
      forall j | 0 < j < |r| ensures !less(r[j], r[0]) {
        assert r[j] == rest[j - 1] && rest[j - 1] in multiset(s[1..]) + multiset{a};
        if r[j] != a {
          var k :| 0 <= k < |s[1..]| && s[1..][k] == r[j];
          assert s[k + 1] == r[j];
        }
      }
    }
  }

  function Sort<T>(less: Before<T>, s: seq<T>): (r: seq<T>)
    ensures multiset(r) == multiset(s) && |r| == |s|
  {
    if s == [] then []
    else
      assert s == s[..|s| - 1] + [s[|s| - 1]];
      Insert(less, s[|s| - 1], Sort(less, s[..|s| - 1]))
  }

  lemma {:induction false} SortSorts<T(!new)>(less: Before<T>, s: seq<T>)
    requires IsStrictTotal(less)
    ensures Sorted(less, Sort(less, s))
  {
    if s != [] {
      SortSorts(less, s[..|s| - 1]);
      InsertSorted(less, s[|s| - 1], Sort(less, s[..|s| - 1]));
    }
  }

  lemma FirstIsLeast<T(!new)>(less: Before<T>, s: seq<T>, x: T)
    requires IsStrictTotal(less) && Sorted(less, s) && x in s
    ensures !less(x, s[0])
  {
    var k :| 0 <= k < |s| && s[k] == x;
  }

  lemma HeadOff<T>(s: seq<T>)
    requires s != []
    ensures multiset(s[1..]) == multiset(s) - multiset{s[0]} && s[0] in multiset(s)
  {
    assert s == [s[0]] + s[1..];
  }

  /** Two sorted arrangements of the same values are the same. */
  lemma {:induction false} SortedUnique<T(!new)>(less: Before<T>, s: seq<T>, t: seq<T>)
    requires IsStrictTotal(less) && Sorted(less, s) && Sorted(less, t) && multiset(s) == multiset(t)
    ensures s == t
  {
    assert |s| == |multiset(s)| && |t| == |multiset(t)|;
    if s != [] {
      HeadOff(s);
      HeadOff(t);
      FirstIsLeast(less, t, s[0]);
      FirstIsLeast(less, s, t[0]);
      SortedUnique(less, s[1..], t[1..]);
      assert s == [s[0]] + s[1..] && t == [t[0]] + t[1..];
    }
  }

  // ---------------------------------------------------------------- canonical actions

  /** What the duplicate check of `canonical_actions` compares. */
  function Key(a: PackageAction): (Operation, Text, Evra) { (a.operation, a.name, a.target) }

  predicate DistinctKeys(s: seq<PackageAction>) { forall i, j :: 0 <= i < j < |s| ==> Key(s[i]) != Key(s[j]) }

  predicate AllValid(s: seq<PackageAction>) { forall i :: 0 <= i < |s| ==> ActionValid(s[i]) }

  /** `canonical_actions`. */
  function CanonicalActions(less: Before<PackageAction>, actions: seq<PackageAction>): Option<seq<PackageAction>> {
    var s := Sort(less, actions);
    if |actions| > MAX_PLAN_ACTIONS || !AllValid(s) || !DistinctKeys(s) then None else Some(s)
  }

  /** The canonical form does not depend on the order the actions were found in, and is a fixed point. */
  lemma CanonicalIsCanonical(less: Before<PackageAction>, a: seq<PackageAction>, b: seq<PackageAction>)
    requires IsStrictTotal(less) && multiset(a) == multiset(b)
    ensures CanonicalActions(less, a) == CanonicalActions(less, b)
    ensures CanonicalActions(less, a).Some? ==>
              CanonicalActions(less, CanonicalActions(less, a).value) == CanonicalActions(less, a)
  {
    SortSorts(less, a);
    SortSorts(less, b);
    SortSorts(less, Sort(less, a));
    assert |a| == |multiset(a)| && |b| == |multiset(b)|;
    SortedUnique(less, Sort(less, a), Sort(less, b));
    SortedUnique(less, Sort(less, Sort(less, a)), Sort(less, a));
  }

  lemma SortedAndDistinct(less: Before<PackageAction>, s: seq<PackageAction>)
    requires IsStrictTotal(less) && Sorted(less, s) && DistinctKeys(s)
    ensures StrictlySorted(less, s)
  {
    forall i, j | 0 <= i < j < |s| ensures less(s[i], s[j]) {
      assert Key(s[i]) != Key(s[j]) && !less(s[j], s[i]);
    }
  }

  // ---------------------------------------------------------------- plans

  /** `validate_now`, on everything but the actions. */
  predicate EnvelopeValid(plan: Plan, now: nat) {
    plan.schema == 2 && plan.root == ['/' as int] && plan.integrityCanonical && now <= plan.expires
  }

  /** The action is valid and comes, if from a repository, from a selected one. */
  predicate ActionSelected(plan: Plan, a: PackageAction) {
    ActionValid(a) && (a.repository.Some? ==> a.repository.value in plan.repositories)
  }

  predicate ActionsSelected(plan: Plan) { forall i :: 0 <= i < |plan.actions| ==> ActionSelected(plan, plan.actions[i]) }

  /** `validate_now`: the actions are strictly ordered, valid and from selected repositories. */
  predicate ValidNow(less: Before<PackageAction>, plan: Plan, now: nat) {
    EnvelopeValid(plan, now) && |plan.actions| <= MAX_PLAN_ACTIONS && StrictlySorted(less, plan.actions) && ActionsSelected(plan)
  }

  method ValidateNow(less: Before<PackageAction>, plan: Plan, now: nat) returns (ok: bool)
    requires IsStrictTotal(less)
    ensures ok <==> ValidNow(less, plan, now)
  {
    if !EnvelopeValid(plan, now) || |plan.actions| > MAX_PLAN_ACTIONS { return false; }
    var k := 1;
    while k < |plan.actions|
      invariant 1 <= k
      invariant forall j :: 0 < j < k && j < |plan.actions| ==> less(plan.actions[j - 1], plan.actions[j])
    {
      if !less(plan.actions[k - 1], plan.actions[k]) { return false; }
      k := k + 1;
    }
    assert AdjacentSorted(less, plan.actions);
    NeighboursSuffice(less, plan.actions);
    for i := 0 to |plan.actions|
      invariant forall j :: 0 <= j < i ==> ActionSelected(plan, plan.actions[j])
    {
      var a := plan.actions[i];
      if !ActionValid(a) || (a.repository.Some? && a.repository.value !in plan.repositories) { return false; }
    }
    ok := true;
  }

  lemma Asymmetric<T(!new)>(less: Before<T>, a: T, b: T)
    requires IsStrictTotal(less)
    ensures less(a, b) ==> !less(b, a)
  {
    assert less(a, b) && less(b, a) ==> less(a, a);
  }

  /** A plan that is valid now is one `PlanEnvelope::new` could have built exactly when its actions differ
      in more than reason or provenance: the duplicate check is made on construction only. */
  lemma ValidNowIsCanonicalUnlessDuplicate(less: Before<PackageAction>, plan: Plan, now: nat)
    requires IsStrictTotal(less) && ValidNow(less, plan, now)
    ensures CanonicalActions(less, plan.actions) == if DistinctKeys(plan.actions) then Some(plan.actions) else None
  {
    SortSorts(less, plan.actions);
    forall i, j | 0 <= i < j < |plan.actions| ensures !less(plan.actions[j], plan.actions[i]) {
      Asymmetric(less, plan.actions[i], plan.actions[j]);
    }
    SortedUnique(less, Sort(less, plan.actions), plan.actions);
  }

  /** And whatever it builds is strictly ordered and valid. */
  lemma CanonicalIsValid(less: Before<PackageAction>, actions: seq<PackageAction>)
    requires IsStrictTotal(less) && CanonicalActions(less, actions).Some?
    ensures var s := CanonicalActions(less, actions).value;
            StrictlySorted(less, s) && AllValid(s) && multiset(s) == multiset(actions) && |s| <= MAX_PLAN_ACTIONS
  {
    SortSorts(less, actions);
    SortedAndDistinct(less, Sort(less, actions));
  }

  /** The same installation twice, with two reasons: valid now, never built. */
  lemma DuplicatesPass(less: Before<PackageAction>) returns (plan: Plan)
    requires IsStrictTotal(less)
    ensures ValidNow(less, plan, 0) && CanonicalActions(less, plan.actions).None?
  {
    var a := PackageAction(DoInstall, [97], Evra(0, [49], [49], Noarch), None, None, None, None, Some([118]), Some([114]), User, None);
    var b := a.(reason := Dependency);
    assert a != b;
    var actions := if less(a, b) then [a, b] else [b, a];
    plan := Plan(2, ['/' as int], Install, true, {[114]}, 0, actions);
    assert Key(actions[0]) == Key(actions[1]);
    ValidNowIsCanonicalUnlessDuplicate(less, plan, 0);
  }

  // ---------------------------------------------------------------- executable plans

  predicate Ordinary(intent: Action, a: PackageAction) {
    match intent
    case Install => a.operation.DoInstall? || a.operation.DoUpgrade?
    case Upgrade => a.operation.DoUpgrade? || (a.operation.DoInstall? && a.reason.IsDependency())
    case Downgrade => a.operation.DoDowngrade?
    case Reinstall => a.operation.DoReinstall?
    case DistroSync => a.operation.DoUpgrade? || a.operation.DoDowngrade? || a.operation.DoReinstall? ||
                       (a.operation.DoInstall? && a.reason.IsDependency())
    case Remove => a.operation.DoRemove?
    case Autoremove => a.operation.DoRemove?
  }

  function Parents(actions: seq<PackageAction>): set<Text> {
    set a | a in actions && ActionIdentity(a).Some? :: ActionIdentity(a).value
  }

  predicate SideEffect(intent: Action, parents: set<Text>, a: PackageAction) {
    a.operation.DoRemove? && a.obsoletedBy.Some? && !intent.Remove? && a.obsoletedBy.value in parents && a.reason.IsDependency()
  }

  predicate PolicyAllows(policy: Policy, a: PackageAction) {
    match a.operation
    case DoInstall => true
    case DoRemove => RemovalAllowed(policy, a.name, a.reason)
    case _ =>
      a.installed.Some? && a.installedVendor.Some? && a.candidateVendor.Some? &&
      var i, t, v, c := a.installed.value, a.target, a.installedVendor.value, a.candidateVendor.value;
      match a.operation
      case DoUpgrade => UpgradeAllowed(i, t, v, c)
      case DoDowngrade => DowngradeAllowed(i, t, v, c)
      case _ => ReinstallAllowed(i, t, v, c)
  }

  predicate ActionExecutable(plan: Plan, policy: Policy, a: PackageAction) {
    && (Ordinary(plan.intent, a) || SideEffect(plan.intent, Parents(plan.actions), a))
    && (Ordinary(plan.intent, a) ==> a.obsoletedBy.None?)
    && (plan.intent.Autoremove? ==> a.reason.IsDependency())
    && PolicyAllows(policy, a)
  }

  predicate Executable(less: Before<PackageAction>, plan: Plan, policy: Policy, now: nat) {
    ValidNow(less, plan, now) && policy.wellFormed &&
    forall i :: 0 <= i < |plan.actions| ==> ActionExecutable(plan, policy, plan.actions[i])
  }

  /** `validate_executable`. */
  method ValidateExecutable(less: Before<PackageAction>, plan: Plan, policy: Policy, now: nat) returns (ok: bool)
    requires IsStrictTotal(less)
    ensures ok <==> Executable(less, plan, policy, now)
  {
    var valid := ValidateNow(less, plan, now);
    if !valid || !policy.wellFormed { return false; }
    var parents := Parents(plan.actions);
    for i := 0 to |plan.actions|
      invariant forall j :: 0 <= j < i ==> ActionExecutable(plan, policy, plan.actions[j])
    {
      var a := plan.actions[i];
      var ordinary := Ordinary(plan.intent, a);
      if !ordinary && !SideEffect(plan.intent, parents, a) { return false; }
      if ordinary && a.obsoletedBy.Some? { return false; }
      if plan.intent.Autoremove? && !a.reason.IsDependency() { return false; }
      if a.operation.DoRemove? {
        if !RemovalAllowed(policy, a.name, a.reason) { return false; }
      } else if !a.operation.DoInstall? {
        if a.installed.None? || a.installedVendor.None? || a.candidateVendor.None? { return false; }
        if !SameKind(a.installed.value, a.target, a.installedVendor.value, a.candidateVendor.value) { return false; }
        if a.operation.DoReinstall? {
          if a.installed.value != a.target { return false; }
        } else {
          var newer, older := a.target, a.installed.value;
          if a.operation.DoDowngrade? { newer, older := older, newer; }
          var strictly := IsStrictlyNewerThan(newer, older);
          if !strictly { return false; }
        }
      }
    }
    ok := true;
  }

  /** No accepted plan removes a protected, install-only or running-kernel package, whatever the intent. */
  lemma RemovalsAreSafe(less: Before<PackageAction>, plan: Plan, policy: Policy, now: nat, i: nat)
    requires Executable(less, plan, policy, now) && i < |plan.actions| && plan.actions[i].operation.DoRemove?
    ensures !MustStay(policy, plan.actions[i].name)
    ensures plan.actions[i].reason.User? || plan.actions[i].reason.IsDependency()
    ensures !plan.intent.Remove? ==> plan.actions[i].reason.IsDependency()
  {
    assert ActionExecutable(plan, policy, plan.actions[i]);
  }

  /** Outside remove and autoremove every removal names an install or replacement of the same plan; inside
      them there is nothing but removals and nothing is named. */
  lemma RemovalsAreTied(less: Before<PackageAction>, plan: Plan, policy: Policy, now: nat, i: nat) returns (parent: nat)
    requires Executable(less, plan, policy, now) && i < |plan.actions|
    ensures plan.intent.Remove? || plan.intent.Autoremove? ==>
              plan.actions[i].operation.DoRemove? && plan.actions[i].obsoletedBy.None?
    ensures !plan.intent.Remove? && !plan.intent.Autoremove? && plan.actions[i].operation.DoRemove? ==>
              && parent < |plan.actions| && parent != i
              && plan.actions[i].obsoletedBy == ActionIdentity(plan.actions[parent]) && plan.actions[i].obsoletedBy.Some?
              && !plan.actions[parent].operation.DoRemove?
  {
    var a := plan.actions[i];
    assert ActionExecutable(plan, policy, a) && ActionValid(a);
    parent := 0;
    if !plan.intent.Remove? && !plan.intent.Autoremove? && a.operation.DoRemove? {
      assert a.obsoletedBy.value in Parents(plan.actions);
      var p :| p in plan.actions && ActionIdentity(p).Some? && ActionIdentity(p).value == a.obsoletedBy.value;
      parent :| 0 <= parent < |plan.actions| && plan.actions[parent] == p;
      assert ActionValid(plan.actions[parent]);
    }
  }

  predicate DirectionHolds(operation: Operation, installed: Evra, target: Evra) {
    && installed.arch == target.arch
    && (operation.DoUpgrade? <==> Newer(target, installed))
    && (operation.DoDowngrade? <==> Newer(installed, target))
    && (operation.DoReinstall? || operation.DoRemove? <==> installed == target)
  }

  /** The direction of every replacement is the one its operation claims, within one architecture and
      vendor; and only an install, or a dependency of an upgrade, adds a package. */
  lemma OperationsMeanWhatTheySay(less: Before<PackageAction>, plan: Plan, policy: Policy, now: nat, i: nat)
    requires Executable(less, plan, policy, now) && i < |plan.actions|
    ensures var a := plan.actions[i];
            && (a.installed.Some? <==> !a.operation.DoInstall?)
            && (a.operation.DoInstall? ==> plan.intent.Install? || a.reason.IsDependency())
            && (a.installed.Some? ==> DirectionHolds(a.operation, a.installed.value, a.target))
  {
    var a := plan.actions[i];
    assert ActionExecutable(plan, policy, a) && ActionValid(a);
    if a.installed.Some? {
      NewerIsStrictWeakOrder(a.target, a.installed.value, a.target);
      NewerIsStrictWeakOrder(a.installed.value, a.target, a.installed.value);
    }
  }
}
