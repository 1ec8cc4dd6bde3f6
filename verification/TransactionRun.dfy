/** The RPM transaction of one context (native/src/transaction.c and transaction_run.c): its phases, its
    counters, and which problems it lets pass. The RPM library is whatever it answers. */
module TransactionRun {
  import opened Bytes

  // ---------------------------------------------------------------- items, problems, counters

  /** `upgrade` is 0 for an install, 1 for an upgrade, 2 for a reinstall and 3 for a downgrade. */
  datatype Item = Item(erase: bool, upgrade: nat)

  datatype ProblemType = PackageInstalled | OldPackage | OtherProblem

  /** `key` is the item the library holds responsible. */
  datatype Problem = Problem(kind: ProblemType, key: Option<nat>)

  datatype Filters = Filters(replacePackage: bool, oldPackage: bool)

  datatype Counts = Counts(
    openAttempted: nat, openFailed: nat, rewindAttempted: nat, rewindSucceeded: nat, rewindFailed: nat,
    fdOpen: nat, closeAttempted: nat, fdClose: nat, closeFailed: nat,
    scriptStart: nat, scriptStop: nat, packageStop: nat, testRun: nat, realRun: nat)

  datatype Phase = Preflight | Started

  /** A callback of the library, with how the calls made inside it end. */
  datatype Event =
    | OpenFile(key: Option<nat>, reverifies: bool, sameFile: bool, duplicates: bool, rewinds: bool)
    | CloseFile(key: Option<nat>, closes: bool)
    | ScriptStart | ScriptStop | PackageStop | OtherEvent

  /** Everything the library and the start callback answer during one attempt. */
  datatype Answers = Answers(
    setup: bool, begins: bool, adds: nat -> bool, checks: bool, checkProblems: seq<Problem>, orders: bool,
    startAccepted: bool, events: seq<Event>, runResult: int, runProblems: seq<Problem>)

  // ---------------------------------------------------------------- authorized problems

  /** Some package goes in with this override. */
  predicate Asks(items: seq<Item>, upgrade: nat) {
    exists i :: 0 <= i < |items| && !items[i].erase && items[i].upgrade == upgrade
  }

  /** The filters are the overrides the items ask for, and no others. */
  predicate FiltersFit(f: Filters, items: seq<Item>) {
    (f.replacePackage <==> Asks(items, 2)) && (f.oldPackage <==> Asks(items, 3))
  }

  /** `authorized_filters`. */
  method AuthorizedFilters(items: seq<Item>) returns (f: Filters)
    ensures FiltersFit(f, items)
  {
    f := Filters(false, false);
    for i := 0 to |items|
      invariant f.replacePackage <==> exists j :: 0 <= j < i && !items[j].erase && items[j].upgrade == 2
      invariant f.oldPackage <==> exists j :: 0 <= j < i && !items[j].erase && items[j].upgrade == 3
    {
      if items[i].erase { continue; }
      if items[i].upgrade == 2 {
        f := f.(replacePackage := true);
      } else if items[i].upgrade == 3 {
        f := f.(oldPackage := true);
      }
    }
  }

  predicate IsKey(items: seq<Item>, key: Option<nat>) { key.Some? && key.value < |items| }

  /** A problem is let pass exactly when it is the one its own item asked to override. */
  predicate Authorized(items: seq<Item>, p: Problem) {
    IsKey(items, p.key) && !items[p.key.value].erase &&
    ((p.kind.PackageInstalled? && items[p.key.value].upgrade == 2) || (p.kind.OldPackage? && items[p.key.value].upgrade == 3))
  }

  /** `problem_is_authorized`. The filters never decide: the responsible item is among those that set them. */
  method ProblemIsAuthorized(items: seq<Item>, p: Problem, f: Filters) returns (ok: bool)
    requires FiltersFit(f, items)
    ensures ok <==> Authorized(items, p)
  {
    for i := 0 to |items|
      invariant forall j :: 0 <= j < i ==> items[j].erase || p.key != Some(j)
    {
      if items[i].erase || p.key != Some(i) { continue; }
      return (p.kind.PackageInstalled? && items[i].upgrade == 2 && f.replacePackage) ||
             (p.kind.OldPackage? && items[i].upgrade == 3 && f.oldPackage);
    }
    ok := false;
  }

  function Unauthorized(items: seq<Item>, problems: seq<Problem>): (r: seq<Problem>)
    ensures r == [] <==> forall i :: 0 <= i < |problems| ==> Authorized(items, problems[i])
  {
    if problems == [] then []
    else
      var n := |problems| - 1;
      Unauthorized(items, problems[..n]) + if Authorized(items, problems[n]) then [] else [problems[n]]
  }

  // ---------------------------------------------------------------- counters

  /** What the counters say of each other at any time. */
  predicate Balanced(c: Counts, open: set<nat>) {
    && c.rewindAttempted == c.rewindSucceeded + c.rewindFailed
    && c.fdOpen == c.rewindSucceeded
    && c.closeAttempted == c.fdClose + c.closeFailed
    && c.closeAttempted + |open| <= c.fdOpen
    && c.openFailed + c.rewindAttempted <= c.openAttempted
  }

  function Failures(c: Counts): nat { c.openFailed + c.rewindFailed + c.closeFailed }

  // ---------------------------------------------------------------- the life of a context

  datatype Entry = Added | TestRun | StartAccepted | RealRun

  /** The first `n` entries are neither a start nor a real run. */
  predicate Harmless(log: seq<Entry>, n: int) { forall i :: 0 <= i < n && i < |log| ==> log[i].Added? || log[i].TestRun? }

  /** The real run comes right after the accepted start, and nothing comes after it. */
  predicate EndsInRealRun(log: seq<Entry>) {
    |log| >= 2 && Harmless(log, |log| - 2) && log[|log| - 2].StartAccepted? && log[|log| - 1].RealRun?
  }

  predicate StateValid(counts: Counts, open: set<nat>, phase: Phase, log: seq<Entry>) {
    && Balanced(counts, open)
    && (phase.Preflight? ==> Harmless(log, |log|))
    && (phase.Started? ==> EndsInRealRun(log))
    && counts.realRun == (if phase.Started? then 1 else 0)
  }

  lemma ValidAtFirst(counts: Counts, log: seq<Entry>)
    requires Balanced(counts, {}) && counts.realRun == 0 && |log| == 0
    ensures StateValid(counts, {}, Preflight, log)
  {
  }

  method NoCounts() returns (c: Counts)
    ensures Balanced(c, {}) && c.realRun == 0 && Failures(c) == 0
  {
    c := Counts(0, 0, 0, 0, 0, 0, 0, 0, 0, 0, 0, 0, 0, 0);
  }

  class Context {
    const writable: bool
    const keyring: Option<nat>
    const maxPackages: nat
    var phase: Phase
    var items: seq<Item>
    /** The items of which a duplicate of the retained descriptor is out with the library. */
    var open: set<nat>
    var counts: Counts
    var callbackFailed: bool
    var problems: seq<Problem>
    /** Every item added and every run, over the whole life of the context. */
    ghost var log: seq<Entry>

    ghost predicate Valid()
      reads this
    {
      StateValid(counts, open, phase, log)
    }

    constructor (writable: bool, keyring: Option<nat>, maxPackages: nat)
      ensures Valid() && phase == Preflight && items == [] && Failures(counts) == 0
    {
      this.writable, this.keyring, this.maxPackages := writable, keyring, maxPackages;
      var none := NoCounts();
      phase, items, open, counts, callbackFailed, problems, log := Preflight, [], {}, none, false, [], [];
      new;
      ValidAtFirst(counts, log);
    }

    /** `append_item`. */
    method AppendItem(item: Item) returns (ok: bool)
      requires Valid() && phase.Preflight?
      modifies this`items, this`log
      ensures Valid() && ok == (|old(items)| < maxPackages)
      ensures items == if ok then old(items) + [item] else old(items)
      ensures log == if ok then old(log) + [Added] else old(log)
    {
      ok := |items| < maxPackages;
      if ok {
        items, log := items + [item], log + [Added];
      }
    }

    /** `dnfast_transaction_add_install`; `verified` covers the descriptor and the identity checks. */
    method AddInstall(key: nat, upgrade: nat, verified: bool) returns (ok: bool)
      requires Valid()
      modifies this`items, this`log
      ensures Valid()
      ensures ok <==> upgrade <= 3 && writable && old(phase).Preflight? && keyring == Some(key) && verified &&
                      |old(items)| < maxPackages
      ensures items == if ok then old(items) + [Item(false, upgrade)] else old(items)
    {
      if upgrade > 3 || !writable || !phase.Preflight? || keyring != Some(key) || !verified { return false; }
      ok := AppendItem(Item(false, upgrade));
    }

    /** `dnfast_transaction_add_erase`. */
    method AddErase(instance: nat) returns (ok: bool)
      requires Valid()
      modifies this`items, this`log
      ensures Valid()
      ensures ok <==> 0 < instance <= 0xFFFF_FFFF && writable && old(phase).Preflight? && |old(items)| < maxPackages
      ensures items == if ok then old(items) + [Item(true, 0)] else old(items)
    {
      if instance == 0 || instance > 0xFFFF_FFFF || !writable || !phase.Preflight? { return false; }
      ok := AppendItem(Item(true, 0));
    }

    /** `notify`: the flag is raised exactly when one more failure is counted. */
    method Notify(event: Event)
      requires Balanced(counts, open)
      modifies this`open, this`counts, this`callbackFailed
      ensures Balanced(counts, open)
      ensures counts.realRun == old(counts).realRun && counts.testRun == old(counts).testRun
      ensures Failures(counts) >= Failures(old(counts))
      ensures callbackFailed <==> old(callbackFailed) || Failures(counts) > Failures(old(counts))
    {
      match event
      case OpenFile(key, reverifies, sameFile, duplicates, rewinds) =>
        if !IsKey(items, key) || key.value in open || items[key.value].erase { return; }
        counts := counts.(openAttempted := counts.openAttempted + 1);
        if !reverifies {
          counts := counts.(openFailed := counts.openFailed + 1);
          callbackFailed := true;
          return;
        }
        if !sameFile { return; }
        if !duplicates {
          counts := counts.(openFailed := counts.openFailed + 1);
          callbackFailed := true;
          return;
        }
        counts := counts.(rewindAttempted := counts.rewindAttempted + 1);
        if !rewinds {
          counts := counts.(rewindFailed := counts.rewindFailed + 1);
          callbackFailed := true;
          return;
        }
        open := open + {key.value};
        counts := counts.(rewindSucceeded := counts.rewindSucceeded + 1, fdOpen := counts.fdOpen + 1);
      case CloseFile(key, closes) =>
        if IsKey(items, key) && key.value in open {
          open := open - {key.value};
          if closes {
            counts := counts.(closeAttempted := counts.closeAttempted + 1, fdClose := counts.fdClose + 1);
          } else {
            counts := counts.(closeAttempted := counts.closeAttempted + 1, closeFailed := counts.closeFailed + 1);
            callbackFailed := true;
          }
        }
      case ScriptStart => counts := counts.(scriptStart := counts.scriptStart + 1);
      case ScriptStop => counts := counts.(scriptStop := counts.scriptStop + 1);
      case PackageStop => counts := counts.(packageStop := counts.packageStop + 1);
      case OtherEvent =>
    }

    /** The callbacks of one `rpmtsRun`. */
    method RunEvents(events: seq<Event>)
      requires Balanced(counts, open) && !callbackFailed
      modifies this`open, this`counts, this`callbackFailed
      ensures Balanced(counts, open)
      ensures counts.realRun == old(counts).realRun && counts.testRun == old(counts).testRun
      ensures callbackFailed <==> Failures(counts) > Failures(old(counts))
      ensures Failures(counts) >= Failures(old(counts))
    {
      for i := 0 to |events|
        invariant Balanced(counts, open)
        invariant counts.realRun == old(counts).realRun && counts.testRun == old(counts).testRun
        invariant callbackFailed <==> Failures(counts) > Failures(old(counts))
        invariant Failures(counts) >= Failures(old(counts))
      {
        Notify(events[i]);
      }
    }

    /** `collect_problems`. */
    method CollectProblems(found: seq<Problem>, f: Filters) returns (remaining: nat)
      requires FiltersFit(f, items)
      modifies this`problems
      ensures problems == Unauthorized(items, found) && remaining == |problems|
    {
      problems := [];
      for i := 0 to |found|
        invariant problems == Unauthorized(items, found[..i])
      {
        assert found[..i + 1][..i] == found[..i];
        var ok := ProblemIsAuthorized(items, found[i], f);
        if !ok { problems := problems + [found[i]]; }
      }
      assert found[..|found|] == found;
      remaining := |problems|;
    }

    /** Stages 1 to 5: set-up, write transaction, the items, the check and the order. */
    method Rehearse(a: Answers, f: Filters) returns (failed: bool)
      requires FiltersFit(f, items)
      modifies this`problems
      ensures failed <==> !Rehearsed(a, items)
    {
      if !a.setup || !a.begins { return true; }
      for i := 0 to |items|
        invariant forall j :: 0 <= j < i ==> a.adds(j)
      {
        if !a.adds(i) { return true; }
      }
      if !a.checks { return true; }
      var remaining := CollectProblems(a.checkProblems, f);
      failed := remaining != 0 || !a.orders;
    }

    /** The run itself, after everything before it went well. */
    method RunNow(test: bool, a: Answers, f: Filters) returns (failed: bool)
      requires Balanced(counts, open) && !callbackFailed
      requires FiltersFit(f, items)
      modifies this`open, this`counts, this`callbackFailed, this`problems, this`log
      ensures Balanced(counts, open)
      ensures counts.realRun == old(counts).realRun + (if test then 0 else 1)
      ensures log == old(log) + [if test then TestRun else RealRun]
      ensures Failures(counts) >= Failures(old(counts))
      ensures failed <==> !RanWell(a, items) || Failures(counts) > Failures(old(counts))
    {
      counts := if test then counts.(testRun := counts.testRun + 1) else counts.(realRun := counts.realRun + 1);
      log := log + [if test then TestRun else RealRun];
      RunEvents(a.events);
      var remaining := CollectProblems(a.runProblems, f);
      failed := a.runResult != 0 || remaining != 0 || callbackFailed;
    }

    /** `attempt`. A real run needs every earlier stage and the accepted start; it succeeds exactly when the
        library reports nothing but authorized problems and no callback failed. */
    method Attempt(test: bool, run: bool, a: Answers) returns (failed: bool)
      requires Valid() && phase.Preflight?
      modifies this`phase, this`open, this`counts, this`callbackFailed, this`problems, this`log
      ensures Valid() && open == {}
      ensures phase.Started? <==> run && !test && Rehearsed(a, items) && a.startAccepted
      ensures failed <==> !(Rehearsed(a, items) && (run ==> test || a.startAccepted) &&
                            (run ==> RanWell(a, items) && Failures(counts) == Failures(old(counts))))
      ensures log == if run && Rehearsed(a, items) && test then old(log) + [TestRun]
                     else if phase.Started? then old(log) + [StartAccepted, RealRun] else old(log)
    {
      var f := AuthorizedFilters(items);
      callbackFailed := false;
      failed := Rehearse(a, f);
      if !failed && run && !test {
        if a.startAccepted {
          phase, log := Started, log + [StartAccepted];
        } else {
          failed := true;
        }
      }
      if !failed && run {
        failed := RunNow(test, a, f);
      }
      open := {};
    }

    /** `execute`. */
    method Execute(test: bool, run: bool, a: Answers) returns (ok: bool)
      requires Valid()
      modifies this`phase, this`open, this`counts, this`callbackFailed, this`problems, this`log
      ensures Valid()
      ensures ok <==> && writable && keyring.Some? && items != [] && old(phase).Preflight? && Rehearsed(a, items)
                      && (run ==> (test || a.startAccepted) && RanWell(a, items) && Failures(counts) == Failures(old(counts)))
      ensures old(phase).Started? ==> !ok && phase.Started? && log == old(log) && counts == old(counts)
      ensures old(log) <= log
      ensures phase != old(phase) <==> writable && keyring.Some? && items != [] && old(phase).Preflight? &&
                                       run && !test && Rehearsed(a, items) && a.startAccepted
    {
      if !writable || keyring.None? || items == [] || !phase.Preflight? { return false; }
      var failed := Attempt(test, run, a);
      ok := !failed;
    }

    /** `dnfast_transaction_clear`: items go, but phase and counters stay, so a cleared context that has run
        never runs again. */
    method Clear()
      requires Valid()
      modifies this`items, this`open, this`problems
      ensures Valid() && items == [] && problems == []
    {
      items, open, problems := [], {}, [];
    }

    /** What any state of any context tells about its whole life. */
    lemma RealRunAtMostOnce(i: nat, j: nat)
      requires Valid() && i < |log| && j < |log| && log[i].RealRun?
      ensures phase.Started? && i == |log| - 1 && i > 0 && log[i - 1].StartAccepted?
      ensures log[j].RealRun? ==> j == i
      ensures log[j].Added? ==> j < i
    {
    }
  }

  /** The library reports success and nothing but authorized problems. */
  predicate RanWell(a: Answers, items: seq<Item>) {
    a.runResult == 0 && Unauthorized(items, a.runProblems) == []
  }

  /** Every stage before the run went well. */
  predicate Rehearsed(a: Answers, items: seq<Item>) {
    && a.setup && a.begins && (forall i :: 0 <= i < |items| ==> a.adds(i))
    && a.checks && Unauthorized(items, a.checkProblems) == [] && a.orders
  }
}
