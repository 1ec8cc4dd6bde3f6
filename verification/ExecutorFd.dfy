/** The descriptor hand-over to the executor (native/src/executor_fd.c): before `execve` the plan, the
    manifest and the artifacts are moved to descriptors 3, 4, 5, ...; afterwards they are taken back. */
module ExecutorFd {
  import opened Bytes

  /** An open descriptor: the object it refers to and its close-on-exec flag. */
  datatype Entry = Entry(file: nat, cloexec: bool)

  /** `fd` is the lowest descriptor from `minimum` on that is not open. */
  predicate LowestFree(open: map<int, Entry>, minimum: int, fd: int) {
    minimum <= fd && fd !in open && forall k :: minimum <= k < fd ==> k in open
  }

  /** The descriptor table of a process. `limit` is RLIMIT_NOFILE. */
  class Process {
    var open: map<int, Entry>
    const limit: int

    constructor (open: map<int, Entry>, limit: int)
      ensures this.open == open && this.limit == limit
    {
      this.open := open;
      this.limit := limit;
    }

    /** `fcntl(source, F_DUPFD_CLOEXEC, minimum)`. */
    method Duplicate(source: int, minimum: nat) returns (fd: int)
      modifies this
      ensures fd == -1 || fd >= 0
      ensures fd == -1 <==> source !in old(open) || forall k :: minimum <= k < limit ==> k in old(open)
      ensures fd == -1 ==> open == old(open)
      ensures fd >= 0 ==> source in old(open) && LowestFree(old(open), minimum, fd)
      ensures fd >= 0 ==> open == old(open)[fd := Entry(old(open)[source].file, true)]
    {
      if source !in open {
        return -1;
      }
      fd := minimum;
      while fd in open
        invariant minimum <= fd && forall k :: minimum <= k < fd ==> k in open
        decreases set k | k in open && k >= fd
      {
        ghost var before := set k | k in open && k >= fd;
        ghost var after := set k | k in open && k >= fd + 1;
        assert fd in before && fd !in after && after <= before;
        fd := fd + 1;
      }
      if fd >= limit {
        return -1;
      }
      open := open[fd := Entry(open[source].file, true)];
    }

    /** `dup3(source, target, 0)`. */
    method DuplicateTo(source: int, target: nat) returns (ok: bool)
      modifies this
      ensures ok <==> source in old(open) && source != target && target < limit
      ensures ok ==> open == old(open)[target := Entry(old(open)[source].file, false)]
      ensures !ok ==> open == old(open)
    {
      ok := source in open && source != target && target < limit;
      if ok {
        open := open[target := Entry(open[source].file, false)];
      }
    }

    /** `fcntl(fd, F_SETFD, ...)` after `fcntl(fd, F_GETFD)`. */
    method SetCloexec(fd: int, value: bool) returns (ok: bool)
      modifies this
      ensures ok == (fd in old(open))
      ensures open == if ok then old(open)[fd := old(open)[fd].(cloexec := value)] else old(open)
    {
      ok := fd in open;
      if ok {
        open := open[fd := open[fd].(cloexec := value)];
      }
    }

    method Close(fd: int)
      modifies this
      ensures open == old(open) - {fd}
    {
      open := open - {fd};
    }

    /** `close_range(first, UINT_MAX)`. */
    method CloseFrom(first: nat)
      modifies this
      ensures open == map k | k in old(open) && k < first :: old(open)[k]
    {
      open := map k | k in open && k < first :: open[k];
    }

    /** `execve`: descriptors marked close-on-exec do not survive. */
    method Exec()
      modifies this
      ensures open == map k | k in old(open) && !old(open)[k].cloexec :: old(open)[k]
    {
      open := map k | k in open && !open[k].cloexec :: open[k];
    }
  }

  /** Descriptors `base`, `base + 1`, ... are open on exactly these objects, not close-on-exec. */
  predicate Holds(open: map<int, Entry>, base: int, files: seq<nat>) {
    forall fd :: base <= fd < base + |files| ==> fd in open && open[fd] == Entry(files[fd - base], false)
  }

  /** Every open descriptor is below `top`. */
  predicate Below(open: map<int, Entry>, top: int) { forall k :: k in open ==> k < top }

  /** Above all open descriptors there are `count` more, from `minimum` on, that may be used. */
  ghost predicate HasRoom(open: map<int, Entry>, limit: int, minimum: int, count: int) {
    exists top :: RoomFrom(open, limit, minimum, count, top)
  }

  predicate RoomFrom(open: map<int, Entry>, limit: int, minimum: int, count: int, top: int) {
    minimum <= top && top + count <= limit && Below(open, top)
  }

  /** With room, the lowest free descriptor is found and is not above the top. */
  lemma FreeBelow(open: map<int, Entry>, limit: int, minimum: int, top: int)
    requires Below(open, top) && minimum <= top < limit
    ensures !(forall k :: minimum <= k < limit ==> k in open)
    ensures forall fd :: LowestFree(open, minimum, fd) ==> fd <= top
  {
    assert top !in open;
  }

  function NextFree(open: map<int, Entry>, from: int): (fd: int)
    ensures LowestFree(open, from, fd)
    decreases set k | k in open && k >= from
  {
    if from in open then
      FewerAbove(open, from);
      NextFree(open, from + 1)
    else from
  }

  lemma FewerAbove(open: map<int, Entry>, from: int)
    requires from in open
    ensures (set k | k in open && k >= from + 1) < (set k | k in open && k >= from)
  {
    var all, fewer := set k | k in open && k >= from, set k | k in open && k >= from + 1;
    assert from in all && from !in fewer && fewer <= all;
  }

  /** The `i`-th free descriptor from `minimum` on. */
  function Slot(open: map<int, Entry>, minimum: int, i: nat): int {
    NextFree(open, if i == 0 then minimum else Slot(open, minimum, i - 1) + 1)
  }

  predicate IsEarlierSlot(open: map<int, Entry>, minimum: int, i: nat, fd: int) {
    exists j: nat :: j < i && Slot(open, minimum, j) == fd
  }

  /** Slots are free and ascend, and up to each of them there is nothing free but the earlier ones. */
  lemma {:induction false} SlotFacts(open: map<int, Entry>, minimum: int, i: nat)
    ensures minimum <= Slot(open, minimum, i) && Slot(open, minimum, i) !in open
    ensures forall j: nat :: j < i ==> Slot(open, minimum, j) < Slot(open, minimum, i)
    ensures forall k :: minimum <= k < Slot(open, minimum, i) ==> k in open || IsEarlierSlot(open, minimum, i, k)
  {
    if i > 0 {
      SlotFacts(open, minimum, i - 1);
      forall k | minimum <= k < Slot(open, minimum, i) ensures k in open || IsEarlierSlot(open, minimum, i, k) {
        if k == Slot(open, minimum, i - 1) {
          assert IsEarlierSlot(open, minimum, i, k);
        } else if k < Slot(open, minimum, i - 1) && k !in open {
          var j: nat :| j < i - 1 && Slot(open, minimum, j) == k;
          assert IsEarlierSlot(open, minimum, i, k);
        }
      }
    }
  }

  /** Every slot is within the limit, and a source that is closed on entry is an earlier slot. */
  predicate Servable(open: map<int, Entry>, limit: int, minimum: int, sources: seq<int>) {
    forall i: nat :: i < |sources| ==> Served(open, limit, minimum, sources, i)
  }

  predicate Served(open: map<int, Entry>, limit: int, minimum: int, sources: seq<int>, i: nat)
    requires i < |sources|
  {
    Slot(open, minimum, i) < limit && (sources[i] in open || IsEarlierSlot(open, minimum, i, sources[i]))
  }

  predicate InSlots(open: map<int, Entry>, minimum: int, temporary: seq<int>) {
    forall i: nat :: i < |temporary| ==> temporary[i] == Slot(open, minimum, i)
  }

  /** The next temporary is the next slot, and whether it can be had is what `Served` says. */
  lemma NextSlot(open: map<int, Entry>, original: map<int, Entry>, temporary: seq<int>, files: seq<nat>, minimum: int)
    requires Staged(open, original, temporary, files, minimum) && InSlots(original, minimum, temporary)
    ensures LowestFree(open, minimum, Slot(original, minimum, |temporary|))
    ensures forall fd :: fd in open <==> fd in original || IsEarlierSlot(original, minimum, |temporary|, fd)
  {
    var n := |temporary|;
    SlotFacts(original, minimum, n);
    forall fd ensures fd in temporary <==> IsEarlierSlot(original, minimum, n, fd) {
      if fd in temporary {
        var j :| 0 <= j < n && temporary[j] == fd;
        assert Slot(original, minimum, j) == fd;
      }
      if IsEarlierSlot(original, minimum, n, fd) {
        var j: nat :| j < n && Slot(original, minimum, j) == fd;
        assert temporary[j] == fd;
      }
    }
  }

  lemma LowestUnique(open: map<int, Entry>, minimum: int, a: int, b: int)
    requires LowestFree(open, minimum, a) && LowestFree(open, minimum, b)
    ensures a == b
  {
  }

  predicate AllOpen(open: map<int, Entry>, sources: seq<int>) { forall i :: 0 <= i < |sources| ==> sources[i] in open }

  /** `open` is `original` plus the temporaries made so far, all fresh and from `minimum` on. */
  ghost predicate Staged(open: map<int, Entry>, original: map<int, Entry>, temporary: seq<int>,
                         files: seq<nat>, minimum: int)
  {
    && |temporary| == |files|
    && (forall i :: 0 <= i < |temporary| ==>
          minimum <= temporary[i] && temporary[i] !in original &&
          temporary[i] in open && open[temporary[i]] == Entry(files[i], true))
    && (forall k :: k in original ==> k in open && open[k] == original[k])
    && (forall k :: k in open ==> k in original || k in temporary)
  }

  /** Closes the given descriptors, and nothing else. */
  method CloseAll(process: Process, fds: seq<int>)
    modifies process
    ensures process.open == map k | k in old(process.open) && k !in fds :: old(process.open)[k]
  {
    for i := 0 to |fds|
      invariant process.open == map k | k in old(process.open) && k !in fds[..i] :: old(process.open)[k]
    {
      process.Close(fds[i]);
      assert fds[..i + 1] == fds[..i] + [fds[i]];
    }
    assert fds[..|fds|] == fds;
  }

  /** File `i` is the object of source `i`, or that of an earlier temporary the source names. */
  ghost predicate Resolved(original: map<int, Entry>, sources: seq<int>, temporary: seq<int>, files: seq<nat>, i: int)
    requires 0 <= i < |sources| && i < |temporary| == |files|
  {
    if sources[i] in original then files[i] == original[sources[i]].file
    else exists j :: 0 <= j < i && temporary[j] == sources[i] && files[j] == files[i]
  }

  lemma StagedGrows(open: map<int, Entry>, original: map<int, Entry>, temporary: seq<int>, files: seq<nat>,
                    minimum: int, fd: int, file: nat)
    requires Staged(open, original, temporary, files, minimum)
    requires minimum <= fd && fd !in open
    ensures Staged(open[fd := Entry(file, true)], original, temporary + [fd], files + [file], minimum)
  {
    var grown := temporary + [fd];
    assert forall t :: t in grown <==> t in temporary || t == fd;
  }

  lemma StagedUndone(open: map<int, Entry>, original: map<int, Entry>, temporary: seq<int>, files: seq<nat>, minimum: int)
    requires Staged(open, original, temporary, files, minimum)
    ensures (map k | k in open && k !in temporary :: open[k]) == original
  {
    var rest := map k | k in open && k !in temporary :: open[k];
    assert forall t :: t in temporary ==> t !in original;
    assert forall k :: k in rest <==> k in original;
    assert forall k :: k in rest ==> rest[k] == original[k];
  }

  lemma {:induction false} SlotBelow(open: map<int, Entry>, minimum: int, top: int, i: nat)
    requires Below(open, top) && minimum <= top
    ensures Slot(open, minimum, i) <= top + i
  {
    if i > 0 { SlotBelow(open, minimum, top, i - 1); }
    var from := if i == 0 then minimum else Slot(open, minimum, i - 1) + 1;
    assert LowestFree(open, from, Slot(open, minimum, i));
    assert top + i !in open;
  }

  /** Open sources with room for their temporaries can be served. */
  lemma RoomServes(open: map<int, Entry>, limit: int, minimum: int, sources: seq<int>)
    requires AllOpen(open, sources) && HasRoom(open, limit, minimum, |sources|)
    ensures Servable(open, limit, minimum, sources)
  {
    var top :| RoomFrom(open, limit, minimum, |sources|, top);
    forall i: nat | i < |sources| ensures Served(open, limit, minimum, sources, i) {
      SlotBelow(open, minimum, top, i);
    }
  }

  /** First loop: every source is duplicated above all targets. A failure leaves no trace. A source
      that is closed on entry gets through only by naming an earlier temporary. */
  method Stage(process: Process, sources: seq<int>, minimum: nat) returns (ok: bool, temporary: seq<int>, ghost files: seq<nat>)
    modifies process
    ensures !ok ==> process.open == old(process.open)
    ensures ok ==> |temporary| == |sources| && Staged(process.open, old(process.open), temporary, files, minimum)
    ensures ok ==> forall i :: 0 <= i < |sources| ==> Resolved(old(process.open), sources, temporary, files, i)
    ensures ok <==> Servable(old(process.open), process.limit, minimum, sources)
    ensures ok ==> InSlots(old(process.open), minimum, temporary)
  {
    ghost var original := process.open;
    ok, temporary, files := true, [], [];
    for i := 0 to |sources|
      invariant |temporary| == i && Staging(process.open, original, process.limit, minimum, sources, temporary, files)
    {
      ghost var before := process.open;
      var fd := process.Duplicate(sources[i], minimum);
      if fd < 0 {
        StagingStuck(before, original, process.limit, minimum, sources, temporary, files);
        StagedUndone(before, original, temporary, files, minimum);
        CloseAll(process, temporary);
        return false, temporary, files;
      }
      ghost var file := before[sources[i]].file;
      StagingGrows(before, original, process.limit, minimum, sources, temporary, files, fd, file);
      files := files + [file];
      temporary := temporary + [fd];
    }
  }

  /** The loop invariant of `Stage`. */
  ghost predicate Staging(open: map<int, Entry>, original: map<int, Entry>, limit: int, minimum: int, sources: seq<int>,
                          temporary: seq<int>, files: seq<nat>)
  {
    && |temporary| <= |sources|
    && Staged(open, original, temporary, files, minimum) && InSlots(original, minimum, temporary)
    && (forall k: nat :: k < |temporary| ==> Served(original, limit, minimum, sources, k))
    && (forall k :: 0 <= k < |temporary| ==> Resolved(original, sources, temporary, files, k))
  }

  lemma NextServed(open: map<int, Entry>, original: map<int, Entry>, limit: int, minimum: int, sources: seq<int>,
                   temporary: seq<int>, files: seq<nat>, fd: int)
    requires Staged(open, original, temporary, files, minimum) && InSlots(original, minimum, temporary)
    requires |temporary| < |sources| && sources[|temporary|] in open
    requires LowestFree(open, minimum, fd) && !(forall k :: minimum <= k < limit ==> k in open)
    ensures InSlots(original, minimum, temporary + [fd]) && Served(original, limit, minimum, sources, |temporary|)
  {
    NextSlot(open, original, temporary, files, minimum);
    LowestUnique(open, minimum, fd, Slot(original, minimum, |temporary|));
    assert fd < limit;
  }

  lemma StagingGrows(open: map<int, Entry>, original: map<int, Entry>, limit: int, minimum: int, sources: seq<int>,
                     temporary: seq<int>, files: seq<nat>, fd: int, file: nat)
    requires Staging(open, original, limit, minimum, sources, temporary, files) && |temporary| < |sources|
    requires LowestFree(open, minimum, fd) && !(forall k :: minimum <= k < limit ==> k in open)
    requires sources[|temporary|] in open && open[sources[|temporary|]].file == file
    ensures Staging(open[fd := Entry(file, true)], original, limit, minimum, sources, temporary + [fd], files + [file])
  {
    NextServed(open, original, limit, minimum, sources, temporary, files, fd);
    StagedGrows(open, original, temporary, files, minimum, fd, file);
    ResolvedGrows(open, original, sources, temporary, files, minimum, fd, file);
  }

  lemma StagingStuck(open: map<int, Entry>, original: map<int, Entry>, limit: int, minimum: int, sources: seq<int>,
                     temporary: seq<int>, files: seq<nat>)
    requires Staging(open, original, limit, minimum, sources, temporary, files) && |temporary| < |sources|
    requires sources[|temporary|] !in open || forall k :: minimum <= k < limit ==> k in open
    ensures !Servable(original, limit, minimum, sources)
  {
    NextSlot(open, original, temporary, files, minimum);
    assert !Served(original, limit, minimum, sources, |temporary|);
  }

  lemma StagedKeeps(open: map<int, Entry>, original: map<int, Entry>, temporary: seq<int>, files: seq<nat>, minimum: int, fd: int)
    requires Staged(open, original, temporary, files, minimum) && fd in original
    ensures fd in open && open[fd] == original[fd]
  {
  }

  lemma ResolvedGrows(open: map<int, Entry>, original: map<int, Entry>, sources: seq<int>, temporary: seq<int>,
                      files: seq<nat>, minimum: int, fd: int, file: nat)
    requires Staged(open, original, temporary, files, minimum)
    requires |temporary| < |sources| && sources[|temporary|] in open && open[sources[|temporary|]].file == file
    requires forall k :: 0 <= k < |temporary| ==> Resolved(original, sources, temporary, files, k)
    ensures forall k :: 0 <= k <= |temporary| ==> Resolved(original, sources, temporary + [fd], files + [file], k)
  {
    forall k | 0 <= k <= |temporary|
      ensures Resolved(original, sources, temporary + [fd], files + [file], k)
    {
      if k < |temporary| {
        assert Resolved(original, sources, temporary, files, k);
        assert (files + [file])[k] == files[k];
        if sources[k] !in original {
          var j :| 0 <= j < k && temporary[j] == sources[k] && files[j] == files[k];
          assert (temporary + [fd])[j] == sources[k] && (files + [file])[j] == files[k];
        }
      } else if sources[k] in original {
        assert (files + [file])[k] == file;
        StagedKeeps(open, original, temporary, files, minimum, sources[k]);
      } else {
        assert (files + [file])[k] == file;
        var j :| 0 <= j < k && temporary[j] == sources[k];
        assert (temporary + [fd])[j] == sources[k] && (files + [file])[j] == file;
      }
    }
  }

  /** Second loop: each temporary is copied down to its target. */
  method Place(process: Process, temporary: seq<int>, ghost files: seq<nat>) returns (ok: bool)
    requires |temporary| == |files|
    requires forall i :: 0 <= i < |temporary| ==>
               3 + |temporary| <= temporary[i] && temporary[i] in process.open && process.open[temporary[i]].file == files[i]
    modifies process
    ensures 3 + |temporary| <= process.limit ==> ok
    ensures ok ==> Holds(process.open, 3, files)
    ensures forall k :: !(3 <= k < 3 + |temporary|) ==>
              (k in process.open <==> k in old(process.open)) &&
              (k in process.open ==> process.open[k] == old(process.open)[k])
  {
    for i := 0 to |temporary|
      invariant Holds(process.open, 3, files[..i])
      invariant forall k :: !(3 <= k < 3 + |temporary|) ==>
                  (k in process.open <==> k in old(process.open)) &&
                  (k in process.open ==> process.open[k] == old(process.open)[k])
    {
      var target := i + 3;
      var copied := process.DuplicateTo(temporary[i], target);
      if !copied {
        return false;
      }
      var cleared := process.SetCloexec(target, false);
      if !cleared {
        return false;
      }
    }
    assert files[..|temporary|] == files;
    return true;
  }

  lemma ResolvedIsHandedOver(original: map<int, Entry>, minimum: int, sources: seq<int>, temporary: seq<int>, files: seq<nat>)
    requires |sources| == |temporary| == |files| && InSlots(original, minimum, temporary)
    requires forall i :: 0 <= i < |sources| ==> Resolved(original, sources, temporary, files, i)
    ensures AllHandedOver(original, minimum, sources, files)
  {
    forall i | 0 <= i < |files| ensures HandedOver(original, minimum, sources, files, i) {
      assert Resolved(original, sources, temporary, files, i);
      if sources[i] !in original {
        var j :| 0 <= j < i && temporary[j] == sources[i] && files[j] == files[i];
        assert Slot(original, minimum, j) == sources[i];
      }
    }
  }

  /** Descriptors below 3 are as they were. */
  ghost predicate StandardKept(before: map<int, Entry>, after: map<int, Entry>) {
    forall k :: k < 3 ==> (k in after <==> k in before) && (k in after ==> after[k] == before[k])
  }

  lemma SlotsReachable(open: map<int, Entry>, limit: int, minimum: int, sources: seq<int>)
    requires Servable(open, limit, minimum, sources) && sources != []
    ensures minimum < limit
  {
    assert Served(open, limit, minimum, sources, 0);
    SlotFacts(open, minimum, 0);
  }

  lemma StagedStandard(open: map<int, Entry>, original: map<int, Entry>, temporary: seq<int>, files: seq<nat>, minimum: int)
    requires Staged(open, original, temporary, files, minimum) && minimum >= 3
    ensures forall t :: t in temporary ==> t >= minimum
    ensures StandardKept(original, open)
  {
  }

  /** The second loop and the closing. */
  method PlaceAndClose(process: Process, ghost original: map<int, Entry>, temporary: seq<int>, ghost files: seq<nat>, minimum: nat)
    returns (ok: bool)
    requires Staged(process.open, original, temporary, files, minimum)
    requires minimum == |temporary| + 3 < process.limit
    modifies process
    ensures ok && Holds(process.open, 3, files)
    ensures forall k :: 3 <= k ==> (k in process.open <==> k < minimum)
    ensures StandardKept(original, process.open)
  {
    StagedStandard(process.open, original, temporary, files, minimum);
    ok := Place(process, temporary, files);
    CloseAll(process, temporary);
    if ok {
      process.CloseFrom(minimum);
    }
  }

  /** Both loops and the closing after them, on any sources. */
  method Shuffle(process: Process, sources: seq<int>, minimum: nat) returns (ok: bool, ghost files: seq<nat>)
    requires sources != [] && minimum == |sources| + 3
    modifies process
    ensures ok <==> Servable(old(process.open), process.limit, minimum, sources)
    ensures ok ==> |files| == |sources| && Holds(process.open, 3, files)
    ensures ok ==> AllHandedOver(old(process.open), minimum, sources, files)
    ensures ok ==> forall k :: 3 <= k ==> (k in process.open <==> k < minimum)
    ensures StandardKept(old(process.open), process.open)
  {
    var temporary;
    ok, temporary, files := Stage(process, sources, minimum);
    if !ok {
      return;
    }
    SlotsReachable(old(process.open), process.limit, minimum, sources);
    ResolvedIsHandedOver(old(process.open), minimum, sources, temporary, files);
    ok := PlaceAndClose(process, old(process.open), temporary, files, minimum);
  }

  /** `dnfast_executor_exec_compact` up to the `execve`, with `plan`, `manifest` and the artifacts as
      sources. On success the hand-over descriptors hold exactly the source objects, the standard
      descriptors are untouched and nothing else is open, however sources and targets overlap. */
  method ExecCompact(process: Process, root: bool, plan: int, manifest: int, artifacts: seq<int>)
    returns (ok: bool, ghost files: seq<nat>)
    modifies process
    ensures ok <==> Legal(root, plan, manifest, artifacts) &&
                    Servable(old(process.open), process.limit, |artifacts| + 5, [plan, manifest] + artifacts)
    ensures ok ==> |files| == |artifacts| + 2 && Holds(process.open, 3, files)
    ensures ok ==> AllHandedOver(old(process.open), |artifacts| + 5, [plan, manifest] + artifacts, files)
    ensures ok ==> forall k :: 3 <= k ==> (k in process.open <==> k < 5 + |artifacts|)
    ensures StandardKept(old(process.open), process.open)
  {
    ok, files := false, [];
    if Legal(root, plan, manifest, artifacts) {
      ok, files := Shuffle(process, [plan, manifest] + artifacts, |artifacts| + 5);
    }
  }

  predicate Legal(root: bool, plan: int, manifest: int, artifacts: seq<int>) {
    plan >= 0 && manifest >= 0 && root && |artifacts| <= 1024
  }

  /** Legal arguments, all sources open, and room for the temporaries. */
  ghost predicate Serviceable(open: map<int, Entry>, limit: int, root: bool, plan: int, manifest: int, artifacts: seq<int>) {
    && Legal(root, plan, manifest, artifacts)
    && AllOpen(open, [plan, manifest] + artifacts)
    && HasRoom(open, limit, |artifacts| + 5, |artifacts| + 2)
  }

  /** The object a descriptor refers to, if it is open. */
  function Named(open: map<int, Entry>, fd: int): Option<nat> { if fd in open then Some(open[fd].file) else None }

  /** Descriptor `3 + i` received the object of source `i`. A source that was closed on entry named none; it
      is then one of the earlier slots, and the object of the source there is received instead. */
  ghost predicate HandedOver(original: map<int, Entry>, minimum: int, sources: seq<int>, files: seq<nat>, i: int)
    requires |sources| == |files| && 0 <= i < |files|
  {
    if sources[i] in original then Named(original, sources[i]) == Some(files[i])
    else exists j: nat :: j < i && Slot(original, minimum, j) == sources[i] && files[j] == files[i]
  }

  ghost predicate AllHandedOver(original: map<int, Entry>, minimum: int, sources: seq<int>, files: seq<nat>)
    requires |sources| == |files|
  {
    forall i :: 0 <= i < |files| ==> HandedOver(original, minimum, sources, files, i)
  }

  /** After a successful shuffle each slot holds the object its source named on entry exactly if that source
      was open on entry: the source itself is what a caller has to look at. */
  lemma HandedOverExact(original: map<int, Entry>, minimum: int, sources: seq<int>, files: seq<nat>, i: int)
    requires |sources| == |files| && 0 <= i < |files| && HandedOver(original, minimum, sources, files, i)
    ensures Named(original, sources[i]) == Some(files[i]) <==> sources[i] in original
  {
  }

  /** The whole shuffle succeeds on a closed artifact descriptor that happens to be the plan's temporary, and
      hands the plan over as that artifact. */
  method ClosedSourceIsMistaken() returns (process: Process, ok: bool)
    ensures ok && 5 in process.open && process.open[5].file == 100
  {
    process := new Process(map[10 := Entry(100, true), 11 := Entry(101, true)], 64);
    ghost var original, sources := process.open, [10, 11, 6];
    assert LowestFree(original, 6, 6) && LowestFree(original, 7, 7) && LowestFree(original, 8, 8);
    LowestUnique(original, 6, NextFree(original, 6), 6);
    LowestUnique(original, 7, NextFree(original, 7), 7);
    LowestUnique(original, 8, NextFree(original, 8), 8);
    assert Slot(original, 6, 0) == 6 && Slot(original, 6, 1) == 7 && Slot(original, 6, 2) == 8;
    assert IsEarlierSlot(original, 6, 2, 6);
    assert [10, 11] + [6] == sources;
    forall i: nat | i < 3 ensures Served(original, 64, 6, sources, i) {
      assert i == 0 || i == 1 || i == 2;
    }
    ghost var files;
    ok, files := ExecCompact(process, true, 10, 11, [6]);
    assert HandedOver(original, 6, sources, files, 2) && HandedOver(original, 6, sources, files, 0);
    ghost var j: nat :| j < 2 && Slot(original, 6, j) == 6 && files[j] == files[2];
    assert process.open[5] == Entry(files[2], false);
  }

  /** `take_inherited_fd`. */
  method TakeInherited(process: Process, source: int, minimum: nat) returns (fd: int)
    modifies process
    ensures fd == -1 || fd >= 0
    ensures fd >= 0 ==> source in old(process.open) && LowestFree(old(process.open), minimum, fd)
    ensures source in old(process.open) && HasRoom(old(process.open), process.limit, minimum, 1) ==> fd >= 0
    ensures fd >= 0 ==> fd in process.open && process.open[fd] == Entry(old(process.open)[source].file, true)
    ensures forall k :: k != fd ==> (k in process.open <==> k in old(process.open))
    ensures forall k :: k != fd && k in process.open ==> process.open[k].file == old(process.open)[k].file
  {
    ghost var before := process.open;
    var marked := process.SetCloexec(source, true);
    if !marked {
      return -1;
    }
    assert forall k :: k in process.open <==> k in before;
    if HasRoom(before, process.limit, minimum, 1) {
      var top :| RoomFrom(before, process.limit, minimum, 1, top);
      FreeBelow(process.open, process.limit, minimum, top);
    }
    fd := process.Duplicate(source, minimum);
  }

  /** The executor's side: after `execve`, the three take functions called in order return descriptors
      on exactly the objects handed over, in order. */
  method TakeAll(process: Process, ghost files: seq<nat>, count: nat) returns (fds: seq<int>)
    requires |files| == count + 2 && count <= 1024
    requires Holds(process.open, 3, files)
    modifies process
    ensures |fds| <= |files|
    ensures forall i :: 0 <= i < |fds| ==> fds[i] in process.open && process.open[fds[i]].file == files[i]
    ensures forall i, j :: 0 <= i < j < |fds| ==> fds[i] != fds[j]
    ensures HasRoom(old(process.open), process.limit, count + 5, count + 2) ==> |fds| == |files|
  {
    fds := [];
    ghost var room := HasRoom(process.open, process.limit, count + 5, count + 2);
    ghost var top := 0;
    if room { top :| RoomFrom(process.open, process.limit, count + 5, count + 2, top); }
    for i := 0 to count + 2
      invariant room ==> count + 5 <= top && top + count + 2 <= process.limit && Below(process.open, top + i)
      invariant |fds| == i
      invariant forall k :: 3 <= k < 3 + |files| ==> k in process.open && process.open[k].file == files[k - 3]
      invariant forall k :: 0 <= k < i ==> fds[k] >= 0 && fds[k] in process.open && process.open[fds[k]].file == files[k]
      invariant forall k, l :: 0 <= k < l < i ==> fds[k] != fds[l]
    {
      if room {
        assert RoomFrom(process.open, process.limit, 4 + i, 1, top + i);
        FreeBelow(process.open, process.limit, 4 + i, top + i);
      }
      var fd := TakeInherited(process, 3 + i, 4 + i);
      if fd < 0 {
        return;
      }
      fds := fds + [fd];
    }
  }

  /** End to end: what the executor takes at position `i` is what the caller passed at position `i`. */
  method HandOver(process: Process, root: bool, plan: int, manifest: int, artifacts: seq<int>)
    returns (ok: bool, fds: seq<int>)
    modifies process
    ensures |fds| <= |artifacts| + 2
    ensures forall i :: 0 <= i < |fds| && ([plan, manifest] + artifacts)[i] in old(process.open) ==>
              fds[i] in process.open &&
              process.open[fds[i]].file == old(process.open)[([plan, manifest] + artifacts)[i]].file
    ensures Serviceable(old(process.open), process.limit, root, plan, manifest, artifacts) ==> ok && |fds| == |artifacts| + 2
  {
    ghost var original, sources := process.open, [plan, manifest] + artifacts;
    ghost var files;
    if Serviceable(original, process.limit, root, plan, manifest, artifacts) {
      RoomServes(original, process.limit, |artifacts| + 5, sources);
    }
    ok, files := ExecCompact(process, root, plan, manifest, artifacts);
    fds := [];
    if ok {
      process.Exec();
      if Serviceable(original, process.limit, root, plan, manifest, artifacts) {
        var top :| RoomFrom(original, process.limit, |artifacts| + 5, |artifacts| + 2, top);
        assert RoomFrom(process.open, process.limit, |artifacts| + 5, |artifacts| + 2, top);
      }
      fds := TakeAll(process, files, |artifacts|);
      forall i | 0 <= i < |fds| && sources[i] in original
        ensures fds[i] in process.open && process.open[fds[i]].file == original[sources[i]].file
      {
        assert HandedOver(original, |artifacts| + 5, sources, files, i);
      }
    }
  }
}
