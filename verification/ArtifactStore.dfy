/** The content-addressed artifact cache (crates/dnfast-cache/src/artifact.rs and artifact_store.rs):
    capacity arithmetic in 64 bits, verified streaming, and a transaction that holds the directory. */
module ArtifactStore {
  import opened Bytes

  type Text = seq<Byte>
  type Sha256 = seq<Byte> -> Text

  const MAX_TRANSACTION_BYTES: nat := 64 * 1024 * 1024 * 1024
  const MAX_TRANSACTION_ARTIFACTS: nat := 100_000
  const MAX_CACHE_BYTES: nat := 128 * 1024 * 1024 * 1024
  const U64_MAX: nat := 0xFFFF_FFFF_FFFF_FFFF

  // ---------------------------------------------------------------- capacity

  function CheckedAdd(a: nat, b: nat): Option<nat> { if a + b > U64_MAX then None else Some(a + b) }

  datatype Capacity = Capacity(cached: nat, available: nat)

  /** `TransactionRequest::validate`, every addition checked for 64 bits. */
  function Validate(predicted: nat, artifacts: nat, capacity: Capacity): (ok: bool) {
    if predicted > MAX_TRANSACTION_BYTES || artifacts > MAX_TRANSACTION_ARTIFACTS then false
    else match CheckedAdd(capacity.cached, predicted)
      case None => false
      case Some(after) =>
        if after > MAX_CACHE_BYTES then false
        else match CheckedAdd(predicted, 19)
          case None => false
          case Some(rounded) =>
            match CheckedAdd(predicted, rounded / 20)
            case None => false
            case Some(reserve) => capacity.available >= reserve
  }

  /** `n` is `bytes` / 20 rounded up. */
  predicate IsTwentieth(bytes: nat, n: nat) { 20 * n >= bytes && (n > 0 ==> 20 * (n - 1) < bytes) }

  /** The checked arithmetic decides the limits on unbounded numbers: no overflow ever decides. */
  lemma ValidateExact(predicted: nat, artifacts: nat, capacity: Capacity, twentieth: nat)
    requires IsTwentieth(predicted, twentieth)
    ensures Validate(predicted, artifacts, capacity) <==>
              && predicted <= MAX_TRANSACTION_BYTES && artifacts <= MAX_TRANSACTION_ARTIFACTS
              && capacity.cached + predicted <= MAX_CACHE_BYTES
              && capacity.available >= predicted + twentieth
  {
    assert (predicted + 19) / 20 == twentieth;
  }

  /** `TransactionRequest::from_totals`. */
  predicate FromTotals(predicted: nat, artifacts: nat) { Validate(predicted, artifacts, Capacity(0, U64_MAX)) }

  lemma FromTotalsExact(predicted: nat, artifacts: nat)
    ensures FromTotals(predicted, artifacts) <==> predicted <= MAX_TRANSACTION_BYTES && artifacts <= MAX_TRANSACTION_ARTIFACTS
  {
    assert predicted <= MAX_TRANSACTION_BYTES ==> predicted + (predicted + 19) / 20 <= U64_MAX;
  }

  datatype Identity = Identity(digest: Text, size: nat)

  function SumSeq(identities: seq<Identity>): nat {
    if identities == [] then 0 else SumSeq(identities[..|identities| - 1]) + identities[|identities| - 1].size
  }

  lemma {:induction false} SumSeqPrefix(identities: seq<Identity>, n: nat)
    requires n <= |identities|
    ensures SumSeq(identities[..n]) <= SumSeq(identities)
  {
    if n < |identities| {
      SumSeqPrefix(identities[..|identities| - 1], n);
      assert identities[..|identities| - 1][..n] == identities[..n];
    } else {
      assert identities[..n] == identities;
    }
  }

  predicate Distinct(identities: seq<Identity>) {
    forall i, j :: 0 <= i < j < |identities| ==> identities[i] != identities[j]
  }

  /** `TransactionRequest::for_specs`. */
  method ForSpecs(specs: seq<Identity>) returns (ok: bool)
    ensures ok <==> Distinct(specs) && SumSeq(specs) <= MAX_TRANSACTION_BYTES && |specs| <= MAX_TRANSACTION_ARTIFACTS
  {
    var predicted := 0;
    for i := 0 to |specs|
      invariant predicted == SumSeq(specs[..i]) <= U64_MAX
    {
      assert specs[..i + 1][..i] == specs[..i];
      SumSeqPrefix(specs, i + 1);
      var sum := CheckedAdd(predicted, specs[i].size);
      if sum.None? { return false; }
      predicted := sum.value;
    }
    assert specs[..|specs|] == specs;
    FromTotalsExact(predicted, |specs|);
    ok := Distinct(specs) && FromTotals(predicted, |specs|);
  }

  // ---------------------------------------------------------------- verified streaming

  /** What a response body delivers, read by read: a failure, or bytes, of which none at all is the end. */
  type Reads = seq<Option<seq<Byte>>>

  /** The whole body, if it is delivered. */
  function Body(chunks: Reads): Option<seq<Byte>> {
    if chunks == [] then Some([])
    else match chunks[0]
      case None => None
      case Some(chunk) =>
        if chunk == [] then Some([])
        else match Body(chunks[1..])
          case None => None
          case Some(rest) => Some(chunk + rest)
  }

  /** What is delivered in all when this much has come and the rest is to come. */
  function After(output: seq<Byte>, rest: Option<seq<Byte>>): Option<seq<Byte>> {
    if rest.None? then None else Some(output + rest.value)
  }

  lemma AfterNothing(rest: Option<seq<Byte>>)
    ensures After([], rest) == rest
  {
    if rest.Some? {
      assert [] + rest.value == rest.value;
    }
  }

  lemma AfterChunk(output: seq<Byte>, chunk: seq<Byte>, later: Option<seq<Byte>>)
    ensures After(output, After(chunk, later)) == After(output + chunk, later)
  {
    if later.Some? {
      assert output + (chunk + later.value) == (output + chunk) + later.value;
    }
  }

  /** `stream_verified`: accepts exactly a delivered body of the declared size and hash, and never writes
      more than the declared size, however much is sent. */
  method StreamVerified(sha: Sha256, chunks: Reads, spec: Identity) returns (ok: bool, output: seq<Byte>)
    ensures ok <==> Body(chunks).Some? && |Body(chunks).value| == spec.size && sha(Body(chunks).value) == spec.digest
    ensures ok ==> output == Body(chunks).value
    ensures |output| <= spec.size
  {
    output := [];
    var i := 0;
    assert chunks[0..] == chunks;
    AfterNothing(Body(chunks));
    while i < |chunks|
      invariant 0 <= i <= |chunks| && |output| <= spec.size
      invariant Body(chunks) == After(output, Body(chunks[i..]))
      decreases |chunks| - i
    {
      assert chunks[i..][1..] == chunks[i + 1..];
      if chunks[i].None? { return false, output; }
      var chunk := chunks[i].value;
      if chunk == [] { break; }
      if |output| + |chunk| > spec.size { return false, output; }
      AfterChunk(output, chunk, Body(chunks[i + 1..]));
      output := output + chunk;
      i := i + 1;
    }
    assert output + [] == output;
    ok := |output| == spec.size && sha(output) == spec.digest;
  }

  // ---------------------------------------------------------------- stored bytes

  type Files = map<Text, seq<Byte>>

  /** All stored bytes. */
  ghost function Total(files: Files): nat {
    if files == map[] then 0
    else
      var k :| k in files;
      |files[k]| + Total(files - {k})
  }

  /** The order of counting does not matter. */
  lemma {:induction false} TotalWithout(files: Files, k: Text)
    requires k in files
    ensures Total(files) == |files[k]| + Total(files - {k})
    decreases |files|
  {
    var c :| c in files && Total(files) == |files[c]| + Total(files - {c});
    if c != k {
      assert |(files - {c}).Keys| < |files.Keys|;
      TotalWithout(files - {c}, k);
      TotalWithout(files - {k}, c);
      assert files - {c} - {k} == files - {k} - {c};
    }
  }

  lemma TotalWith(files: Files, k: Text, bytes: seq<Byte>)
    requires k !in files
    ensures Total(files[k := bytes]) == Total(files) + |bytes|
  {
    TotalWithout(files[k := bytes], k);
    assert files[k := bytes] - {k} == files;
  }

  /** `cached_bytes`: the sum, in whatever order the directory lists its files. */
  method CachedBytes(files: Files) returns (r: Option<nat>)
    ensures r == if Total(files) > U64_MAX then None else Some(Total(files))
  {
    var total: nat, left := 0, files;
    ghost var all := Total(files);
    ghost var rest := all;
    while left.Keys != {}
      invariant rest == Total(left) && total + rest == all && total <= U64_MAX
      decreases left.Keys
    {
      var name :| name in left.Keys;
      TotalWithout(left, name);
      var sum := CheckedAdd(total, |left[name]|);
      if sum.None? { return None; }
      rest := rest - |left[name]|;
      total, left := sum.value, left - {name};
    }
    assert left == map[];
    r := Some(total);
  }

  /** The stored file is the artifact. */
  predicate Holds(sha: Sha256, files: Files, i: Identity) {
    i.digest in files && |files[i.digest]| == i.size && sha(files[i.digest]) == i.digest
  }

  function Missing(files: Files, identities: seq<Identity>): nat {
    if identities == [] then 0
    else
      var last := identities[|identities| - 1];
      Missing(files, identities[..|identities| - 1]) + if last.digest in files then 0 else last.size
  }

  lemma {:induction false} MissingPrefix(files: Files, identities: seq<Identity>, n: nat)
    requires n <= |identities|
    ensures Missing(files, identities[..n]) <= Missing(files, identities)
  {
    if n < |identities| {
      MissingPrefix(files, identities[..|identities| - 1], n);
      assert identities[..|identities| - 1][..n] == identities[..n];
    } else {
      assert identities[..n] == identities;
    }
  }

  /** `missing_bytes`: refuses a present file that is not the artifact. */
  method MissingBytes(sha: Sha256, files: Files, identities: seq<Identity>) returns (r: Option<nat>)
    ensures r.Some? <==> Missing(files, identities) <= U64_MAX &&
                         forall i :: 0 <= i < |identities| && identities[i].digest in files ==> Holds(sha, files, identities[i])
    ensures r.Some? ==> r.value == Missing(files, identities)
  {
    var total := 0;
    for i := 0 to |identities|
      invariant total == Missing(files, identities[..i]) <= U64_MAX
      invariant forall j :: 0 <= j < i && identities[j].digest in files ==> Holds(sha, files, identities[j])
    {
      assert identities[..i + 1][..i] == identities[..i];
      MissingPrefix(files, identities, i + 1);
      if identities[i].digest in files {
        if !Holds(sha, files, identities[i]) { return None; }
      } else {
        var sum := CheckedAdd(total, identities[i].size);
        if sum.None? { return None; }
        total := sum.value;
      }
    }
    assert identities[..|identities|] == identities;
    r := Some(total);
  }

  // ---------------------------------------------------------------- outstanding bytes

  ghost function SumSet(s: set<Identity>): nat {
    if s == {} then 0
    else
      var i :| i in s;
      i.size + SumSet(s - {i})
  }

  lemma {:induction false} SumSetWithout(s: set<Identity>, i: Identity)
    requires i in s
    ensures SumSet(s) == i.size + SumSet(s - {i})
    decreases |s|
  {
    var c :| c in s && SumSet(s) == c.size + SumSet(s - {c});
    if c != i {
      SumSetWithout(s - {c}, i);
      SumSetWithout(s - {i}, c);
      assert s - {c} - {i} == s - {i} - {c};
    }
  }

  lemma {:induction false} SumSetMonotone(a: set<Identity>, b: set<Identity>)
    requires a <= b
    ensures SumSet(a) <= SumSet(b)
    decreases |b|
  {
    if a != b {
      var i :| i in b && i !in a;
      SumSetWithout(b, i);
      SumSetMonotone(a, b - {i});
    }
  }

  /** Identities whose digest is not stored. */
  function Outstanding(files: Files, identities: set<Identity>): set<Identity> {
    set i | i in identities && i.digest !in files
  }

  function Elements(identities: seq<Identity>): set<Identity> { set i | i in identities }

  /** What `missing_bytes` adds up is the size of the outstanding identities. */
  lemma {:induction false} MissingIsOutstanding(files: Files, identities: seq<Identity>)
    requires Distinct(identities)
    ensures Missing(files, identities) == SumSet(Outstanding(files, Elements(identities)))
  {
    if identities != [] {
      var n := |identities| - 1;
      var front, last := identities[..n], identities[n];
      MissingIsOutstanding(files, front);
      assert Elements(identities) == Elements(front) + {last};
      var all, most := Outstanding(files, Elements(identities)), Outstanding(files, Elements(front));
      if last.digest in files {
        assert all == most;
      } else {
        assert last !in front;
        assert all - {last} == most;
        SumSetWithout(all, last);
      }
    }
  }

  /** Storing an artifact pays for at least its own size. */
  lemma StoringPays(files: Files, identities: set<Identity>, i: Identity, bytes: seq<Byte>)
    requires i in identities && i.digest !in files && |bytes| == i.size
    ensures Total(files[i.digest := bytes]) + SumSet(Outstanding(files[i.digest := bytes], identities))
         <= Total(files) + SumSet(Outstanding(files, identities))
  {
    TotalWith(files, i.digest, bytes);
    var before, after := Outstanding(files, identities), Outstanding(files[i.digest := bytes], identities);
    SumSetWithout(before, i);
    SumSetMonotone(after, before - {i});
  }

  // ---------------------------------------------------------------- the transaction

  /** What the outside does during one fetch; false and None are failures. The directory itself is held
      by the transaction, but its path may be pointed elsewhere at any time. */
  datatype Trip = Trip(
    opens: bool, pathExisting: bool, status: Option<nat>, body: Reads, pathBefore: bool, creates: bool,
    syncs: bool, pathStreamed: bool, links: bool, pathLinked: bool, unlinks: bool, syncsDirectory: bool, reopens: bool)

  /** At most this artifact was added, under its own name and whole. */
  predicate StoredAtMost(sha: Sha256, before: Files, after: Files, i: Identity) {
    after == before || (i.digest !in before && Holds(sha, after, i) && after == before[i.digest := after[i.digest]])
  }

  predicate DistinctDigests(identities: seq<Identity>) {
    forall i, j :: 0 <= i < j < |identities| ==> identities[i].digest != identities[j].digest
  }

  /** During the `i`-th fetch nothing fails and the artifact, unless stored and intact, is sent. */
  predicate Delivered(sha: Sha256, files: Files, identities: seq<Identity>, trips: nat -> Trip) {
    forall i: nat :: i < |identities| ==> Smooth(trips(i)) && Available(sha, files, identities[i], trips(i))
  }

  /** Nothing outside fails. */
  predicate Smooth(t: Trip) {
    && t.opens && t.pathExisting && t.status == Some(200) && t.pathBefore && t.creates && t.syncs && t.pathStreamed
    && t.links && t.pathLinked && t.syncsDirectory && t.reopens
  }

  /** The artifact is stored already, or else it is what the server sends. */
  predicate Available(sha: Sha256, files: Files, i: Identity, t: Trip) {
    if i.digest in files then Holds(sha, files, i)
    else Body(t.body).Some? && |Body(t.body).value| == i.size && sha(Body(t.body).value) == i.digest
  }

  /** Only whole, correctly named artifacts were added. */
  predicate GrewBy(sha: Sha256, before: Files, after: Files, identities: set<Identity>) {
    && (forall d :: d in before ==> d in after && after[d] == before[d])
    && (forall d :: d in after && d !in before ==> sha(after[d]) == d && Identity(d, |after[d]|) in identities)
  }

  class ArtifactTransaction {
    const sha: Sha256
    var files: Files
    var remaining: set<Identity>
    /** The request, the directory it found and the bytes it reserved. */
    ghost const bound: set<Identity>
    ghost const initial: Files
    ghost const reserved: nat
    ghost var fetched: set<Identity>

    ghost predicate Valid()
      reads this
    {
      && fetched + remaining == bound && fetched !! remaining
      && (forall i :: i in fetched ==> Holds(sha, files, i))
      && GrewBy(sha, initial, files, bound)
      && Total(files) + SumSet(Outstanding(files, remaining)) <= Total(initial) + reserved
      && Total(initial) + reserved <= MAX_CACHE_BYTES
    }

    constructor (sha: Sha256, files: Files, identities: seq<Identity>)
      requires Distinct(identities) && Total(files) + Missing(files, identities) <= MAX_CACHE_BYTES
      ensures Valid() && this.sha == sha && this.files == files && remaining == Elements(identities) && fetched == {}
      ensures bound == Elements(identities) && initial == files && reserved == Missing(files, identities)
    {
      this.sha, this.files, remaining := sha, files, set i | i in identities;
      fetched, bound, initial, reserved := {}, Elements(identities), files, Missing(files, identities);
      MissingIsOutstanding(files, identities);
    }

    /** What every state of a transaction promises: the reservation and the cap hold, and stored hashes
        equal names wherever they did at the start. */
    lemma Bounded()
      requires Valid()
      ensures Total(initial) <= Total(files) <= Total(initial) + reserved && Total(files) <= MAX_CACHE_BYTES
      ensures (forall d :: d in initial ==> sha(initial[d]) == d) ==> forall d :: d in files ==> sha(files[d]) == d
    {
      TotalGrows(initial, files);
    }

    /** `PinnedDirectory::fetch`, with the directory before and after. */
    method Obtain(spec: Identity, trip: Trip) returns (ok: bool)
      requires Valid() && spec in remaining
      modifies this`files
      ensures Valid()
      ensures ok ==> Holds(sha, files, spec)
      ensures Smooth(trip) && Available(sha, old(files), spec, trip) ==> ok
      ensures StoredAtMost(sha, old(files), files, spec)
    {
      if spec.digest in files && trip.opens {
        return Holds(sha, files, spec) && trip.pathExisting;
      }
      if trip.status != Some(200) || !trip.pathBefore || !trip.creates { return false; }
      var streamed, bytes := StreamVerified(sha, trip.body, spec);
      if !streamed || !trip.syncs || !trip.pathStreamed { return false; }
      if spec.digest in files {
        return trip.reopens && Holds(sha, files, spec) && trip.pathLinked;
      }
      if !trip.links { return false; }
      StoringPays(files, remaining, spec, bytes);
      if !trip.pathLinked && trip.unlinks { return false; }
      files := files[spec.digest := bytes];
      ok := trip.pathLinked && trip.syncsDirectory && trip.reopens;
    }

    /** `ArtifactTransaction::fetch`: a pending identity leaves the remaining ones exactly when its artifact
        is in the store. */
    method Fetch(spec: Identity, trip: Trip) returns (ok: bool)
      requires Valid()
      modifies this`files, this`remaining, this`fetched
      ensures Valid()
      ensures ok ==> spec in old(remaining) && Holds(sha, files, spec) && remaining == old(remaining) - {spec}
      ensures !ok ==> remaining == old(remaining) && fetched == old(fetched)
      ensures spec in old(remaining) && Smooth(trip) && Available(sha, old(files), spec, trip) ==> ok
      ensures spec !in old(remaining) ==> !ok && files == old(files)
      ensures ok ==> fetched == old(fetched) + {spec}
      ensures StoredAtMost(sha, old(files), files, spec)
    {
      if spec !in remaining { return false; }
      ok := Obtain(spec, trip);
      if ok {
        assert Outstanding(files, remaining - {spec}) == Outstanding(files, remaining);
        remaining, fetched := remaining - {spec}, fetched + {spec};
      }
    }

    method FetchNext(specs: seq<Identity>, i: nat, trip: Trip) returns (ok: bool)
      requires Valid() && i < |specs| && Distinct(specs) && Progress(specs, i, fetched, remaining)
      modifies this`files, this`remaining, this`fetched
      ensures Valid() && StoredAtMost(sha, old(files), files, specs[i])
      ensures if ok then Progress(specs, i + 1, fetched, remaining) else specs[i] in remaining
      ensures Smooth(trip) && Available(sha, old(files), specs[i], trip) ==> ok
    {
      SplitOff(specs, i);
      ok := Fetch(specs[i], trip);
    }

    /** Fetches every artifact of the request, giving up at the first failure, and asks whether the transaction
        drained. It never does if two identities share a digest, whatever is sent; and if none do it does,
        provided that everything is delivered. */
    method FetchAll(specs: seq<Identity>, trips: nat -> Trip) returns (drained: bool)
      requires Valid() && fetched == {} && remaining == Elements(specs) && Distinct(specs)
      modifies this`files, this`remaining, this`fetched
      ensures Valid() && (drained <==> remaining == {})
      ensures drained ==> DistinctDigests(specs) && forall i :: 0 <= i < |specs| ==> Holds(sha, files, specs[i])
      ensures DistinctDigests(specs) && Delivered(sha, old(files), specs, trips) ==> drained
    {
      for i := 0 to |specs|
        invariant Valid() && Progress(specs, i, fetched, remaining)
        invariant DistinctDigests(specs) ==> RestKept(old(files), files, specs, i)
      {
        ghost var before := files;
        if Delivered(sha, old(files), specs, trips) && DistinctDigests(specs) {
          StillAvailable(sha, old(files), files, specs, trips, i);
        }
        var ok := FetchNext(specs, i, trips(i));
        if !ok {
          return false;
        }
        if DistinctDigests(specs) { RestStillKept(sha, old(files), before, files, specs, i); }
      }
      drained := remaining == {};
      assert specs[..|specs|] == specs && specs[|specs|..] == [] && Elements([]) == {};
      AllHeld(sha, files, specs);
    }
  }

  /** The first `i` identities are fetched and the others remain. */
  predicate Progress(specs: seq<Identity>, i: nat, fetched: set<Identity>, remaining: set<Identity>)
    requires i <= |specs|
  {
    fetched == Elements(specs[..i]) && remaining == Elements(specs[i..])
  }

  /** The files of the identities from the `i`-th on are as they were. */
  predicate RestKept(before: Files, after: Files, specs: seq<Identity>, i: nat) {
    forall j :: i <= j < |specs| ==> SameFile(before, after, specs[j].digest)
  }

  lemma RestStillKept(sha: Sha256, first: Files, before: Files, after: Files, specs: seq<Identity>, i: nat)
    requires DistinctDigests(specs) && i < |specs| && RestKept(first, before, specs, i)
    requires StoredAtMost(sha, before, after, specs[i])
    ensures RestKept(first, after, specs, i + 1)
  {
  }

  /** The name stands for the same, in both or in neither. */
  predicate SameFile(a: Files, b: Files, d: Text) { (d in a <==> d in b) && (d in a ==> a[d] == b[d]) }

  /** Moving the next identity from the pending to the fetched ones. */
  lemma SplitOff(specs: seq<Identity>, i: nat)
    requires i < |specs| && Distinct(specs)
    ensures specs[i] in Elements(specs[i..])
    ensures Elements(specs[i..]) - {specs[i]} == Elements(specs[i + 1..])
    ensures Elements(specs[..i]) + {specs[i]} == Elements(specs[..i + 1])
  {
    assert specs[i..] == [specs[i]] + specs[i + 1..];
    assert specs[..i + 1] == specs[..i] + [specs[i]];
  }

  /** When all of them are stored no two of them share a digest: the file has one size. */
  lemma AllHeld(sha: Sha256, files: Files, specs: seq<Identity>)
    requires Distinct(specs) && forall s :: s in Elements(specs) ==> Holds(sha, files, s)
    ensures DistinctDigests(specs) && forall i :: 0 <= i < |specs| ==> Holds(sha, files, specs[i])
  {
    forall i, j | 0 <= i < j < |specs| ensures specs[i].digest != specs[j].digest {
      assert specs[i] in Elements(specs) && specs[j] in Elements(specs);
    }
    forall i | 0 <= i < |specs| ensures Holds(sha, files, specs[i]) {
      assert specs[i] in Elements(specs);
    }
  }

  lemma StillAvailable(sha: Sha256, before: Files, files: Files, specs: seq<Identity>, trips: nat -> Trip, i: nat)
    requires Delivered(sha, before, specs, trips) && i < |specs| && SameFile(before, files, specs[i].digest)
    ensures Smooth(trips(i)) && Available(sha, files, specs[i], trips(i))
  {
  }

  lemma {:induction false} TotalGrows(before: Files, after: Files)
    requires forall d :: d in before ==> d in after && after[d] == before[d]
    ensures Total(before) <= Total(after)
    decreases |after|
  {
    if before != after {
      var d :| d in after && d !in before;
      TotalWithout(after, d);
      assert |(after - {d}).Keys| < |after.Keys|;
      TotalGrows(before, after - {d});
    }
  }

  /** `begin_transaction`, holding the directory: it starts exactly when every present artifact is intact
      and what is missing fits the limits, the cache cap and the free space with its reserve. */
  method Begin(sha: Sha256, files: Files, identities: seq<Identity>, available: nat)
    returns (r: Option<ArtifactTransaction>)
    requires Distinct(identities)
    ensures r.Some? ==> fresh(r.value) && r.value.Valid() && r.value.files == files && r.value.sha == sha &&
                        r.value.remaining == r.value.bound == Elements(identities) && r.value.fetched == {} &&
                        r.value.initial == files && r.value.reserved == Missing(files, identities)
    ensures r.Some? <==> Startable(sha, files, identities, available)
  {
    if identities == [] { return None; }
    var missing := MissingBytes(sha, files, identities);
    if missing.None? { return None; }
    FromTotalsExact(missing.value, |identities|);
    if !FromTotals(missing.value, |identities|) { return None; }
    var cached := CachedBytes(files);
    if cached.None? { return None; }
    ValidateExact(missing.value, |identities|, Capacity(cached.value, available), (missing.value + 19) / 20);
    if !Validate(missing.value, |identities|, Capacity(cached.value, available)) { return None; }
    var transaction := new ArtifactTransaction(sha, files, identities);
    r := Some(transaction);
  }

  /** What the daemon does with the artifacts of a plan: request, transaction, fetches, and the check that
      the transaction drained. When everything is delivered and fits, it succeeds exactly if no two
      artifacts share a digest, which can be told before the request is made. */
  method StageArtifacts(sha: Sha256, files: Files, specs: seq<Identity>, available: nat, trips: nat -> Trip)
    returns (ok: bool)
    ensures specs == [] ==> ok
    ensures ok ==> DistinctDigests(specs)
    ensures FitsRequest(sha, files, specs, available) && Delivered(sha, files, specs, trips) ==> (ok <==> DistinctDigests(specs))
  {
    if specs == [] { return true; }
    var requested := ForSpecs(specs);
    if !requested { return false; }
    var transaction := Begin(sha, files, specs, available);
    if transaction.None? { return false; }
    ok := transaction.value.FetchAll(specs, trips);
  }

  /** The request is accepted and the transaction starts. */
  ghost predicate FitsRequest(sha: Sha256, files: Files, specs: seq<Identity>, available: nat) {
    && Distinct(specs) && SumSeq(specs) <= MAX_TRANSACTION_BYTES && |specs| <= MAX_TRANSACTION_ARTIFACTS
    && Startable(sha, files, specs, available)
  }

  ghost predicate Startable(sha: Sha256, files: Files, identities: seq<Identity>, available: nat) {
    && identities != []
    && (forall i :: 0 <= i < |identities| && identities[i].digest in files ==> Holds(sha, files, identities[i]))
    && Missing(files, identities) <= MAX_TRANSACTION_BYTES && |identities| <= MAX_TRANSACTION_ARTIFACTS
    && Total(files) + Missing(files, identities) <= MAX_CACHE_BYTES
    && available >= Missing(files, identities) + (Missing(files, identities) + 19) / 20
  }

  /** A concrete request that is accepted and starts on an empty cache, and never drains whatever is sent: one
      digest under two sizes. */
  method AcceptedButNeverDrains(sha: Sha256, digest: Text, trips: nat -> Trip) returns (accepted: bool, started: bool, drained: bool)
    ensures accepted && started && !drained
  {
    var specs := [Identity(digest, 1), Identity(digest, 2)];
    var one := [Identity(digest, 1)];
    assert specs[..1] == one && one[..0] == [];
    assert SumSeq(one) == 1 && Missing(map[], one) == 1;
    assert SumSeq(specs) == 3 && Missing(map[], specs) == 3;
    accepted := ForSpecs(specs);
    var transaction := Begin(sha, map[], specs, 4);
    started := transaction.Some?;
    drained := transaction.value.FetchAll(specs, trips);
  }

  /** Of two identities that share a digest but not a size at most one is ever fetched. */
  lemma SharedDigestFetchedOnce(t: ArtifactTransaction, a: Identity, b: Identity)
    requires t.Valid() && a in t.fetched && b in t.fetched && a.digest == b.digest
    ensures a == b
  {
  }
}
