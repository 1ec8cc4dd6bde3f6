/** The digest inputs that bind staged repositories to a plan (crates/dnfast-executor/src/root_inputs.rs).

    `MetadataDigest` and `TrustDigest` feed a hasher in loops. The theorems say that the byte strings
    they feed determine the repositories, although optional files leave no mark when absent. */
module RootInputs {
  import opened Bytes
  import opened Framing

  datatype InputFile = InputFile(name: seq<Byte>, sha256: seq<Byte>, size: nat)

  datatype InputRepository = InputRepository(
    id: seq<Byte>,
    priority: int,
    cost: int,
    generation: seq<Byte>,
    origin: seq<Byte>,
    trust: seq<Byte>,
    repomd: InputFile,
    primary: InputFile,
    filelists: InputFile,
    fileProvides: Option<InputFile>,
    group: Option<InputFile>,
    modules: Option<InputFile>,
    updateinfo: Option<InputFile>)

  // ---------------------------------------------------------------- validators

  /** `validate_digest`: 64 lower-case hexadecimal digits. */
  predicate IsDigest(text: seq<Byte>) {
    |text| == 64 && forall i :: 0 <= i < 64 ==> 48 <= text[i] <= 57 || 97 <= text[i] <= 102
  }

  /** `validate_repository_id`: letters, digits, `_`, `.` and `-`, at least one. */
  predicate IsRepositoryId(text: seq<Byte>) {
    text != [] && Fits(text) &&
    forall i :: 0 <= i < |text| ==>
      48 <= text[i] <= 57 || 65 <= text[i] <= 90 || 97 <= text[i] <= 122 || text[i] in {95, 46, 45}
  }

  predicate IsFile(file: InputFile) { IsDigest(file.sha256) && IsU64(file.size) }

  predicate IsOptionalFile(file: Option<InputFile>) { file.Some? ==> IsFile(file.value) }

  /** What `validate_manifest_shape` and `validate_repositories` establish for one repository. */
  predicate IsRepository(r: InputRepository, version: nat) {
    && IsRepositoryId(r.id) && IsI32(r.priority) && IsI32(r.cost)
    && IsDigest(r.generation) && r.generation == r.repomd.sha256
    && IsDigest(r.origin) && IsDigest(r.trust)
    && IsFile(r.repomd) && IsFile(r.primary) && IsFile(r.filelists)
    && IsOptionalFile(r.fileProvides) && IsOptionalFile(r.group)
    && IsOptionalFile(r.modules) && IsOptionalFile(r.updateinfo)
    && (version == 3 ==> r.fileProvides.None? && r.group.None? && r.modules.None?)
    && (version <= 4 ==> r.updateinfo.None?)
  }

  predicate AreRepositories(rs: seq<InputRepository>, version: nat) {
    forall i :: 0 <= i < |rs| ==> IsRepository(rs[i], version)
  }

  // ---------------------------------------------------------------- the bytes fed

  function Header(version: nat): seq<Byte> {
    if version == 5 then Ascii("dnfast-root-metadata-v5")
    else if version == 4 then Ascii("dnfast-root-metadata-v4")
    else Ascii("dnfast-root-metadata-v3")
  }

  function Field(text: seq<Byte>): seq<Byte> { Frame(text, text) }

  function FilesThen(files: seq<InputFile>, rest: seq<Byte>): seq<Byte> {
    if files == [] then rest
    else Field(files[0].sha256) + (U64(files[0].size) + FilesThen(files[1..], rest))
  }

  function OptionalFiles(file: Option<InputFile>): seq<InputFile> {
    if file.None? then [] else [file.value]
  }

  /** The optional files of a schema version, each under its role. */
  function Optionals(r: InputRepository, version: nat): seq<(seq<Byte>, Option<InputFile>)> {
    (if version >= 4 then
       [(Ascii("file-provides"), r.fileProvides), (Ascii("group"), r.group), (Ascii("modules"), r.modules)]
     else [])
    + (if version >= 5 then [(Ascii("updateinfo"), r.updateinfo)] else [])
  }

  function OptionalsThen(list: seq<(seq<Byte>, Option<InputFile>)>, rest: seq<Byte>): seq<Byte> {
    if list == [] then rest
    else Field(list[0].0) + FilesThen(OptionalFiles(list[0].1), OptionalsThen(list[1..], rest))
  }

  function RepositoryThen(r: InputRepository, version: nat, rest: seq<Byte>): seq<Byte> {
    Field(r.id) + (I32(r.priority) + (I32(r.cost) +
    (Field(r.generation) + (Field(r.origin) + (Field(r.trust) +
    FilesThen([r.repomd, r.primary, r.filelists], OptionalsThen(Optionals(r, version), rest)))))))
  }

  function Body(rs: seq<InputRepository>, version: nat): seq<Byte> {
    if rs == [] then [] else RepositoryThen(rs[0], version, Body(rs[1..], version))
  }

  function MetadataBytes(rs: seq<InputRepository>, version: nat): seq<Byte> {
    Header(version) + Body(rs, version)
  }

  function TrustBody(rs: seq<InputRepository>): seq<Byte> {
    if rs == [] then [] else Field(rs[0].id) + (Field(rs[0].trust) + TrustBody(rs[1..]))
  }

  function TrustBytes(rs: seq<InputRepository>): seq<Byte> {
    Ascii("dnfast-root-trust-v3") + TrustBody(rs)
  }

  // ---------------------------------------------------------------- the program's loops

  method FeedFiles(hasher: Hasher, files: seq<InputFile>, ghost rest: seq<Byte>)
    modifies hasher
    ensures hasher.fed + rest == old(hasher.fed) + FilesThen(files, rest)
  {
    for i := 0 to |files|
      invariant hasher.fed + FilesThen(files[i..], rest) == old(hasher.fed) + FilesThen(files, rest)
    {
      ghost var tail := FilesThen(files[i + 1..], rest);
      assert files[i..][1..] == files[i + 1..];
      hasher.UpdateFrame(files[i].sha256, files[i].sha256, U64(files[i].size) + tail);
      hasher.Update(U64(files[i].size), tail);
    }
  }

  method FeedOptionals(hasher: Hasher, list: seq<(seq<Byte>, Option<InputFile>)>, ghost rest: seq<Byte>)
    modifies hasher
    ensures hasher.fed + rest == old(hasher.fed) + OptionalsThen(list, rest)
  {
    for i := 0 to |list|
      invariant hasher.fed + OptionalsThen(list[i..], rest) == old(hasher.fed) + OptionalsThen(list, rest)
    {
      ghost var tail := OptionalsThen(list[i + 1..], rest);
      assert list[i..][1..] == list[i + 1..];
      hasher.UpdateFrame(list[i].0, list[i].0, FilesThen(OptionalFiles(list[i].1), tail));
      FeedFiles(hasher, OptionalFiles(list[i].1), tail);
    }
  }

  method FeedRepository(hasher: Hasher, r: InputRepository, version: nat, ghost rest: seq<Byte>)
    modifies hasher
    ensures hasher.fed + rest == old(hasher.fed) + RepositoryThen(r, version, rest)
  {
    ghost var g := OptionalsThen(Optionals(r, version), rest);
    ghost var f := FilesThen([r.repomd, r.primary, r.filelists], g);
    ghost var e := Field(r.trust) + f;
    ghost var d := Field(r.origin) + e;
    ghost var c := Field(r.generation) + d;
    ghost var b := I32(r.cost) + c;
    hasher.UpdateFrame(r.id, r.id, I32(r.priority) + b);
    hasher.Update(I32(r.priority), b);
    hasher.Update(I32(r.cost), c);
    hasher.UpdateFrame(r.generation, r.generation, d);
    hasher.UpdateFrame(r.origin, r.origin, e);
    hasher.UpdateFrame(r.trust, r.trust, f);
    FeedFiles(hasher, [r.repomd, r.primary, r.filelists], g);
    FeedOptionals(hasher, Optionals(r, version), rest);
  }

  /** `metadata_digest`: the hash of exactly `MetadataBytes`. */
  method MetadataDigest<Digest>(sha256: seq<Byte> -> Digest, rs: seq<InputRepository>, version: nat)
    returns (digest: Digest)
    ensures digest == sha256(MetadataBytes(rs, version))
  {
    var hasher := new Hasher();
    hasher.Update(Header(version), Body(rs, version));
    assert hasher.fed == Header(version);
    for i := 0 to |rs|
      invariant hasher.fed + Body(rs[i..], version) == MetadataBytes(rs, version)
    {
      assert rs[i..][1..] == rs[i + 1..];
      FeedRepository(hasher, rs[i], version, Body(rs[i + 1..], version));
    }
    assert hasher.fed + [] == hasher.fed;
    return sha256(hasher.fed);
  }

  /** `trust_digest`: the hash of exactly `TrustBytes`. */
  method TrustDigest<Digest>(sha256: seq<Byte> -> Digest, rs: seq<InputRepository>) returns (digest: Digest)
    ensures digest == sha256(TrustBytes(rs))
  {
    var hasher := new Hasher();
    hasher.Update(Ascii("dnfast-root-trust-v3"), TrustBody(rs));
    assert hasher.fed == Ascii("dnfast-root-trust-v3");
    for i := 0 to |rs|
      invariant hasher.fed + TrustBody(rs[i..]) == TrustBytes(rs)
    {
      assert rs[i..][1..] == rs[i + 1..];
      ghost var tail := TrustBody(rs[i + 1..]);
      hasher.UpdateFrame(rs[i].id, rs[i].id, Field(rs[i].trust) + tail);
      hasher.UpdateFrame(rs[i].trust, rs[i].trust, tail);
    }
    assert hasher.fed + [] == hasher.fed;
    return sha256(hasher.fed);
  }

  // ---------------------------------------------------------------- unique readability

  /** Equal in everything the digest covers; file names are outside it. */
  predicate SameFile(a: InputFile, b: InputFile) { a.sha256 == b.sha256 && a.size == b.size }

  predicate SameOptional(a: Option<InputFile>, b: Option<InputFile>) {
    a.Some? == b.Some? && (a.Some? ==> SameFile(a.value, b.value))
  }

  predicate SameRepository(a: InputRepository, b: InputRepository) {
    && a.id == b.id && a.priority == b.priority && a.cost == b.cost
    && a.generation == b.generation && a.origin == b.origin && a.trust == b.trust
    && SameFile(a.repomd, b.repomd) && SameFile(a.primary, b.primary) && SameFile(a.filelists, b.filelists)
    && SameOptional(a.fileProvides, b.fileProvides) && SameOptional(a.group, b.group)
    && SameOptional(a.modules, b.modules) && SameOptional(a.updateinfo, b.updateinfo)
  }

  predicate SameRepositories(rs: seq<InputRepository>, ts: seq<InputRepository>) {
    |rs| == |ts| && forall i :: 0 <= i < |rs| ==> SameRepository(rs[i], ts[i])
  }

  lemma FieldPeel(a: seq<Byte>, b: seq<Byte>, x: seq<Byte>, y: seq<Byte>)
    requires Fits(a) && Fits(b) && Field(a) + x == Field(b) + y
    ensures a == b && x == y
  {
    FramePeel(a, a, b, b, x, y);
  }

  lemma FilePeel(a: InputFile, b: InputFile, x: seq<Byte>, y: seq<Byte>)
    requires IsFile(a) && IsFile(b)
    requires Field(a.sha256) + (U64(a.size) + x) == Field(b.sha256) + (U64(b.size) + y)
    ensures SameFile(a, b) && x == y
  {
    FieldPeel(a.sha256, b.sha256, U64(a.size) + x, U64(b.size) + y);
    FixedPeel(U64(a.size), U64(b.size), x, y);
    U64Injective(a.size, b.size);
  }

  lemma {:induction false} FilesPeel(a: seq<InputFile>, b: seq<InputFile>, x: seq<Byte>, y: seq<Byte>)
    requires |a| == |b|
    requires forall i :: 0 <= i < |a| ==> IsFile(a[i]) && IsFile(b[i])
    requires FilesThen(a, x) == FilesThen(b, y)
    ensures x == y && forall i :: 0 <= i < |a| ==> SameFile(a[i], b[i])
  {
    if a != [] {
      FilePeel(a[0], b[0], FilesThen(a[1..], x), FilesThen(b[1..], y));
      FilesPeel(a[1..], b[1..], x, y);
    }
  }

  /** Where a digest digit is due, a length starts with a zero byte. */
  lemma LengthIsNotDigest(numbers: seq<Byte>, a: seq<Byte>, x: seq<Byte>, b: seq<Byte>, y: seq<Byte>)
    requires |numbers| == 8 && IsDigest(a) && IsDigest(b)
    ensures numbers + (Field(a) + x) != Field(b) + y
  {
    SmallStartsWithZero(64, 8);
    assert (numbers + (Field(a) + x))[8] == U64(64)[0] == 0;
    assert (Field(b) + y)[8] == b[0];
  }

  /** Everything of a repository after its id, priority and cost. */
  function AfterNumbers(r: InputRepository, version: nat, rest: seq<Byte>): seq<Byte> {
    Field(r.generation) + (Field(r.origin) + (Field(r.trust) +
    FilesThen([r.repomd, r.primary, r.filelists], OptionalsThen(Optionals(r, version), rest))))
  }

  lemma RepositoryHead(r: InputRepository, version: nat, rest: seq<Byte>)
    ensures RepositoryThen(r, version, rest) ==
            Field(r.id) + ((I32(r.priority) + I32(r.cost)) + AfterNumbers(r, version, rest))
  {
    var after := AfterNumbers(r, version, rest);
    assert I32(r.priority) + (I32(r.cost) + after) == (I32(r.priority) + I32(r.cost)) + after;
  }

  /** The hard case. A present last file cannot be mistaken for the next repository, even one whose
      id is 64 hexadecimal digits: two frames on, a length byte would have to be a digest digit. */
  lemma FileIsNotRepository(file: InputFile, rs: seq<InputRepository>, ts: seq<InputRepository>, version: nat)
    requires IsFile(file) && AreRepositories(rs, version) && AreRepositories(ts, version)
    ensures Field(file.sha256) + (U64(file.size) + Body(rs, version)) != Body(ts, version)
  {
    var x := Body(rs, version);
    if Field(file.sha256) + (U64(file.size) + x) == Body(ts, version) {
      var t, trest := ts[0], Body(ts[1..], version);
      var z := AfterNumbers(t, version, trest);
      RepositoryHead(t, version, trest);
      FieldPeel(file.sha256, t.id, U64(file.size) + x, (I32(t.priority) + I32(t.cost)) + z);
      FixedPeel(U64(file.size), I32(t.priority) + I32(t.cost), x, z);
      var r, rrest := rs[0], Body(rs[1..], version);
      RepositoryHead(r, version, rrest);
      IdIsNotGeneration(r, rrest, t, trest, version);
    }
  }

  lemma IdIsNotGeneration(r: InputRepository, x: seq<Byte>, t: InputRepository, y: seq<Byte>, version: nat)
    requires IsRepository(r, version) && IsRepository(t, version)
    ensures RepositoryThen(r, version, x) != AfterNumbers(t, version, y)
  {
    RepositoryHead(r, version, x);
    var numbers := I32(r.priority) + I32(r.cost);
    var tail := Field(t.trust) + FilesThen([t.repomd, t.primary, t.filelists], OptionalsThen(Optionals(t, version), y));
    LengthIsNotDigest(numbers, r.generation,
                      Field(r.origin) + (Field(r.trust) +
                      FilesThen([r.repomd, r.primary, r.filelists], OptionalsThen(Optionals(r, version), x))),
                      t.origin, tail);
    if RepositoryThen(r, version, x) == AfterNumbers(t, version, y) {
      FieldPeel(r.id, t.generation, numbers + AfterNumbers(r, version, x), Field(t.origin) + tail);
    }
  }

  lemma OptionalPeel(f: Option<InputFile>, g: Option<InputFile>, x: seq<Byte>, y: seq<Byte>)
    requires IsOptionalFile(f) && IsOptionalFile(g)
    requires FilesThen(OptionalFiles(f), x) == FilesThen(OptionalFiles(g), y)
    requires f.Some? == g.Some?
    ensures SameOptional(f, g) && x == y
  {
    FilesPeel(OptionalFiles(f), OptionalFiles(g), x, y);
  }

  /** A present file cannot be mistaken for the role name that follows an absent one. */
  lemma FileIsNotRole(file: InputFile, x: seq<Byte>, role: seq<Byte>, y: seq<Byte>)
    requires IsFile(file) && |role| < 64
    ensures Field(file.sha256) + (U64(file.size) + x) != Field(role) + y
  {
    if Field(file.sha256) + (U64(file.size) + x) == Field(role) + y {
      FieldPeel(file.sha256, role, U64(file.size) + x, y);
    }
  }

  predicate AreOptionals(list: seq<(seq<Byte>, Option<InputFile>)>) {
    forall i :: 0 <= i < |list| ==> |list[i].0| < 64 && IsOptionalFile(list[i].1)
  }

  lemma {:induction false} OptionalsPeel(
      a: seq<(seq<Byte>, Option<InputFile>)>, b: seq<(seq<Byte>, Option<InputFile>)>,
      rs: seq<InputRepository>, ts: seq<InputRepository>, version: nat)
    requires AreOptionals(a) && AreOptionals(b)
    requires |a| == |b| && forall i :: 0 <= i < |a| ==> a[i].0 == b[i].0
    requires AreRepositories(rs, version) && AreRepositories(ts, version)
    requires OptionalsThen(a, Body(rs, version)) == OptionalsThen(b, Body(ts, version))
    ensures Body(rs, version) == Body(ts, version)
    ensures forall i :: 0 <= i < |a| ==> SameOptional(a[i].1, b[i].1)
  {
    if a != [] {
      var f, g := a[0].1, b[0].1;
      var x, y := OptionalsThen(a[1..], Body(rs, version)), OptionalsThen(b[1..], Body(ts, version));
      FieldPeel(a[0].0, b[0].0, FilesThen(OptionalFiles(f), x), FilesThen(OptionalFiles(g), y));
      if f.Some? != g.Some? {
        if f.Some? {
          PresentIsNotAbsent(f.value, a[1..], b[1..], rs, ts, version);
        } else {
          PresentIsNotAbsent(g.value, b[1..], a[1..], ts, rs, version);
        }
      }
      OptionalPeel(f, g, x, y);
      OptionalsPeel(a[1..], b[1..], rs, ts, version);
    }
  }

  lemma PresentIsNotAbsent(
      file: InputFile, a: seq<(seq<Byte>, Option<InputFile>)>, b: seq<(seq<Byte>, Option<InputFile>)>,
      rs: seq<InputRepository>, ts: seq<InputRepository>, version: nat)
    requires IsFile(file) && AreOptionals(b) && |a| == |b|
    requires AreRepositories(rs, version) && AreRepositories(ts, version)
    ensures FilesThen([file], OptionalsThen(a, Body(rs, version))) != OptionalsThen(b, Body(ts, version))
  {
    assert [file][1..] == [];
    if b == [] {
      assert a == [];
      FileIsNotRepository(file, rs, ts, version);
    } else {
      FileIsNotRole(file, OptionalsThen(a, Body(rs, version)), b[0].0,
                    FilesThen(OptionalFiles(b[0].1), OptionalsThen(b[1..], Body(ts, version))));
    }
  }

  lemma RepositoryFieldsPeel(r: InputRepository, t: InputRepository, x: seq<Byte>, y: seq<Byte>, version: nat)
    requires IsRepository(r, version) && IsRepository(t, version)
    requires RepositoryThen(r, version, x) == RepositoryThen(t, version, y)
    ensures r.id == t.id && r.priority == t.priority && r.cost == t.cost
    ensures r.generation == t.generation && r.origin == t.origin && r.trust == t.trust
    ensures FilesThen([r.repomd, r.primary, r.filelists], OptionalsThen(Optionals(r, version), x)) ==
            FilesThen([t.repomd, t.primary, t.filelists], OptionalsThen(Optionals(t, version), y))
  {
    var r5 := FilesThen([r.repomd, r.primary, r.filelists], OptionalsThen(Optionals(r, version), x));
    var t5 := FilesThen([t.repomd, t.primary, t.filelists], OptionalsThen(Optionals(t, version), y));
    var r4, t4 := Field(r.trust) + r5, Field(t.trust) + t5;
    var r3, t3 := Field(r.origin) + r4, Field(t.origin) + t4;
    var r2, t2 := Field(r.generation) + r3, Field(t.generation) + t3;
    FieldPeel(r.id, t.id, I32(r.priority) + (I32(r.cost) + r2), I32(t.priority) + (I32(t.cost) + t2));
    FixedPeel(I32(r.priority), I32(t.priority), I32(r.cost) + r2, I32(t.cost) + t2);
    FixedPeel(I32(r.cost), I32(t.cost), r2, t2);
    I32Injective(r.priority, t.priority);
    I32Injective(r.cost, t.cost);
    FieldPeel(r.generation, t.generation, r3, t3);
    FieldPeel(r.origin, t.origin, r4, t4);
    FieldPeel(r.trust, t.trust, r5, t5);
  }

  lemma RepositoryPeel(r: InputRepository, t: InputRepository, rs: seq<InputRepository>,
                       ts: seq<InputRepository>, version: nat)
    requires 3 <= version <= 5
    requires IsRepository(r, version) && IsRepository(t, version)
    requires AreRepositories(rs, version) && AreRepositories(ts, version)
    requires RepositoryThen(r, version, Body(rs, version)) == RepositoryThen(t, version, Body(ts, version))
    ensures SameRepository(r, t) && Body(rs, version) == Body(ts, version)
  {
    RepositoryFieldsPeel(r, t, Body(rs, version), Body(ts, version), version);
    var a, b := Optionals(r, version), Optionals(t, version);
    MandatoryFilesPeel(r, t, OptionalsThen(a, Body(rs, version)), OptionalsThen(b, Body(ts, version)), version);
    OptionalsShape(r, t, version);
    OptionalsPeel(a, b, rs, ts, version);
    OptionalsDecide(r, t, version);
  }

  lemma MandatoryFilesPeel(r: InputRepository, t: InputRepository, x: seq<Byte>, y: seq<Byte>, version: nat)
    requires IsRepository(r, version) && IsRepository(t, version)
    requires FilesThen([r.repomd, r.primary, r.filelists], x) == FilesThen([t.repomd, t.primary, t.filelists], y)
    ensures SameFile(r.repomd, t.repomd) && SameFile(r.primary, t.primary) && SameFile(r.filelists, t.filelists)
    ensures x == y
  {
    var rf, tf := [r.repomd, r.primary, r.filelists], [t.repomd, t.primary, t.filelists];
    FilesPeel(rf, tf, x, y);
    assert SameFile(rf[0], tf[0]) && SameFile(rf[1], tf[1]) && SameFile(rf[2], tf[2]);
  }

  lemma OptionalsShape(r: InputRepository, t: InputRepository, version: nat)
    requires IsRepository(r, version) && IsRepository(t, version)
    ensures var a, b := Optionals(r, version), Optionals(t, version);
            AreOptionals(a) && AreOptionals(b) && |a| == |b| && forall i :: 0 <= i < |a| ==> a[i].0 == b[i].0
  {
  }

  lemma OptionalsDecide(r: InputRepository, t: InputRepository, version: nat)
    requires 3 <= version <= 5 && IsRepository(r, version) && IsRepository(t, version)
    requires var a, b := Optionals(r, version), Optionals(t, version);
             |a| == |b| && forall i :: 0 <= i < |a| ==> SameOptional(a[i].1, b[i].1)
    ensures SameOptional(r.fileProvides, t.fileProvides) && SameOptional(r.group, t.group)
    ensures SameOptional(r.modules, t.modules) && SameOptional(r.updateinfo, t.updateinfo)
  {
    var a, b := Optionals(r, version), Optionals(t, version);
    if version >= 4 {
      assert SameOptional(a[0].1, b[0].1) && SameOptional(a[1].1, b[1].1) && SameOptional(a[2].1, b[2].1);
    }
    if version >= 5 {
      assert SameOptional(a[3].1, b[3].1);
    }
  }

  lemma {:induction false} BodyInjective(rs: seq<InputRepository>, ts: seq<InputRepository>, version: nat)
    requires 3 <= version <= 5
    requires AreRepositories(rs, version) && AreRepositories(ts, version)
    requires Body(rs, version) == Body(ts, version)
    ensures SameRepositories(rs, ts)
  {
    if rs != [] && ts != [] {
      RepositoryPeel(rs[0], ts[0], rs[1..], ts[1..], version);
      BodyInjective(rs[1..], ts[1..], version);
      assert forall i :: 0 < i < |rs| ==> rs[i] == rs[1..][i - 1] && ts[i] == ts[1..][i - 1];
    }
  }

  lemma HeaderPeel(v: nat, w: nat, x: seq<Byte>, y: seq<Byte>)
    requires 3 <= v <= 5 && 3 <= w <= 5
    requires Header(v) + x == Header(w) + y
    ensures v == w && x == y
  {
    FixedPeel(Header(v), Header(w), x, y);
    assert Header(v)[22] == 48 + v && Header(w)[22] == 48 + w;
  }

  /** The bytes behind the metadata digest determine the schema version and every repository. */
  lemma MetadataBytesInjective(rs: seq<InputRepository>, v: nat, ts: seq<InputRepository>, w: nat)
    requires 3 <= v <= 5 && 3 <= w <= 5
    requires AreRepositories(rs, v) && AreRepositories(ts, w)
    requires MetadataBytes(rs, v) == MetadataBytes(ts, w)
    ensures v == w && SameRepositories(rs, ts)
  {
    HeaderPeel(v, w, Body(rs, v), Body(ts, w));
    BodyInjective(rs, ts, v);
  }

  /** The bytes behind the trust digest determine the repositories and their trust policies. */
  lemma {:induction false} TrustBodyInjective(rs: seq<InputRepository>, ts: seq<InputRepository>)
    requires forall r :: r in rs || r in ts ==> Fits(r.id) && Fits(r.trust)
    requires TrustBody(rs) == TrustBody(ts)
    ensures |rs| == |ts|
    ensures forall i :: 0 <= i < |rs| ==> rs[i].id == ts[i].id && rs[i].trust == ts[i].trust
  {
    if rs != [] && ts != [] {
      FieldPeel(rs[0].id, ts[0].id, Field(rs[0].trust) + TrustBody(rs[1..]), Field(ts[0].trust) + TrustBody(ts[1..]));
      FieldPeel(rs[0].trust, ts[0].trust, TrustBody(rs[1..]), TrustBody(ts[1..]));
      TrustBodyInjective(rs[1..], ts[1..]);
      assert forall i :: 0 < i < |rs| ==> rs[i] == rs[1..][i - 1] && ts[i] == ts[1..][i - 1];
    }
  }

  lemma TrustBytesInjective(rs: seq<InputRepository>, ts: seq<InputRepository>)
    requires forall r :: r in rs || r in ts ==> Fits(r.id) && Fits(r.trust)
    requires TrustBytes(rs) == TrustBytes(ts)
    ensures |rs| == |ts|
    ensures forall i :: 0 <= i < |rs| ==> rs[i].id == ts[i].id && rs[i].trust == ts[i].trust
  {
    FixedPeel(Ascii("dnfast-root-trust-v3"), Ascii("dnfast-root-trust-v3"), TrustBody(rs), TrustBody(ts));
    TrustBodyInjective(rs, ts);
  }
}
