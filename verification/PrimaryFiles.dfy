/** The sorted fixed-width projection of primary files: its encoder
    (crates/dnfast-cache/src/publication.rs) and its validator (crates/dnfast-cache/src/loading.rs). */
module PrimaryFiles {
  import opened Bytes

  const RECORD_SIZE := 36

  datatype Record = Record(path: seq<Byte>, ordinal: nat)

  /** A 32-byte path digest and a 32-bit ordinal. */
  predicate IsRecord(r: Record) { |r.path| == 32 && r.ordinal < 0x1_0000_0000 }

  predicate AreRecords(rs: seq<Record>) { forall i :: 0 <= i < |rs| ==> IsRecord(rs[i]) }

  predicate OrdinalsBelow(rs: seq<Record>, count: nat) { forall i :: 0 <= i < |rs| ==> rs[i].ordinal < count }

  /** The sort key: path digest, then ordinal. */
  function CompareRecord(a: Record, b: Record): Ordering {
    if CompareBytes(a.path, b.path) != Equal then CompareBytes(a.path, b.path)
    else CompareInt(a.ordinal, b.ordinal)
  }

  function RecordBytes(r: Record): seq<Byte> { r.path + BigEndian(r.ordinal, 4) }

  function Flatten(rs: seq<Record>): seq<Byte> {
    if rs == [] then [] else RecordBytes(rs[0]) + Flatten(rs[1..])
  }

  // ---------------------------------------------------------------- sort and dedup

  function Insert(r: Record, rs: seq<Record>): (s: seq<Record>)
    ensures |s| == |rs| + 1
  {
    if rs == [] || CompareRecord(r, rs[0]) != Greater then [r] + rs else [rs[0]] + Insert(r, rs[1..])
  }

  /** `sort_unstable_by_key`. */
  function Sort(rs: seq<Record>): (s: seq<Record>)
    ensures |s| == |rs|
  {
    if rs == [] then [] else Insert(rs[0], Sort(rs[1..]))
  }

  /** `dedup`: runs of equal neighbours keep their first element. */
  function Dedup(rs: seq<Record>): (s: seq<Record>)
    ensures |s| <= |rs|
  {
    if |rs| <= 1 then rs
    else if rs[0] == rs[1] then Dedup(rs[1..])
    else [rs[0]] + Dedup(rs[1..])
  }

  function Canonical(rs: seq<Record>): seq<Record> { Dedup(Sort(rs)) }

  predicate Ascending(rs: seq<Record>) {
    forall i, j :: 0 <= i < j < |rs| ==> CompareRecord(rs[i], rs[j]) != Greater
  }

  predicate StrictlyAscending(rs: seq<Record>) {
    forall i, j :: 0 <= i < j < |rs| ==> CompareRecord(rs[i], rs[j]) == Less
  }

  function Elements(rs: seq<Record>): set<Record> { set i | 0 <= i < |rs| :: rs[i] }

  lemma CompareRecordLaws(a: Record, b: Record, c: Record)
    ensures CompareRecord(a, b) == Equal <==> a == b
    ensures CompareRecord(b, a) == CompareRecord(a, b).Reversed()
    ensures CompareRecord(a, b) != Greater && CompareRecord(b, c) != Greater ==>
              CompareRecord(a, c) != Greater &&
              (CompareRecord(a, b) == Less || CompareRecord(b, c) == Less ==> CompareRecord(a, c) == Less)
  {
    CompareBytesEqual(a.path, b.path);
    CompareBytesEqual(b.path, c.path);
    CompareBytesReversed(a.path, b.path);
    if CompareRecord(a, b) != Greater && CompareRecord(b, c) != Greater {
      CompareBytesTransitive(a.path, b.path, c.path);
    }
  }

  /** Big-endian fixed-width records compare as byte strings exactly as their keys compare. */
  lemma RecordBytesOrder(a: Record, b: Record)
    requires IsRecord(a) && IsRecord(b)
    ensures CompareBytes(RecordBytes(a), RecordBytes(b)) == CompareRecord(a, b)
  {
    Pow256Values();
    CompareBytesConcat(a.path, b.path, BigEndian(a.ordinal, 4), BigEndian(b.ordinal, 4));
    BigEndianOrder(a.ordinal, b.ordinal, 4);
  }

  lemma {:induction false} InsertSorts(r: Record, rs: seq<Record>)
    requires Ascending(rs)
    ensures Ascending(Insert(r, rs)) && Elements(Insert(r, rs)) == Elements(rs) + {r}
  {
    var s := Insert(r, rs);
    if rs == [] || CompareRecord(r, rs[0]) != Greater {
      forall i | 0 <= i < |rs| ensures CompareRecord(r, rs[i]) != Greater {
        CompareRecordLaws(r, rs[0], rs[i]);
      }
      assert s == [r] + rs;
      ElementsOfCons(r, rs);
    } else {
      var rest := rs[1..];
      InsertSorts(r, rest);
      var t := Insert(r, rest);
      assert s == [rs[0]] + t;
      CompareRecordLaws(r, rs[0], r);
      forall j | 0 <= j < |t| ensures CompareRecord(rs[0], t[j]) != Greater {
        assert t[j] in Elements(t);
        assert t[j] in Elements(rest) || t[j] == r;
      }
      ElementsOfCons(rs[0], t);
      ElementsOfCons(rs[0], rest);
      assert rs == [rs[0]] + rest;
    }
  }

  lemma ElementsOfCons(r: Record, rs: seq<Record>)
    ensures Elements([r] + rs) == {r} + Elements(rs)
  {
    var s := [r] + rs;
    assert forall i :: 0 <= i < |rs| ==> s[i + 1] == rs[i];
    assert s[0] == r;
  }

  lemma {:induction false} SortSorts(rs: seq<Record>)
    ensures Ascending(Sort(rs)) && Elements(Sort(rs)) == Elements(rs)
  {
    if rs != [] {
      SortSorts(rs[1..]);
      InsertSorts(rs[0], Sort(rs[1..]));
      ElementsOfCons(rs[0], rs[1..]);
      assert rs == [rs[0]] + rs[1..];
    }
  }

  lemma {:induction false} DedupStrict(rs: seq<Record>)
    requires Ascending(rs)
    ensures StrictlyAscending(Dedup(rs)) && Elements(Dedup(rs)) == Elements(rs)
  {
    if |rs| > 1 {
      var rest := rs[1..];
      DedupStrict(rest);
      ElementsOfCons(rs[0], rest);
      assert rs == [rs[0]] + rest;
      var d := Dedup(rest);
      if rs[0] == rs[1] {
        assert rs[0] == rest[0] && rest[0] in Elements(rest);
      } else {
        ElementsOfCons(rs[0], d);
        forall j | 0 <= j < |d| ensures CompareRecord(rs[0], d[j]) == Less {
          assert d[j] in Elements(d);
          var k :| 0 <= k < |rest| && rest[k] == d[j];
          CompareRecordLaws(rs[0], rs[1], rest[k]);
          assert k > 0 ==> CompareRecord(rest[0], rest[k]) != Greater;
        }
      }
    }
  }

  /** What `encode_primary_files` writes depends on the set of records alone. */
  lemma CanonicalSpec(rs: seq<Record>)
    ensures StrictlyAscending(Canonical(rs)) && Elements(Canonical(rs)) == Elements(rs)
  {
    SortSorts(rs);
    DedupStrict(Sort(rs));
  }

  lemma ElementsEmpty(rs: seq<Record>)
    ensures Elements(rs) == {} <==> rs == []
  {
    if rs != [] {
      assert rs[0] in Elements(rs);
    }
  }

  /** A set has one strictly ascending listing. */
  lemma {:induction false} StrictListingUnique(a: seq<Record>, b: seq<Record>)
    requires StrictlyAscending(a) && StrictlyAscending(b) && Elements(a) == Elements(b)
    ensures a == b
  {
    ElementsEmpty(a);
    ElementsEmpty(b);
    if a != [] {
      FirstIsLeast(a, b);
      ElementsOfRest(a);
      ElementsOfRest(b);
      StrictListingUnique(a[1..], b[1..]);
      assert a == [a[0]] + a[1..] && b == [b[0]] + b[1..];
    }
  }

  lemma FirstIsLeast(a: seq<Record>, b: seq<Record>)
    requires StrictlyAscending(a) && StrictlyAscending(b) && Elements(a) == Elements(b) && a != [] && b != []
    ensures a[0] == b[0]
  {
    assert a[0] in Elements(b) && b[0] in Elements(a);
    var i :| 0 <= i < |b| && b[i] == a[0];
    var j :| 0 <= j < |a| && a[j] == b[0];
    CompareRecordLaws(a[0], b[0], a[0]);
  }

  lemma ElementsOfRest(a: seq<Record>)
    requires StrictlyAscending(a) && a != []
    ensures Elements(a[1..]) == Elements(a) - {a[0]}
  {
    ElementsOfCons(a[0], a[1..]);
    assert a == [a[0]] + a[1..];
    CompareRecordLaws(a[0], a[0], a[0]);
  }

  // ---------------------------------------------------------------- encoder and validator

  /** `encode_primary_files`. */
  method EncodePrimaryFiles(records: seq<Record>) returns (bytes: seq<Byte>)
    ensures bytes == Flatten(Canonical(records))
  {
    var sorted := Sort(records);
    var unique := Dedup(sorted);
    bytes := [];
    for i := 0 to |unique|
      invariant bytes + Flatten(unique[i..]) == Flatten(unique)
    {
      assert unique[i..][1..] == unique[i + 1..];
      assert bytes + (RecordBytes(unique[i]) + Flatten(unique[i + 1..])) ==
             (bytes + RecordBytes(unique[i])) + Flatten(unique[i + 1..]);
      bytes := bytes + RecordBytes(unique[i]);
    }
    assert bytes + [] == bytes;
  }

  /** The records a byte string denotes, read 36 bytes at a time. */
  function Parse(bytes: seq<Byte>): seq<Record>
    requires |bytes| % RECORD_SIZE == 0
  {
    if bytes == [] then []
    else [Record(bytes[..32], FromBigEndian(bytes[32..36]))] + Parse(bytes[36..])
  }

  lemma {:induction false} ParseFlatten(bytes: seq<Byte>)
    requires |bytes| % RECORD_SIZE == 0
    ensures AreRecords(Parse(bytes)) && Flatten(Parse(bytes)) == bytes
    ensures |Parse(bytes)| * RECORD_SIZE == |bytes|
  {
    if bytes != [] {
      var first, rest := Record(bytes[..32], FromBigEndian(bytes[32..36])), Parse(bytes[36..]);
      ParseFlatten(bytes[36..]);
      Pow256Values();
      FromBigEndianRoundTrip(bytes[32..36]);
      assert RecordBytes(first) == bytes[..36];
      assert Parse(bytes) == [first] + rest && ([first] + rest)[1..] == rest;
      assert bytes == bytes[..36] + bytes[36..];
    }
  }

  lemma {:induction false} FlattenParse(rs: seq<Record>)
    requires AreRecords(rs)
    ensures |Flatten(rs)| == |rs| * RECORD_SIZE && Parse(Flatten(rs)) == rs
  {
    if rs != [] {
      FlattenParse(rs[1..]);
      Pow256Values();
      BigEndianRoundTrip(rs[0].ordinal, 4);
      var bytes := Flatten(rs);
      assert bytes[..32] == rs[0].path && bytes[32..36] == BigEndian(rs[0].ordinal, 4) && bytes[36..] == Flatten(rs[1..]);
      assert rs == [rs[0]] + rs[1..];
    }
  }

  /** What the validator's pass over the records checks. */
  predicate Accepts(bytes: seq<Byte>, count: nat) {
    |bytes| % RECORD_SIZE == 0 &&
    OrdinalsBelow(Parse(bytes), count) &&
    forall i :: 0 < i < |Parse(bytes)| ==> CompareRecord(Parse(bytes)[i - 1], Parse(bytes)[i]) == Less
  }

  /** `validate_primary_files`: one pass comparing each raw 36-byte record with the previous one. */
  method ValidatePrimaryFiles(bytes: seq<Byte>, count: nat) returns (ok: bool)
    ensures ok == Accepts(bytes, count)
  {
    if |bytes| % RECORD_SIZE != 0 {
      return false;
    }
    ParseFlatten(bytes);
    ghost var rs := Parse(bytes);
    var previous: Option<seq<Byte>> := None;
    for i := 0 to |bytes| / RECORD_SIZE
      invariant forall j :: 0 <= j < i ==> rs[j].ordinal < count
      invariant forall j :: 0 < j < i ==> CompareRecord(rs[j - 1], rs[j]) == Less
      invariant if i == 0 then previous.None? else previous == Some(RecordBytes(rs[i - 1]))
    {
      var record := bytes[RECORD_SIZE * i..RECORD_SIZE * i + RECORD_SIZE];
      RecordAt(rs, i);
      var ordinal := FromBigEndian(record[32..]);
      if i > 0 {
        RecordBytesOrder(rs[i - 1], rs[i]);
      }
      if ordinal >= count || (previous.Some? && CompareBytes(previous.value, record) != Less) {
        return false;
      }
      previous := Some(record);
    }
    return true;
  }

  lemma {:induction false} RecordAt(rs: seq<Record>, i: nat)
    requires AreRecords(rs) && i < |rs|
    ensures |Flatten(rs)| == |rs| * RECORD_SIZE
    ensures Flatten(rs)[RECORD_SIZE * i..RECORD_SIZE * i + RECORD_SIZE] == RecordBytes(rs[i])
    ensures FromBigEndian(RecordBytes(rs[i])[32..]) == rs[i].ordinal
  {
    FlattenParse(rs);
    if i == 0 {
      Pow256Values();
      BigEndianRoundTrip(rs[0].ordinal, 4);
      assert RecordBytes(rs[0])[32..] == BigEndian(rs[0].ordinal, 4);
    } else {
      RecordAt(rs[1..], i - 1);
      var tail := Flatten(rs[1..]);
      assert Flatten(rs)[RECORD_SIZE * i..RECORD_SIZE * i + RECORD_SIZE] ==
             tail[RECORD_SIZE * (i - 1)..RECORD_SIZE * (i - 1) + RECORD_SIZE];
    }
  }

  /** Neighbours in order are in order throughout. */
  lemma {:induction false} NeighboursSuffice(rs: seq<Record>, i: nat, j: nat)
    requires forall k :: 0 < k < |rs| ==> CompareRecord(rs[k - 1], rs[k]) == Less
    requires i < j < |rs|
    ensures CompareRecord(rs[i], rs[j]) == Less
  {
    if i + 1 < j {
      NeighboursSuffice(rs, i, j - 1);
      CompareRecordLaws(rs[i], rs[j - 1], rs[j]);
    }
  }

  /** The validator accepts exactly the encoder's outputs over record lists below the package count. */
  lemma AcceptsExactlyEncodings(bytes: seq<Byte>, count: nat)
    ensures Accepts(bytes, count) <==>
            exists rs :: AreRecords(rs) && OrdinalsBelow(rs, count) && Flatten(Canonical(rs)) == bytes
  {
    if Accepts(bytes, count) {
      var rs := Parse(bytes);
      ParseFlatten(bytes);
      forall i, j | 0 <= i < j < |rs| ensures CompareRecord(rs[i], rs[j]) == Less {
        NeighboursSuffice(rs, i, j);
      }
      CanonicalSpec(rs);
      StrictListingUnique(Canonical(rs), rs);
    }
    if rs :| AreRecords(rs) && OrdinalsBelow(rs, count) && Flatten(Canonical(rs)) == bytes {
      EncodingAccepted(rs, count);
    }
  }

  lemma EncodingAccepted(rs: seq<Record>, count: nat)
    requires AreRecords(rs) && OrdinalsBelow(rs, count)
    ensures Accepts(Flatten(Canonical(rs)), count)
  {
    CanonicalSpec(rs);
    var c := Canonical(rs);
    forall i | 0 <= i < |c| ensures IsRecord(c[i]) && c[i].ordinal < count {
      assert c[i] in Elements(c);
      var k :| 0 <= k < |rs| && rs[k] == c[i];
    }
    FlattenParse(c);
  }
}
