/** OpenPGP packet walking (native/src/keyring_identity.c), after sections 4.2 and 5.2.3.1 of RFC 4880:
    where the walkers step is exactly where an encoder would have put the packets. */
module OpenPgp {
  import opened Bytes

  const SIGNATURE: nat := 2
  const PUBLIC_SUBKEY: nat := 14
  const ISSUER_FINGERPRINT: nat := 33

  // ---------------------------------------------------------------- packets

  /** The accepted length formats: three new ones and three old ones. Partial and indeterminate lengths
      are not among them. */
  datatype Format = NewOne | NewTwo | NewFive | OldOne | OldTwo | OldFour

  datatype Packet = Packet(format: Format, tag: nat, body: seq<Byte>)

  /** The format can express this tag and this body length. */
  predicate Expressible(format: Format, tag: nat, size: nat) {
    match format
    case NewOne => tag < 64 && size < 192
    case NewTwo => tag < 64 && 192 <= size < 8384
    case NewFive => tag < 64 && size < 0x1_0000_0000
    case OldOne => tag < 16 && size < 0x100
    case OldTwo => tag < 16 && size < 0x1_0000
    case OldFour => tag < 16 && size < 0x1_0000_0000
  }

  predicate Encodable(p: Packet) { Expressible(p.format, p.tag, |p.body|) }

  function Header(format: Format, tag: nat, size: nat): (r: seq<Byte>)
    requires Expressible(format, tag, size)
    ensures 2 <= |r| <= 6
  {
    match format
    case NewOne => [0xC0 + tag, size]
    case NewTwo => [0xC0 + tag, 192 + (size - 192) / 256, (size - 192) % 256]
    case NewFive => [0xC0 + tag, 255] + BigEndian(size, 4)
    case OldOne => [0x80 + tag * 4, size]
    case OldTwo => [0x80 + tag * 4 + 1, size / 256, size % 256]
    case OldFour => [0x80 + tag * 4 + 2] + BigEndian(size, 4)
  }

  function Encode(p: Packet): (r: seq<Byte>)
    requires Encodable(p)
    ensures |r| >= 2
  {
    Header(p.format, p.tag, |p.body|) + p.body
  }

  datatype Span = Span(format: Format, tag: nat, header: nat, body: nat)

  /** The header `packet_span` reads at the start of `data`, before its length check. */
  function ReadHeader(data: seq<Byte>): Option<Span> {
    if |data| < 2 || data[0] < 0x80 then None
    else if data[0] / 0x40 % 2 == 1 then
      var tag := data[0] % 0x40;
      if data[1] < 192 then Some(Span(NewOne, tag, 2, data[1]))
      else if data[1] < 224 && |data| >= 3 then Some(Span(NewTwo, tag, 3, (data[1] as int - 192) * 256 + data[2] as int + 192))
      else if data[1] == 255 && |data| >= 6 then Some(Span(NewFive, tag, 6, FromBigEndian(data[2..6])))
      else None
    else
      var tag, kind := data[0] / 4 % 16, data[0] % 4;
      if kind == 0 then Some(Span(OldOne, tag, 2, data[1]))
      else if kind == 1 && |data| >= 3 then Some(Span(OldTwo, tag, 3, data[1] as int * 256 + data[2] as int))
      else if kind == 2 && |data| >= 5 then Some(Span(OldFour, tag, 5, FromBigEndian(data[1..5])))
      else None
  }

  /** `packet_span`: a packet that is all there. It always makes progress and never reaches past the end. */
  function PacketSpan(data: seq<Byte>): (r: Option<Span>)
    ensures r.Some? ==> r.value.header >= 2 && r.value.header + r.value.body <= |data|
  {
    match ReadHeader(data)
    case None => None
    case Some(s) => if s.body > |data| - s.header then None else Some(s)
  }

  lemma FourBytes(b: seq<Byte>)
    requires |b| == 4
    ensures FromBigEndian(b) < 0x1_0000_0000 && BigEndian(FromBigEndian(b), 4) == b
  {
    Pow256Values();
    FromBigEndianRoundTrip(b);
  }

  lemma FourByteNumber(n: nat)
    requires n < 0x1_0000_0000
    ensures FromBigEndian(BigEndian(n, 4)) == n
  {
    Pow256Values();
    BigEndianRoundTrip(n, 4);
  }

  /** Whatever follows a header, it is read back. */
  lemma HeaderRead(format: Format, tag: nat, size: nat, rest: seq<Byte>)
    requires Expressible(format, tag, size)
    ensures ReadHeader(Header(format, tag, size) + rest) == Some(Span(format, tag, |Header(format, tag, size)|, size))
  {
    var header := Header(format, tag, size);
    var data := header + rest;
    assert data[0] == header[0] && data[1] == header[1];
    match format
    case NewFive =>
      assert data[2..6] == BigEndian(size, 4);
      FourByteNumber(size);
    case OldFour =>
      assert data[1..5] == BigEndian(size, 4);
      FourByteNumber(size);
    case _ =>
  }

  lemma NewHeaderWasWritten(data: seq<Byte>)
    requires ReadHeader(data).Some? && data[0] / 0x40 % 2 == 1
    ensures var s := ReadHeader(data).value;
            Expressible(s.format, s.tag, s.body) && s.header <= |data| &&
            data[..s.header] == Header(s.format, s.tag, s.body)
  {
    var s := ReadHeader(data).value;
    assert data[0] == 0xC0 + s.tag;
    if s.format.NewFive? {
      FourBytes(data[2..6]);
      assert data[..6] == [data[0], data[1]] + data[2..6];
    } else if s.format.NewTwo? {
      assert (s.body - 192) / 256 == data[1] - 192 && (s.body - 192) % 256 == data[2];
      assert data[..3] == [data[0], data[1], data[2]];
    } else {
      assert data[..2] == [data[0], data[1]];
    }
  }

  lemma OldHeaderWasWritten(data: seq<Byte>)
    requires ReadHeader(data).Some? && data[0] / 0x40 % 2 == 0
    ensures var s := ReadHeader(data).value;
            Expressible(s.format, s.tag, s.body) && s.header <= |data| &&
            data[..s.header] == Header(s.format, s.tag, s.body)
  {
    var s := ReadHeader(data).value;
    assert data[0] == 0x80 + s.tag * 4 + data[0] % 4;
    if s.format.OldFour? {
      FourBytes(data[1..5]);
      assert data[..5] == [data[0]] + data[1..5];
    } else if s.format.OldTwo? {
      assert s.body / 256 == data[1] && s.body % 256 == data[2];
      assert data[..3] == [data[0], data[1], data[2]];
    } else {
      assert data[..2] == [data[0], data[1]];
    }
  }

  /** And whatever was read as a header is the header an encoder writes. */
  lemma HeaderWasWritten(data: seq<Byte>)
    requires ReadHeader(data).Some?
    ensures var s := ReadHeader(data).value;
            Expressible(s.format, s.tag, s.body) && s.header <= |data| &&
            data[..s.header] == Header(s.format, s.tag, s.body)
  {
    if data[0] / 0x40 % 2 == 1 {
      NewHeaderWasWritten(data);
    } else {
      OldHeaderWasWritten(data);
    }
  }

  function PacketAt(data: seq<Byte>): Packet
    requires PacketSpan(data).Some?
  {
    var s := PacketSpan(data).value;
    Packet(s.format, s.tag, data[s.header..s.header + s.body])
  }

  lemma Joined(data: seq<Byte>, header: nat, body: nat)
    requires header + body <= |data|
    ensures data[..header] + data[header..header + body] == data[..header + body]
  {
  }

  /** `packet_span` accepts exactly the byte strings that start with an encoded packet. */
  lemma SpanIsEncoding(data: seq<Byte>)
    requires PacketSpan(data).Some?
    ensures var s := PacketSpan(data).value; var p := PacketAt(data);
            Encodable(p) && Encode(p) == data[..s.header + s.body]
  {
    HeaderWasWritten(data);
    var s := PacketSpan(data).value;
    Joined(data, s.header, s.body);
  }

  lemma EncodingIsSpan(p: Packet, rest: seq<Byte>)
    requires Encodable(p)
    ensures var data := Encode(p) + rest;
            PacketSpan(data).Some? && PacketAt(data) == p &&
            PacketSpan(data).value.header + PacketSpan(data).value.body == |Encode(p)|
  {
    var header := Header(p.format, p.tag, |p.body|);
    HeaderRead(p.format, p.tag, |p.body|, p.body + rest);
    assert Encode(p) + rest == header + (p.body + rest);
    assert (header + (p.body + rest))[|header|..|header| + |p.body|] == p.body;
  }

  // ---------------------------------------------------------------- walking

  /** Reads one item and its size at the start of the data. */
  type Reader<T> = seq<Byte> -> Option<(T, nat)>

  /** Never past the end, and always forward. */
  ghost predicate Advances<T(!new)>(next: Reader<T>) {
    forall d :: next(d).Some? ==> 0 < next(d).value.1 <= |d|
  }

  /** The items a walker visits. */
  function Visits<T(!new)>(next: Reader<T>, data: seq<Byte>): seq<T>
    requires Advances(next)
    decreases |data|
  {
    match next(data)
    case None => []
    case Some((item, size)) => [item] + Visits(next, data[size..])
  }

  /** What is left where the walker has to stop. */
  function Leaves<T(!new)>(next: Reader<T>, data: seq<Byte>): seq<Byte>
    requires Advances(next)
    decreases |data|
  {
    match next(data)
    case None => data
    case Some((_, size)) => Leaves(next, data[size..])
  }

  function Concat<T>(encode: T -> seq<Byte>, items: seq<T>): seq<Byte> {
    if items == [] then [] else encode(items[0]) + Concat(encode, items[1..])
  }

  /** Whatever the reader accepts starts with the encoding of the item it gives. */
  ghost predicate ReadsEncodings<T(!new)>(next: Reader<T>, encode: T -> seq<Byte>, encodable: T -> bool) {
    forall d :: next(d).Some? ==>
      var (t, n) := next(d).value; encodable(t) && n <= |d| && encode(t) == d[..n]
  }

  /** Whatever follows an encoded item, the reader gives that item. */
  ghost predicate AcceptsEncodings<T(!new)>(next: Reader<T>, encode: T -> seq<Byte>, encodable: T -> bool) {
    forall t, rest :: encodable(t) ==> next(encode(t) + rest) == Some((t, |encode(t)|))
  }

  predicate AllEncodable<T>(encodable: T -> bool, items: seq<T>) {
    forall i :: 0 <= i < |items| ==> encodable(items[i])
  }

  /** The visited items are the encoded ones the data start with, and none starts at the rest. */
  lemma {:induction false} WalkReads<T(!new)>(next: Reader<T>, encode: T -> seq<Byte>, encodable: T -> bool, data: seq<Byte>)
    requires Advances(next) && ReadsEncodings(next, encode, encodable)
    ensures AllEncodable(encodable, Visits(next, data)) && next(Leaves(next, data)).None?
    ensures data == Concat(encode, Visits(next, data)) + Leaves(next, data)
    decreases |data|
  {
    if next(data).Some? {
      var (t, n) := next(data).value;
      WalkReads(next, encode, encodable, data[n..]);
      ConcatStep(encode, t, Visits(next, data[n..]));
      Rejoined(data, n, Concat(encode, Visits(next, data[n..])), Leaves(next, data[n..]));
    }
  }

  lemma ConcatStep<T>(encode: T -> seq<Byte>, t: T, items: seq<T>)
    ensures Concat(encode, [t] + items) == encode(t) + Concat(encode, items)
  {
    assert ([t] + items)[1..] == items;
  }

  lemma Rejoined(data: seq<Byte>, n: nat, middle: seq<Byte>, rest: seq<Byte>)
    requires n <= |data| && data[n..] == middle + rest
    ensures data == (data[..n] + middle) + rest
  {
    assert data == data[..n] + data[n..];
  }

  /** On a concatenation of encoded items the walker visits exactly those and nothing is left. */
  lemma {:induction false} WalkVisitsExactly<T(!new)>(next: Reader<T>, encode: T -> seq<Byte>, encodable: T -> bool, items: seq<T>)
    requires Advances(next) && AcceptsEncodings(next, encode, encodable) && AllEncodable(encodable, items)
    ensures Visits(next, Concat(encode, items)) == items && Leaves(next, Concat(encode, items)) == []
  {
    if items != [] {
      var tail := Concat(encode, items[1..]);
      WalkVisitsExactly(next, encode, encodable, items[1..]);
      assert next(encode(items[0]) + tail) == Some((items[0], |encode(items[0])|));
      assert (encode(items[0]) + tail)[|encode(items[0])|..] == tail;
      assert items == [items[0]] + items[1..];
    }
  }

  // ---------------------------------------------------------------- walking packets

  function NextPacket(data: seq<Byte>): (r: Option<(Packet, nat)>)
    ensures r.Some? ==> 0 < r.value.1 <= |data|
  {
    match PacketSpan(data)
    case None => None
    case Some(s) => Some((Packet(s.format, s.tag, data[s.header..s.header + s.body]), s.header + s.body))
  }

  predicate EncodablePacket(p: Packet) { Encodable(p) }

  function EncodePacket(p: Packet): seq<Byte> { if Encodable(p) then Encode(p) else [] }

  /** `packet_span` inverts the encodings of section 4.2, and accepts nothing else. */
  lemma PacketsInvert()
    ensures Advances(NextPacket) && ReadsEncodings(NextPacket, EncodePacket, EncodablePacket)
    ensures AcceptsEncodings(NextPacket, EncodePacket, EncodablePacket)
  {
    forall d | NextPacket(d).Some?
      ensures EncodablePacket(NextPacket(d).value.0) && EncodePacket(NextPacket(d).value.0) == d[..NextPacket(d).value.1]
    {
      SpanIsEncoding(d);
    }
    forall p, rest | EncodablePacket(p)
      ensures NextPacket(EncodePacket(p) + rest) == Some((p, |EncodePacket(p)|))
    {
      EncodingIsSpan(p, rest);
    }
  }

  /** On any concatenation of packets in the accepted formats the walker visits exactly those packets. */
  lemma PacketsVisitedExactly(packets: seq<Packet>)
    requires AllEncodable(EncodablePacket, packets)
    ensures Advances(NextPacket)
    ensures Visits(NextPacket, Concat(EncodePacket, packets)) == packets && Leaves(NextPacket, Concat(EncodePacket, packets)) == []
  {
    PacketsInvert();
    WalkVisitsExactly(NextPacket, EncodePacket, EncodablePacket, packets);
  }

  // ---------------------------------------------------------------- the fingerprint of a subkey

  type Sha1 = seq<Byte> -> seq<Byte>

  function HexDigit(n: nat): char
    requires n < 16
  {
    "0123456789ABCDEF"[n]
  }

  /** `hex_upper`. */
  function HexUpper(bytes: seq<Byte>): (r: string)
    ensures |r| == 2 * |bytes|
  {
    if bytes == [] then []
    else HexUpper(bytes[..|bytes| - 1]) + [HexDigit(bytes[|bytes| - 1] / 16), HexDigit(bytes[|bytes| - 1] % 16)]
  }

  function UpperCase(text: string): (r: string)
    ensures |r| == |text|
  {
    seq(|text|, i requires 0 <= i < |text| => if 'a' <= text[i] <= 'z' then text[i] - 'a' + 'A' else text[i])
  }

  /** `v4_fingerprint`: the hash of a version 4 key body behind its two-byte length. */
  function Fingerprint(sha1: Sha1, body: seq<Byte>): Option<seq<Byte>> {
    if |body| > 65535 || body == [] || body[0] != 4 then None
    else Some(sha1([0x99, |body| / 256, |body| % 256] + body))
  }

  /** The fingerprint of a subkey packet whose key id, the last eight bytes, is the wanted one. */
  function SubkeyMatch(sha1: Sha1, p: Packet, keyId: string): Option<string> {
    if p.tag != PUBLIC_SUBKEY then None
    else match Fingerprint(sha1, p.body)
      case None => None
      case Some(f) =>
        if |f| == 20 && UpperCase(HexUpper(f[12..])) == UpperCase(keyId) then Some(HexUpper(f)) else None
  }

  /** The first match, if any. */
  function FirstMatch<T>(wanted: T -> Option<string>, items: seq<T>): Option<string> {
    if items == [] then None
    else if wanted(items[0]).Some? then wanted(items[0])
    else FirstMatch(wanted, items[1..])
  }

  /** Nothing is found only if nothing matches, and nothing before what is found matches. */
  lemma {:induction false} FirstMatchExact<T>(wanted: T -> Option<string>, items: seq<T>) returns (i: nat)
    ensures i <= |items| && forall j :: 0 <= j < i ==> wanted(items[j]).None?
    ensures if i == |items| then FirstMatch(wanted, items).None?
            else FirstMatch(wanted, items).Some? && FirstMatch(wanted, items) == wanted(items[i])
  {
    if items == [] || wanted(items[0]).Some? {
      i := 0;
    } else {
      i := FirstMatchExact(wanted, items[1..]);
      i := i + 1;
    }
  }

  lemma WalkStep<T(!new)>(next: Reader<T>, data: seq<Byte>, offset: nat)
    requires Advances(next) && offset <= |data|
    ensures next(data[offset..]).None? ==>
              Visits(next, data[offset..]) == [] && Leaves(next, data[offset..]) == data[offset..]
    ensures next(data[offset..]).Some? ==>
              var (t, n) := next(data[offset..]).value;
              && offset + n <= |data|
              && Visits(next, data[offset..]) == [t] + Visits(next, data[offset + n..])
              && Leaves(next, data[offset..]) == Leaves(next, data[offset + n..])
  {
    if next(data[offset..]).Some? {
      var n := next(data[offset..]).value.1;
      assert data[offset..][n..] == data[offset + n..];
    }
  }

  /** The loop of `subkey_fingerprint`, for any reader and any wanted item. */
  method FindFirst<T(!new)>(next: Reader<T>, wanted: T -> Option<string>, certificate: seq<Byte>) returns (r: Option<string>)
    requires Advances(next)
    ensures r == FirstMatch(wanted, Visits(next, certificate))
  {
    var offset := 0;
    assert certificate[0..] == certificate;
    while offset < |certificate|
      invariant 0 <= offset <= |certificate|
      invariant FirstMatch(wanted, Visits(next, certificate)) == FirstMatch(wanted, Visits(next, certificate[offset..]))
    {
      var packet := next(certificate[offset..]);
      WalkStep(next, certificate, offset);
      if packet.None? { return None; }
      var (p, size) := packet.value;
      r := wanted(p);
      if r.Some? { return; }
      ghost var later := Visits(next, certificate[offset + size..]);
      assert ([p] + later)[1..] == later;
      offset := offset + size;
    }
    return None;
  }

  /** `subkey_fingerprint`: the first matching subkey among the visited packets; what comes after it, even
      if malformed, is not looked at. */
  method SubkeyFingerprint(sha1: Sha1, certificate: seq<Byte>, keyId: string) returns (r: Option<string>)
    ensures Advances(NextPacket) && r == FirstMatch(p => SubkeyMatch(sha1, p, keyId), Visits(NextPacket, certificate))
  {
    r := FindFirst(NextPacket, p => SubkeyMatch(sha1, p, keyId), certificate);
  }

  // ---------------------------------------------------------------- signature subpackets

  datatype SubFormat = SubOne | SubTwo | SubFive

  /** A subpacket: its body starts with the type octet, so it is never empty. */
  datatype Subpacket = Subpacket(format: SubFormat, body: seq<Byte>)

  predicate EncodableSub(s: Subpacket) {
    |s.body| > 0 &&
    match s.format
    case SubOne => |s.body| < 192
    case SubTwo => 192 <= |s.body| < 16320
    case SubFive => |s.body| < 0x1_0000_0000
  }

  function SubHeader(format: SubFormat, size: nat): seq<Byte>
    requires match format case SubOne => size < 192 case SubTwo => 192 <= size < 16320 case SubFive => true
  {
    match format
    case SubOne => [size]
    case SubTwo => [192 + (size - 192) / 256, (size - 192) % 256]
    case SubFive => [255] + BigEndian(size, 4)
  }

  function EncodeSub(s: Subpacket): seq<Byte> {
    if EncodableSub(s) then SubHeader(s.format, |s.body|) + s.body else []
  }

  /** The length `subpacket_span` reads, before its bounds check: format, header size, body size. */
  function ReadSubHeader(data: seq<Byte>): Option<(SubFormat, nat, nat)> {
    if data == [] then None
    else if data[0] < 192 then Some((SubOne, 1, data[0]))
    else if data[0] < 255 && |data| >= 2 then Some((SubTwo, 2, (data[0] as int - 192) * 256 + data[1] as int + 192))
    else if data[0] == 255 && |data| >= 5 then Some((SubFive, 5, FromBigEndian(data[1..5])))
    else None
  }

  /** `subpacket_span`. */
  function NextSub(data: seq<Byte>): (r: Option<(Subpacket, nat)>)
    ensures r.Some? ==> 0 < r.value.1 <= |data|
  {
    match ReadSubHeader(data)
    case None => None
    case Some((format, header, size)) =>
      if header <= |data| && 0 < size <= |data| - header
      then Some((Subpacket(format, data[header..header + size]), header + size)) else None
  }

  lemma SubHeaderRead(s: Subpacket, rest: seq<Byte>)
    requires EncodableSub(s)
    ensures var header := SubHeader(s.format, |s.body|);
            ReadSubHeader(header + rest) == Some((s.format, |header|, |s.body|))
  {
    var header := SubHeader(s.format, |s.body|);
    assert (header + rest)[0] == header[0];
    if s.format.SubFive? {
      assert (header + rest)[1..5] == BigEndian(|s.body|, 4);
      FourByteNumber(|s.body|);
    }
  }

  lemma SubIsEncoding(data: seq<Byte>)
    requires NextSub(data).Some?
    ensures EncodableSub(NextSub(data).value.0) && EncodeSub(NextSub(data).value.0) == data[..NextSub(data).value.1]
  {
    var (format, header, size) := ReadSubHeader(data).value;
    if format.SubFive? {
      FourBytes(data[1..5]);
      assert data[..5] == [data[0]] + data[1..5];
    } else if format.SubTwo? {
      assert (size - 192) / 256 == data[0] - 192 && (size - 192) % 256 == data[1];
      assert data[..2] == [data[0], data[1]];
    } else {
      assert data[..1] == [data[0]];
    }
    Joined(data, header, size);
  }

  /** `subpacket_span` inverts the encodings of section 5.2.3.1, and accepts nothing else. */
  lemma SubpacketsInvert()
    ensures Advances(NextSub) && ReadsEncodings(NextSub, EncodeSub, EncodableSub)
    ensures AcceptsEncodings(NextSub, EncodeSub, EncodableSub)
  {
    forall d | NextSub(d).Some?
      ensures EncodableSub(NextSub(d).value.0) && EncodeSub(NextSub(d).value.0) == d[..NextSub(d).value.1]
    {
      SubIsEncoding(d);
    }
    forall s, rest | EncodableSub(s) ensures NextSub(EncodeSub(s) + rest) == Some((s, |EncodeSub(s)|)) {
      var header := SubHeader(s.format, |s.body|);
      SubHeaderRead(s, s.body + rest);
      assert EncodeSub(s) + rest == header + (s.body + rest);
      assert (header + (s.body + rest))[|header|..|header| + |s.body|] == s.body;
    }
  }

  // ---------------------------------------------------------------- the issuer of a signature

  /** What has been seen of the issuer fingerprint: nothing, one, or something that rules the packet out. */
  datatype Issuer = Missing | Found(fingerprint: seq<Byte>) | Refused

  predicate IsIssuer(body: seq<Byte>) { body != [] && body[0] % 128 == ISSUER_FINGERPRINT }

  predicate IsV4Issuer(body: seq<Byte>) { IsIssuer(body) && |body| == 22 && body[1] == 4 }

  /** One turn of the loop over the hashed subpackets. */
  function SeeSub(seen: Issuer, body: seq<Byte>): Issuer {
    if !IsIssuer(body) then seen
    else if seen.Missing? && IsV4Issuer(body) then Found(body[2..])
    else Refused
  }

  function SeeAll(seen: Issuer, subs: seq<Subpacket>): Issuer
    decreases |subs|
  {
    if subs == [] then seen else SeeAll(SeeSub(seen, subs[0].body), subs[1..])
  }

  /** A fingerprint counts only if the whole hashed area was made of subpackets. */
  function IssuerSeen(seen: Issuer, rest: seq<Byte>): Option<seq<Byte>> {
    if seen.Found? && rest == [] then Some(seen.fingerprint) else None
  }

  /** Exactly one subpacket is an issuer fingerprint, and it is this version 4 one. */
  predicate OneIssuer(subs: seq<Subpacket>, fingerprint: seq<Byte>) {
    exists i :: && 0 <= i < |subs| && IsV4Issuer(subs[i].body) && fingerprint == subs[i].body[2..]
                && forall j :: 0 <= j < |subs| && IsIssuer(subs[j].body) ==> j == i
  }

  predicate NoIssuer(subs: seq<Subpacket>) { forall i :: 0 <= i < |subs| ==> !IsIssuer(subs[i].body) }

  lemma {:induction false} RefusedStays(subs: seq<Subpacket>)
    ensures SeeAll(Refused, subs) == Refused
  {
    if subs != [] { RefusedStays(subs[1..]); }
  }

  lemma {:induction false} FoundStays(fingerprint: seq<Byte>, subs: seq<Subpacket>)
    ensures SeeAll(Found(fingerprint), subs) == if NoIssuer(subs) then Found(fingerprint) else Refused
  {
    if subs != [] {
      assert forall i :: 0 < i < |subs| ==> subs[i] == subs[1..][i - 1];
      if IsIssuer(subs[0].body) {
        RefusedStays(subs[1..]);
      } else {
        FoundStays(fingerprint, subs[1..]);
        assert NoIssuer(subs[1..]) ==> NoIssuer(subs);
        assert NoIssuer(subs) ==> NoIssuer(subs[1..]);
      }
    }
  }

  lemma OneIssuerFirst(subs: seq<Subpacket>, fingerprint: seq<Byte>)
    requires subs != []
    ensures OneIssuer(subs, fingerprint) <==>
              if IsIssuer(subs[0].body) then IsV4Issuer(subs[0].body) && fingerprint == subs[0].body[2..] && NoIssuer(subs[1..])
              else OneIssuer(subs[1..], fingerprint)
  {
    var tail := subs[1..];
    assert forall i :: 0 < i < |subs| ==> subs[i] == tail[i - 1];
    if IsIssuer(subs[0].body) {
      assert NoIssuer(tail) <==> forall j :: 0 <= j < |subs| && IsIssuer(subs[j].body) ==> j == 0;
    } else {
      if OneIssuer(subs, fingerprint) {
        var i :| && 0 <= i < |subs| && IsV4Issuer(subs[i].body) && fingerprint == subs[i].body[2..]
                 && forall j :: 0 <= j < |subs| && IsIssuer(subs[j].body) ==> j == i;
        assert tail[i - 1] == subs[i];
      }
      if OneIssuer(tail, fingerprint) {
        var i :| && 0 <= i < |tail| && IsV4Issuer(tail[i].body) && fingerprint == tail[i].body[2..]
                 && forall j :: 0 <= j < |tail| && IsIssuer(tail[j].body) ==> j == i;
        assert subs[i + 1] == tail[i];
      }
    }
  }

  /** The loop ends with a fingerprint exactly when there is one issuer subpacket and it is well formed. */
  lemma {:induction false} SeeAllFinds(subs: seq<Subpacket>, fingerprint: seq<Byte>)
    ensures SeeAll(Missing, subs) == Found(fingerprint) <==> OneIssuer(subs, fingerprint)
  {
    if subs != [] {
      OneIssuerFirst(subs, fingerprint);
      if IsV4Issuer(subs[0].body) {
        FoundStays(subs[0].body[2..], subs[1..]);
      } else if IsIssuer(subs[0].body) {
        RefusedStays(subs[1..]);
      } else {
        SeeAllFinds(subs[1..], fingerprint);
      }
    }
  }

  lemma SeeAllStep(seen: Issuer, s: Subpacket, later: seq<Subpacket>)
    ensures SeeAll(seen, [s] + later) == SeeAll(SeeSub(seen, s.body), later)
  {
    assert ([s] + later)[1..] == later;
  }

  lemma WalkEnds<T(!new)>(next: Reader<T>)
    requires Advances(next)
    ensures Visits(next, []) == [] && Leaves(next, []) == []
  {
  }

  /** The loop over the hashed subpackets, for any reader: it gives up at once where it is refused. */
  method FindIssuer(next: Reader<Subpacket>, hashed: seq<Byte>) returns (r: Option<seq<Byte>>)
    requires Advances(next)
    ensures r == IssuerSeen(SeeAll(Missing, Visits(next, hashed)), Leaves(next, hashed))
  {
    var cursor, seen := 0, Missing;
    ghost var subs, rest := Visits(next, hashed), Leaves(next, hashed);
    assert hashed[0..] == hashed;
    while cursor < |hashed|
      invariant 0 <= cursor <= |hashed|
      invariant SeeAll(seen, Visits(next, hashed[cursor..])) == SeeAll(Missing, subs)
      invariant Leaves(next, hashed[cursor..]) == rest
    {
      var sub := next(hashed[cursor..]);
      WalkStep(next, hashed, cursor);
      if sub.None? { return None; }
      var (s, size) := sub.value;
      ghost var later := Visits(next, hashed[cursor + size..]);
      SeeAllStep(seen, s, later);
      seen := SeeSub(seen, s.body);
      if seen.Refused? {
        RefusedStays(later);
        return None;
      }
      cursor := cursor + size;
    }
    WalkEnds(next);
    assert hashed[cursor..] == [];
    r := if seen.Found? then Some(seen.fingerprint) else None;
  }

  // ---------------------------------------------------------------- the signer of a packet

  datatype Identity = Identity(keyId: string, primary: string, signing: string)

  /** A version 4 signature body whose hashed area is all there. */
  predicate HasHashedArea(body: seq<Byte>) {
    |body| >= 6 && body[0] == 4 && body[4] as int * 256 + body[5] as int <= |body| - 6
  }

  function HashedArea(body: seq<Byte>): seq<Byte>
    requires HasHashedArea(body)
  {
    body[6..6 + (body[4] as int * 256 + body[5] as int)]
  }

  /** The packet is one signature whose hashed area is these subpackets. */
  predicate IsSignature(packet: seq<Byte>, p: Packet, subs: seq<Subpacket>) {
    && Encodable(p) && packet == Encode(p) && p.tag == SIGNATURE && HasHashedArea(p.body)
    && AllEncodable(EncodableSub, subs) && HashedArea(p.body) == Concat(EncodeSub, subs)
  }

  /** The packet is one signature naming exactly one issuer fingerprint in its hashed area. */
  ghost predicate NamesIssuer(packet: seq<Byte>, fingerprint: seq<Byte>) {
    exists p, subs :: IsSignature(packet, p, subs) && OneIssuer(subs, fingerprint)
  }

  predicate OnlyIdentity(ring: seq<Identity>, k: nat, signing: string) {
    k < |ring| && ring[k].signing == signing && forall j :: 0 <= j < |ring| && ring[j].signing == signing ==> j == k
  }

  /** The outer checks of `dnfast_keyring_find_packet_signer`. */
  function SignatureHashed(packet: seq<Byte>): Option<seq<Byte>> {
    match PacketSpan(packet)
    case None => None
    case Some(s) =>
      var body := packet[s.header..s.header + s.body];
      if s.header + s.body != |packet| || s.tag != SIGNATURE || !HasHashedArea(body) then None
      else Some(HashedArea(body))
  }

  lemma SignatureHashedExact(packet: seq<Byte>, p: Packet)
    requires Encodable(p) && packet == Encode(p)
    ensures SignatureHashed(packet) ==
              if p.tag == SIGNATURE && HasHashedArea(p.body) then Some(HashedArea(p.body)) else None
  {
    EncodingIsSpan(p, []);
    assert packet + [] == packet;
  }

  lemma SignatureHashedIsPacket(packet: seq<Byte>)
    requires SignatureHashed(packet).Some?
    ensures PacketSpan(packet).Some? && Encodable(PacketAt(packet)) && packet == Encode(PacketAt(packet))
  {
    SpanIsEncoding(packet);
    assert packet[..|packet|] == packet;
  }

  /** What the walk over the hashed area finds is what the encoding of the packet says. */
  lemma IssuerExact(packet: seq<Byte>, fingerprint: seq<Byte>)
    ensures Advances(NextSub)
    ensures NamesIssuer(packet, fingerprint) <==>
              && SignatureHashed(packet).Some?
              && var hashed := SignatureHashed(packet).value;
                 IssuerSeen(SeeAll(Missing, Visits(NextSub, hashed)), Leaves(NextSub, hashed)) == Some(fingerprint)
  {
    SubpacketsInvert();
    if NamesIssuer(packet, fingerprint) {
      var p, subs :| IsSignature(packet, p, subs) && OneIssuer(subs, fingerprint);
      SignatureHashedExact(packet, p);
      WalkVisitsExactly(NextSub, EncodeSub, EncodableSub, subs);
      SeeAllFinds(subs, fingerprint);
    }
    if SignatureHashed(packet).Some? {
      var hashed := SignatureHashed(packet).value;
      var subs, rest := Visits(NextSub, hashed), Leaves(NextSub, hashed);
      SignatureHashedIsPacket(packet);
      SignatureHashedExact(packet, PacketAt(packet));
      WalkReads(NextSub, EncodeSub, EncodableSub, hashed);
      SeeAllFinds(subs, fingerprint);
      if rest == [] && OneIssuer(subs, fingerprint) {
        assert IsSignature(packet, PacketAt(packet), subs);
      }
    }
  }

  /** The scan of the ring: one match, or nothing. */
  method FindOnly(ring: seq<Identity>, signing: string) returns (r: Option<nat>)
    ensures match r
            case Some(k) => OnlyIdentity(ring, k, signing)
            case None => forall k: nat :: !OnlyIdentity(ring, k, signing)
  {
    r := None;
    for item := 0 to |ring|
      invariant r.Some? ==> r.value < item && ring[r.value].signing == signing
      invariant forall j :: 0 <= j < item && ring[j].signing == signing ==> r == Some(j)
    {
      if ring[item].signing == signing {
        if r.Some? { return None; }
        r := Some(item);
      }
    }
  }

  /** `dnfast_keyring_find_packet_signer`: an identity is returned exactly when the packet is one version 4
      signature whose hashed area consists of subpackets with exactly one issuer fingerprint, a version 4
      one, and this is the only identity of the ring with that signing key. */
  method FindPacketSigner(ring: seq<Identity>, packet: seq<Byte>) returns (r: Option<nat>)
    ensures forall k: nat :: r == Some(k) <==> exists f :: NamesIssuer(packet, f) && OnlyIdentity(ring, k, HexUpper(f))
  {
    var hashed := SignatureHashed(packet);
    var issuer := None;
    if hashed.Some? { issuer := FindIssuer(NextSub, hashed.value); }
    forall f ensures NamesIssuer(packet, f) <==> issuer == Some(f) {
      IssuerExact(packet, f);
    }
    r := None;
    if issuer.Some? { r := FindOnly(ring, HexUpper(issuer.value)); }
  }
}
