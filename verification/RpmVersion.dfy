/** RPM version and release comparison (crates/dnfast-core/src/value.rs).

    `PartCompare` is the two-cursor loop of the program. Its reference is the lexicographic
    comparison of token sequences, from which the order laws follow. */
module RpmVersion {
  import opened Bytes

  const TILDE: Byte := 126
  const CARET: Byte := 94
  const ZERO: Byte := 48

  predicate IsDigit(b: Byte) { 48 <= b <= 57 }

  predicate IsAlphanumeric(b: Byte) { IsDigit(b) || 65 <= b <= 90 || 97 <= b <= 122 }

  predicate IsSeparator(b: Byte) { !IsAlphanumeric(b) && b != TILDE && b != CARET }

  /** Whether `b` continues a run of digits (`numeric`) or of letters. */
  predicate Continues(b: Byte, numeric: bool) { IsAlphanumeric(b) && IsDigit(b) == numeric }

  // ---------------------------------------------------------------- tokens

  /** What a version text means. `End` stands for the exhausted text. */
  datatype Token = Tilde | End | Caret | Letters(text: seq<Byte>) | Digits(number: nat)

  function SkipSeparators(s: seq<Byte>): (r: seq<Byte>)
    ensures |r| <= |s|
    ensures r != [] ==> !IsSeparator(r[0])
  {
    if s != [] && IsSeparator(s[0]) then SkipSeparators(s[1..]) else s
  }

  /** Length of the longest prefix that is one run of digits or of letters. */
  function RunLength(s: seq<Byte>, numeric: bool): (n: nat)
    ensures n <= |s|
    ensures forall i :: 0 <= i < n ==> Continues(s[i], numeric)
    ensures n < |s| ==> !Continues(s[n], numeric)
  {
    if s != [] && Continues(s[0], numeric) then 1 + RunLength(s[1..], numeric) else 0
  }

  predicate IsRun(s: seq<Byte>, numeric: bool) {
    forall i :: 0 <= i < |s| ==> Continues(s[i], numeric)
  }

  /** The natural number a run of decimal digits denotes. */
  function Number(digits: seq<Byte>): nat
    requires IsRun(digits, true)
  {
    if digits == [] then 0 else Number(digits[..|digits| - 1]) * 10 + (digits[|digits| - 1] - ZERO)
  }

  function Tokens(s: seq<Byte>): seq<Token>
    decreases |s|
  {
    var t := SkipSeparators(s);
    if t == [] then []
    else if t[0] == TILDE then [Tilde] + Tokens(t[1..])
    else if t[0] == CARET then [Caret] + Tokens(t[1..])
    else
      var numeric := IsDigit(t[0]);
      var n := RunLength(t, numeric);
      [RunToken(t[..n], numeric)] + Tokens(t[n..])
  }

  function RunToken(run: seq<Byte>, numeric: bool): Token
    requires IsRun(run, numeric)
  {
    if numeric then Digits(Number(run)) else Letters(run)
  }

  function Rank(t: Token): nat {
    match t
    case Tilde => 0
    case End => 1
    case Caret => 2
    case Letters(_) => 3
    case Digits(_) => 4
  }

  /** Tilde < end < caret < letters < digits; letter runs as bytes, digit runs as numbers. */
  function CompareToken(a: Token, b: Token): Ordering {
    if a.Letters? && b.Letters? then CompareBytes(a.text, b.text)
    else if a.Digits? && b.Digits? then CompareInt(a.number, b.number)
    else CompareInt(Rank(a), Rank(b))
  }

  function Head(ts: seq<Token>): Token { if ts == [] then End else ts[0] }

  /** Lexicographic comparison of two token sequences, both ended by `End`. */
  function CompareTokens(a: seq<Token>, b: seq<Token>): Ordering {
    var first := CompareToken(Head(a), Head(b));
    if first != Equal || a == [] || b == [] then first else CompareTokens(a[1..], b[1..])
  }

  /** The reference comparison of two version texts. */
  function Compare(left: seq<Byte>, right: seq<Byte>): Ordering {
    CompareTokens(Tokens(left), Tokens(right))
  }

  // ---------------------------------------------------------------- digit runs

  function StripZeros(digits: seq<Byte>): (r: seq<Byte>)
    ensures IsRun(digits, true) ==> IsRun(r, true)
    ensures r != [] ==> r[0] != ZERO
  {
    if digits != [] && digits[0] == ZERO then StripZeros(digits[1..]) else digits
  }

  function Pow10(n: nat): (r: nat)
    ensures r > 0
  {
    if n == 0 then 1 else 10 * Pow10(n - 1)
  }

  lemma {:induction false} NumberBound(digits: seq<Byte>)
    requires IsRun(digits, true)
    ensures Number(digits) < Pow10(|digits|)
  {
    if digits != [] {
      NumberBound(digits[..|digits| - 1]);
    }
  }

  lemma TimesTen(x: nat, p: nat)
    ensures x * (10 * p) == (x * p) * 10
  {
  }

  /** Peeling the most significant digit. */
  lemma {:induction false} NumberFront(digits: seq<Byte>)
    requires digits != [] && IsRun(digits, true)
    ensures Number(digits) == (digits[0] - ZERO) * Pow10(|digits| - 1) + Number(digits[1..])
  {
    if |digits| > 1 {
      var init := digits[..|digits| - 1];
      NumberFront(init);
      assert init[1..] == digits[1..][..|digits| - 2];
      TimesTen(digits[0] - ZERO, Pow10(|digits| - 2));
    } else {
      assert digits[..0] == [];
      assert digits[1..] == [];
    }
  }

  lemma {:induction false} NumberStrip(digits: seq<Byte>)
    requires IsRun(digits, true)
    ensures Number(StripZeros(digits)) == Number(digits)
  {
    if digits != [] && digits[0] == ZERO {
      NumberFront(digits);
      assert Number(digits) == Number(digits[1..]);
      NumberStrip(digits[1..]);
    }
  }

  /** Two runs of one length compare as bytes exactly as their numbers compare. */
  lemma {:induction false} SameLengthOrder(a: seq<Byte>, b: seq<Byte>)
    requires |a| == |b|
    requires IsRun(a, true) && IsRun(b, true)
    ensures CompareBytes(a, b) == CompareInt(Number(a), Number(b))
  {
    if a != [] {
      if a[0] < b[0] {
        LeadingDigitDecides(a, b);
      } else if b[0] < a[0] {
        LeadingDigitDecides(b, a);
      } else {
        NumberFront(a);
        NumberFront(b);
        SameLengthOrder(a[1..], b[1..]);
      }
    }
  }

  lemma LeadingDigitDecides(a: seq<Byte>, b: seq<Byte>)
    requires |a| == |b| > 0
    requires IsRun(a, true) && IsRun(b, true)
    requires a[0] < b[0]
    ensures Number(a) < Number(b)
  {
    NumberFront(a);
    NumberFront(b);
    NumberBound(a[1..]);
    ScaledOrder(a[0] - ZERO, b[0] - ZERO, Pow10(|a| - 1));
  }

  lemma {:induction false} ScaledOrder(x: nat, y: nat, p: nat)
    requires x < y
    ensures x * p + p <= y * p
  {
    assert y * p == (y - 1) * p + p;
    if x < y - 1 {
      ScaledOrder(x, y - 1, p);
    }
  }

  /** Without leading zeros a longer run is a larger number. */
  lemma LongerIsLarger(a: seq<Byte>, b: seq<Byte>)
    requires |a| < |b| && b[0] != ZERO
    requires IsRun(a, true) && IsRun(b, true)
    ensures Number(a) < Number(b)
  {
    NumberBound(a);
    NumberFront(b);
    Pow10Monotone(|a|, |b| - 1);
    ScaledOrder(0, b[0] - ZERO, Pow10(|b| - 1));
  }

  lemma {:induction false} Pow10Monotone(m: nat, n: nat)
    requires m <= n
    ensures Pow10(m) <= Pow10(n)
  {
    if m < n {
      Pow10Monotone(m, n - 1);
    }
  }

  /** The program's comparison of two runs: leading zeros dropped and the lengths compared when
      numeric, then the bytes. */
  function CompareRuns(a: seq<Byte>, b: seq<Byte>, numeric: bool): Ordering {
    var la := if numeric then StripZeros(a) else a;
    var ra := if numeric then StripZeros(b) else b;
    if numeric && |la| != |ra| then CompareInt(|la|, |ra|) else CompareBytes(la, ra)
  }

  /** ... which never computes a number and is still the comparison of the tokens. */
  lemma CompareRunsIsCompareToken(a: seq<Byte>, b: seq<Byte>, numeric: bool)
    requires IsRun(a, numeric) && IsRun(b, numeric)
    ensures CompareRuns(a, b, numeric) == CompareToken(RunToken(a, numeric), RunToken(b, numeric))
  {
    if numeric {
      NumberStrip(a);
      NumberStrip(b);
      var la, ra := StripZeros(a), StripZeros(b);
      assert CompareToken(RunToken(a, true), RunToken(b, true)) == CompareInt(Number(la), Number(ra));
      if |la| < |ra| {
        LongerIsLarger(la, ra);
      } else if |ra| < |la| {
        LongerIsLarger(ra, la);
      } else {
        SameLengthOrder(la, ra);
      }
    }
  }

  // ---------------------------------------------------------------- the program's loop

  method ScanSeparators(text: seq<Byte>, from: nat) returns (i: nat)
    requires from <= |text|
    ensures from <= i <= |text|
    ensures text[i..] == SkipSeparators(text[from..])
  {
    i := from;
    while i < |text| && IsSeparator(text[i])
      invariant from <= i <= |text|
      invariant SkipSeparators(text[i..]) == SkipSeparators(text[from..])
    {
      assert text[i..][1..] == text[i + 1..];
      i := i + 1;
    }
  }

  method ScanRun(text: seq<Byte>, from: nat, numeric: bool) returns (i: nat)
    requires from <= |text|
    ensures i == from + RunLength(text[from..], numeric)
  {
    i := from;
    while i < |text| && Continues(text[i], numeric)
      invariant from <= i <= |text|
      invariant i + RunLength(text[i..], numeric) == from + RunLength(text[from..], numeric)
    {
      assert text[i..][1..] == text[i + 1..];
      i := i + 1;
    }
  }

  method DropZeros(digits: seq<Byte>) returns (r: seq<Byte>)
    ensures r == StripZeros(digits)
  {
    r := digits;
    while r != [] && r[0] == ZERO
      invariant StripZeros(r) == StripZeros(digits)
      decreases |r|
    {
      r := r[1..];
    }
  }

  /** What the text comparison comes to once the separators in front are skipped. */
  lemma CompareHeads(l0: seq<Byte>, r0: seq<Byte>, l: seq<Byte>, r: seq<Byte>)
    requires l == SkipSeparators(l0) && r == SkipSeparators(r0)
    ensures l != [] && r != [] && l[0] == r[0] && (l[0] == TILDE || l[0] == CARET) ==>
              Compare(l0, r0) == Compare(l[1..], r[1..])
    ensures l == [] || r == [] || Rank(HeadToken(l)) != Rank(HeadToken(r)) ==>
              Compare(l0, r0) == CompareInt(Rank(HeadToken(l)), Rank(HeadToken(r)))
  {
    TokensHead(l0, l);
    TokensHead(r0, r);
  }

  /** ... and when both begin with a run of the same kind. */
  lemma CompareRunHeads(l0: seq<Byte>, r0: seq<Byte>, l: seq<Byte>, r: seq<Byte>, numeric: bool)
    requires l == SkipSeparators(l0) && r == SkipSeparators(r0)
    requires l != [] && r != [] && Continues(l[0], numeric) && Continues(r[0], numeric)
    ensures RunLength(l, numeric) > 0 && RunLength(r, numeric) > 0
    ensures var m, n := RunLength(l, numeric), RunLength(r, numeric);
            var first := CompareRuns(l[..m], r[..n], numeric);
            Compare(l0, r0) == if first != Equal then first else Compare(l[m..], r[n..])
  {
    TokensHead(l0, l);
    TokensHead(r0, r);
    CompareRunsIsCompareToken(l[..RunLength(l, numeric)], r[..RunLength(r, numeric)], numeric);
  }

  function HeadToken(t: seq<Byte>): Token
  {
    if t == [] then End
    else if t[0] == TILDE then Tilde
    else if t[0] == CARET then Caret
    else if IsDigit(t[0]) then Digits(0)
    else Letters([])
  }

  lemma Cut(text: seq<Byte>, from: nat, to: nat)
    requires from <= to <= |text|
    ensures text[from..to] == text[from..][..to - from] && text[to..] == text[from..][to - from..]
  {
  }

  /** The part of `rpm_part_cmp` that compares two runs and moves both cursors behind them. */
  method CompareRunsAt(left: seq<Byte>, right: seq<Byte>, ls: nat, rs: nat, numeric: bool, ghost l0: seq<Byte>, ghost r0: seq<Byte>)
    returns (order: Ordering, li: nat, ri: nat)
    requires ls < |left| && rs < |right| && Continues(left[ls], numeric) && Continues(right[rs], numeric)
    requires left[ls..] == SkipSeparators(l0) && right[rs..] == SkipSeparators(r0)
    ensures ls < li <= |left| && rs < ri <= |right|
    ensures Compare(l0, r0) == if order != Equal then order else Compare(left[li..], right[ri..])
  {
    ghost var l, r := left[ls..], right[rs..];
    CompareRunHeads(l0, r0, l, r, numeric);
    li := ScanRun(left, ls, numeric);
    ri := ScanRun(right, rs, numeric);
    Cut(left, ls, li);
    Cut(right, rs, ri);
    order := CompareRunTexts(left[ls..li], right[rs..ri], numeric);
  }

  /** `rpm_part_cmp`. It terminates, and it is the comparison of the token sequences. */
  method PartCompare(left: seq<Byte>, right: seq<Byte>) returns (order: Ordering)
    ensures order == Compare(left, right)
  {
    var li, ri := 0, 0;
    while true
      invariant 0 <= li <= |left| && 0 <= ri <= |right|
      invariant Compare(left[li..], right[ri..]) == Compare(left, right)
      decreases |left| - li + |right| - ri
    {
      ghost var l0, r0 := left[li..], right[ri..];
      li := ScanSeparators(left, li);
      ri := ScanSeparators(right, ri);
      ghost var l, r := left[li..], right[ri..];
      CompareHeads(l0, r0, l, r);
      var lt, rt := li < |left| && left[li] == TILDE, ri < |right| && right[ri] == TILDE;
      if lt || rt {
        if lt && rt {
          li, ri := li + 1, ri + 1;
          assert left[li..] == l[1..] && right[ri..] == r[1..];
          continue;
        }
        return if lt then Less else Greater;
      }
      var lc, rc := li < |left| && left[li] == CARET, ri < |right| && right[ri] == CARET;
      if lc || rc {
        if lc && rc {
          li, ri := li + 1, ri + 1;
          assert left[li..] == l[1..] && right[ri..] == r[1..];
          continue;
        }
        if lc {
          return if ri == |right| then Greater else Less;
        }
        return if li == |left| then Less else Greater;
      }
      if li == |left| || ri == |right| {
        return CompareInt(|left| - li, |right| - ri);
      }
      var numeric := IsDigit(left[li]);
      if numeric != IsDigit(right[ri]) {
        return if numeric then Greater else Less;
      }
      order, li, ri := CompareRunsAt(left, right, li, ri, numeric, l0, r0);
      if order != Equal {
        return;
      }
    }
  }

  method CompareRunTexts(left: seq<Byte>, right: seq<Byte>, numeric: bool) returns (order: Ordering)
    ensures order == CompareRuns(left, right, numeric)
  {
    var la, ra := left, right;
    if numeric {
      la := DropZeros(la);
      ra := DropZeros(ra);
      if |la| != |ra| {
        return CompareInt(|la|, |ra|);
      }
    }
    return CompareBytes(la, ra);
  }

  /** The token sequence read off a text whose separators have been skipped. */
  lemma TokensHead(s: seq<Byte>, t: seq<Byte>)
    requires t == SkipSeparators(s)
    ensures t == [] ==> Tokens(s) == []
    ensures t != [] && t[0] == TILDE ==> Tokens(s) == [Tilde] + Tokens(t[1..])
    ensures t != [] && t[0] == CARET ==> Tokens(s) == [Caret] + Tokens(t[1..])
    ensures t != [] && t[0] != TILDE && t[0] != CARET ==>
              var numeric := IsDigit(t[0]);
              var n := RunLength(t, numeric);
              n > 0 && Tokens(s) == [RunToken(t[..n], numeric)] + Tokens(t[n..])
  {
  }

  // ---------------------------------------------------------------- order laws

  lemma CompareTokenLaws(a: Token, b: Token, c: Token)
    ensures CompareToken(a, b) == Equal <==> a == b
    ensures CompareToken(b, a) == CompareToken(a, b).Reversed()
    ensures CompareToken(a, b) != Greater && CompareToken(b, c) != Greater ==>
              CompareToken(a, c) != Greater &&
              (CompareToken(a, b) == Less || CompareToken(b, c) == Less ==> CompareToken(a, c) == Less)
  {
    if a.Letters? && b.Letters? {
      CompareBytesEqual(a.text, b.text);
      CompareBytesReversed(a.text, b.text);
      if c.Letters? && CompareToken(a, b) != Greater && CompareToken(b, c) != Greater {
        CompareBytesTransitive(a.text, b.text, c.text);
      }
    }
  }

  predicate NoEnd(ts: seq<Token>) { End !in ts }

  lemma {:induction false} TokensHaveNoEnd(s: seq<Byte>)
    ensures NoEnd(Tokens(s))
    decreases |s|
  {
    var t := SkipSeparators(s);
    TokensHead(s, t);
    if t != [] {
      if t[0] == TILDE || t[0] == CARET {
        TokensHaveNoEnd(t[1..]);
      } else {
        TokensHaveNoEnd(t[RunLength(t, IsDigit(t[0]))..]);
      }
    }
  }

  /** Equal exactly for equal token sequences; swapping the operands reverses the result. */
  lemma {:induction false} CompareTokensLaws(a: seq<Token>, b: seq<Token>)
    requires NoEnd(a) && NoEnd(b)
    ensures CompareTokens(a, b) == Equal <==> a == b
    ensures CompareTokens(b, a) == CompareTokens(a, b).Reversed()
  {
    CompareTokenLaws(Head(a), Head(b), End);
    if a != [] && b != [] && a[0] == b[0] {
      CompareTokensLaws(a[1..], b[1..]);
      assert a == [a[0]] + a[1..] && b == [b[0]] + b[1..];
    }
  }

  lemma {:induction false} CompareTokensTransitive(a: seq<Token>, b: seq<Token>, c: seq<Token>)
    requires NoEnd(a) && NoEnd(b) && NoEnd(c)
    requires CompareTokens(a, b) != Greater && CompareTokens(b, c) != Greater
    ensures CompareTokens(a, c) != Greater
    ensures CompareTokens(a, b) == Less || CompareTokens(b, c) == Less ==> CompareTokens(a, c) == Less
  {
    CompareTokenLaws(Head(a), Head(b), Head(c));
    CompareTokenLaws(Head(b), Head(c), Head(a));
    if a != [] && b != [] && c != [] && a[0] == b[0] && b[0] == c[0] {
      CompareTokensTransitive(a[1..], b[1..], c[1..]);
    }
  }

  /** Version comparison is a total preorder whose ties are the texts with equal tokens. */
  lemma CompareIsTotalPreorder(a: seq<Byte>, b: seq<Byte>, c: seq<Byte>)
    ensures Compare(a, a) == Equal
    ensures Compare(a, b) == Equal <==> Tokens(a) == Tokens(b)
    ensures Compare(b, a) == Compare(a, b).Reversed()
    ensures Compare(a, b) != Greater && Compare(b, c) != Greater ==>
              Compare(a, c) != Greater &&
              (Compare(a, b) == Less || Compare(b, c) == Less ==> Compare(a, c) == Less)
  {
    TokensHaveNoEnd(a);
    TokensHaveNoEnd(b);
    TokensHaveNoEnd(c);
    CompareTokensLaws(Tokens(a), Tokens(a));
    CompareTokensLaws(Tokens(a), Tokens(b));
    if Compare(a, b) != Greater && Compare(b, c) != Greater {
      CompareTokensTransitive(Tokens(a), Tokens(b), Tokens(c));
    }
  }

  // ---------------------------------------------------------------- epoch, version, release

  datatype Architecture = Aarch64 | X86_64 | Noarch

  datatype Evra = Evra(epoch: nat, version: seq<Byte>, release: seq<Byte>, arch: Architecture)

  /** Epoch first, then version, then release; the architecture takes no part. */
  function CompareEvra(a: Evra, b: Evra): Ordering {
    if a.epoch != b.epoch then CompareInt(a.epoch, b.epoch)
    else if Compare(a.version, b.version) != Equal then Compare(a.version, b.version)
    else Compare(a.release, b.release)
  }

  predicate Newer(candidate: Evra, installed: Evra) { CompareEvra(candidate, installed) == Greater }

  method IsStrictlyNewerThan(candidate: Evra, installed: Evra) returns (newer: bool)
    ensures newer == Newer(candidate, installed)
  {
    if candidate.epoch != installed.epoch {
      return candidate.epoch > installed.epoch;
    }
    var version := PartCompare(candidate.version, installed.version);
    if version != Equal {
      return version == Greater;
    }
    var release := PartCompare(candidate.release, installed.release);
    return release == Greater;
  }

  function Lex(first: Ordering, second: Ordering): Ordering { if first != Equal then first else second }

  predicate Transits(ab: Ordering, bc: Ordering, ac: Ordering) {
    ab != Greater && bc != Greater ==> ac != Greater && (ab == Less || bc == Less ==> ac == Less)
  }

  lemma LexTransits(ab: Ordering, bc: Ordering, ac: Ordering, x: Ordering, y: Ordering, z: Ordering)
    requires Transits(ab, bc, ac) && Transits(bc.Reversed(), ab.Reversed(), ac.Reversed()) && Transits(x, y, z)
    ensures Transits(Lex(ab, x), Lex(bc, y), Lex(ac, z))
  {
  }

  lemma CompareTransits(a: seq<Byte>, b: seq<Byte>, c: seq<Byte>)
    ensures Transits(Compare(a, b), Compare(b, c), Compare(a, c))
    ensures Transits(Compare(b, c).Reversed(), Compare(a, b).Reversed(), Compare(a, c).Reversed())
  {
    CompareIsTotalPreorder(a, b, c);
    CompareIsTotalPreorder(c, b, a);
    CompareIsTotalPreorder(a, c, b);
  }

  lemma CompareEvraIsTotalPreorder(a: Evra, b: Evra, c: Evra)
    ensures CompareEvra(a, a) == Equal
    ensures CompareEvra(b, a) == CompareEvra(a, b).Reversed()
    ensures CompareEvra(a, b) != Greater && CompareEvra(b, c) != Greater ==>
              CompareEvra(a, c) != Greater &&
              (CompareEvra(a, b) == Less || CompareEvra(b, c) == Less ==> CompareEvra(a, c) == Less)
  {
    EvraSymmetric(a, b);
    var v, w, x := Compare(a.version, b.version), Compare(b.version, c.version), Compare(a.version, c.version);
    var r, s, t := Compare(a.release, b.release), Compare(b.release, c.release), Compare(a.release, c.release);
    CompareTransits(a.version, b.version, c.version);
    CompareTransits(a.release, b.release, c.release);
    LexTransits(v, w, x, r, s, t);
    LexTransits(CompareInt(a.epoch, b.epoch), CompareInt(b.epoch, c.epoch), CompareInt(a.epoch, c.epoch), Lex(v, r), Lex(w, s), Lex(x, t));
  }

  lemma EvraSymmetric(a: Evra, b: Evra)
    ensures CompareEvra(a, a) == Equal
    ensures CompareEvra(b, a) == CompareEvra(a, b).Reversed()
  {
    CompareIsTotalPreorder(a.version, b.version, a.version);
    CompareIsTotalPreorder(a.release, b.release, a.release);
  }

  /** `Newer` is a strict weak order: irreflexive, asymmetric, transitive, and so are its ties. */
  lemma NewerIsStrictWeakOrder(a: Evra, b: Evra, c: Evra)
    ensures !Newer(a, a)
    ensures Newer(a, b) ==> !Newer(b, a)
    ensures Newer(a, b) && Newer(b, c) ==> Newer(a, c)
    ensures !Newer(a, b) && !Newer(b, c) ==> !Newer(a, c)
  {
    CompareEvraIsTotalPreorder(a, b, c);
    CompareEvraIsTotalPreorder(c, b, a);
    CompareEvraIsTotalPreorder(a, c, b);
    CompareEvraIsTotalPreorder(b, c, a);
  }
}
