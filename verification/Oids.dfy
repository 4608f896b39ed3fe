/** Object identifiers: their order, their text form and the internet-address index
    (include/oidtree.hpp, src/oid.cpp, src/oid_inet_addr.cpp). */
module Oids {
  import opened Common

  // The sub-identifiers; the source copies OIDs by value everywhere.
  type OID = seq<nat>

  // ---- order ----

  /** OIDCompare: snmp_oid_compare returned -1. */
  predicate Less(a: OID, b: OID) {
    b != [] && (a == [] || a[0] < b[0] || (a[0] == b[0] && Less(a[1..], b[1..])))
  }

  /** subtree_contains: snmp_oidtree_compare stops at the shorter OID, so it also accepts the
      ancestors of `root`. */
  predicate SubtreeContains(root: OID, other: OID) {
    root <= other || other <= root
  }

  // The first difference between a and b is at position n, where a has the smaller sub-identifier.
  ghost predicate SmallerAt(a: OID, b: OID, n: nat) {
    n < |a| && n < |b| && a[..n] == b[..n] && a[n] < b[n]
  }

  lemma SmallerInTails(a: OID, b: OID, n: nat)
    requires a != [] && b != [] && a[0] == b[0]
    ensures SmallerAt(a, b, n + 1) <==> SmallerAt(a[1..], b[1..], n)
  {
    if n < |a| - 1 && n < |b| - 1 {
      assert a[..n + 1] == [a[0]] + a[1..][..n] && b[..n + 1] == [b[0]] + b[1..][..n];
      assert a[..n + 1][1..] == a[1..][..n] && b[..n + 1][1..] == b[1..][..n];
    }
  }

  lemma SmallerAtFirst(a: OID, b: OID, n: nat)
    requires SmallerAt(a, b, n)
    ensures a[0] == b[0] || n == 0
  {
    if n > 0 {
      assert a[..n][0] == a[0] && b[..n][0] == b[0];
    }
  }

  /** The order is the lexicographic one that GETNEXT walks in: an OID comes before its descendants,
      and otherwise the smaller sub-identifier at the first difference decides. */
  lemma {:induction false} LessIsLexicographic(a: OID, b: OID)
    ensures Less(a, b) <==> (a <= b && a != b) || exists n: nat :: SmallerAt(a, b, n)
  {
    if a != [] && b != [] && a[0] == b[0] {
      var s, t := a[1..], b[1..];
      assert a == [a[0]] + s && b == [b[0]] + t;
      LessIsLexicographic(s, t);
      if n: nat :| SmallerAt(s, t, n) {
        SmallerInTails(a, b, n);
      }
      if n: nat :| SmallerAt(a, b, n) {
        SmallerInTails(a, b, n - 1);
      }
    } else if a != [] && b != [] {
      assert a[0] < b[0] ==> SmallerAt(a, b, 0);
      if n: nat :| SmallerAt(a, b, n) {
        SmallerAtFirst(a, b, n);
      }
    }
  }

  lemma {:induction false} LessIsTotal(a: OID, b: OID)
    ensures a == b || Less(a, b) || Less(b, a)
  {
    if a != [] && b != [] && a[0] == b[0] {
      LessIsTotal(a[1..], b[1..]);
      assert a == [a[0]] + a[1..] && b == [b[0]] + b[1..];
    }
  }

  lemma {:induction false} LessIsAsymmetric(a: OID, b: OID)
    requires Less(a, b)
    ensures !Less(b, a) && a != b
  {
    if a != [] && a[0] == b[0] {
      LessIsAsymmetric(a[1..], b[1..]);
    }
  }

  lemma {:induction false} LessIsTransitive(a: OID, b: OID, c: OID)
    requires Less(a, b) && Less(b, c)
    ensures Less(a, c)
  {
    if a != [] && a[0] == b[0] && b[0] == c[0] {
      LessIsTransitive(a[1..], b[1..], c[1..]);
    }
  }

  lemma {:induction false} AncestorComesFirst(p: OID, k: OID)
    requires p <= k && p != k
    ensures Less(p, k)
  {
    if p != [] {
      AncestorComesFirst(p[1..], k[1..]);
    }
  }

  /** The descendants of an OID are contiguous: whatever lies between it and one of them is one. */
  lemma {:induction false} DescendantsAreContiguous(p: OID, b: OID, c: OID)
    requires p <= c && Less(p, b) && Less(b, c)
    ensures p <= b
  {
    if p != [] {
      LessIsAsymmetric(b, c);
      DescendantsAreContiguous(p[1..], b[1..], c[1..]);
      assert b == [b[0]] + b[1..] && p == [p[0]] + p[1..];
    }
  }

  // ---- numbers in text ----

  function DigitChar(d: nat): char
    requires d < 10
  {
    "0123456789"[d]
  }

  predicate IsDigit(c: char) { '0' <= c <= '9' }

  function DigitValue(c: char): nat
    requires IsDigit(c)
  {
    (c as int) - ('0' as int)
  }

  /** A number as operator<< prints it. */
  function Show(n: nat): string {
    (if n < 10 then [] else Show(n / 10)) + [DigitChar(n % 10)]
  }

  // The value of the leading digits of s, continuing from `acc`.
  function LeadingDigits(s: string, acc: nat): nat {
    if s != [] && IsDigit(s[0]) then LeadingDigits(s[1..], 10 * acc + DigitValue(s[0])) else acc
  }

  // Reduction to a 32-bit int.
  function ToInt32(v: int): int {
    var m := v % 0x1_0000_0000;
    if m < 0x8000_0000 then m else m - 0x1_0000_0000
  }

  // strtol returns the nearest long, a 64-bit number.
  function Saturated(v: int): int {
    if v < -0x8000_0000_0000_0000 then -0x8000_0000_0000_0000
    else if v > 0x7FFF_FFFF_FFFF_FFFF then 0x7FFF_FFFF_FFFF_FFFF
    else v
  }

  predicate IsInt(v: int) { -0x8000_0000 <= v < 0x8000_0000 }

  predicate IsSpace(c: char) { c == ' ' || 9 <= c as int <= 13 }

  /** atoi: optional white space, optional sign, leading digits; strtol reduced to an int. */
  function Atoi(s: string): int {
    if s != [] && IsSpace(s[0]) then Atoi(s[1..])
    else if s != [] && s[0] == '-' then ToInt32(Saturated(-(LeadingDigits(s[1..], 0) as int)))
    else if s != [] && s[0] == '+' then ToInt32(Saturated(LeadingDigits(s[1..], 0)))
    else ToInt32(Saturated(LeadingDigits(s, 0)))
  }

  // An int stored as a sub-identifier, which is an unsigned 64-bit long.
  function SubId(v: int): (r: nat)
    ensures IsInt(v) ==> r == if v >= 0 then v else 0x1_0000_0000_0000_0000 + v
  {
    v % 0x1_0000_0000_0000_0000
  }

  predicate AllDigits(s: string) {
    forall k | 0 <= k < |s| :: IsDigit(s[k])
  }

  /** Digits are decimal and the most significant comes first. */
  lemma ShowIsDecimal()
    ensures Show(1234567890) == "1234567890"
  {
    assert Show(1) == "1" && Show(12) == Show(1) + "2" && Show(123) == Show(12) + "3" && Show(1234) == Show(123) + "4";
    assert Show(12345) == Show(1234) + "5" && Show(123456) == Show(12345) + "6" && Show(1234567) == Show(123456) + "7";
    assert Show(12345678) == Show(1234567) + "8" && Show(123456789) == Show(12345678) + "9";
    assert Show(1234567890) == Show(123456789) + "0";
  }

  /** A printed number has no leading zero. */
  lemma {:induction false} ShowHasNoLeadingZero(n: nat)
    ensures Show(n) != [] && (Show(n)[0] == '0' <==> n == 0)
    ensures n < 10 ==> |Show(n)| == 1
  {
    if n >= 10 {
      ShowHasNoLeadingZero(n / 10);
      assert Show(n)[0] == Show(n / 10)[0];
    }
  }

  lemma {:induction false} LeadingDigitsSnoc(s: string, c: char, acc: nat)
    requires AllDigits(s) && IsDigit(c)
    ensures LeadingDigits(s + [c], acc) == 10 * LeadingDigits(s, acc) + DigitValue(c)
  {
    if s == [] {
      assert LeadingDigits([c], acc) == LeadingDigits([], 10 * acc + DigitValue(c));
    } else {
      assert (s + [c])[1..] == s[1..] + [c];
      LeadingDigitsSnoc(s[1..], c, 10 * acc + DigitValue(s[0]));
    }
  }

  lemma {:induction false} ShowReadsBack(n: nat)
    ensures Show(n) != [] && AllDigits(Show(n)) && LeadingDigits(Show(n), 0) == n
  {
    var c := DigitChar(n % 10);
    assert IsDigit(c) && DigitValue(c) == n % 10;
    if n >= 10 {
      ShowReadsBack(n / 10);
      LeadingDigitsSnoc(Show(n / 10), c, 0);
    } else {
      LeadingDigitsSnoc([], c, 0);
    }
  }

  lemma {:induction false} LeadingDigitsStop(s: string, rest: string, acc: nat)
    requires AllDigits(s) && (rest == [] || !IsDigit(rest[0]))
    ensures LeadingDigits(s + rest, acc) == LeadingDigits(s, acc)
  {
    if s == [] {
      assert s + rest == rest;
    } else {
      assert (s + rest)[1..] == s[1..] + rest;
      LeadingDigitsStop(s[1..], rest, 10 * acc + DigitValue(s[0]));
    }
  }

  lemma {:induction false} AtoiSkipsSpaces(spaces: string, s: string)
    requires forall k | 0 <= k < |spaces| :: IsSpace(spaces[k])
    ensures Atoi(spaces + s) == Atoi(s)
  {
    if spaces == [] {
      assert spaces + s == s;
    } else {
      assert (spaces + s)[1..] == spaces[1..] + s;
      AtoiSkipsSpaces(spaces[1..], s);
    }
  }

  // A sign before a digit.
  lemma AtoiOfSigned(s: string)
    requires s != [] && IsDigit(s[0])
    ensures Atoi(s) == ToInt32(Saturated(LeadingDigits(s, 0))) && Atoi("+" + s) == Atoi(s)
    ensures Atoi("-" + s) == ToInt32(Saturated(-(LeadingDigits(s, 0) as int)))
  {
    assert ("+" + s)[1..] == s && ("-" + s)[1..] == s;
  }

  lemma IntsAreKept(n: int)
    requires IsInt(n)
    ensures ToInt32(Saturated(n)) == n
  {
  }

  /** atoi of a printed number is that number, saturated to 64 bits and reduced to 32. */
  lemma AtoiOfShow(n: nat)
    ensures Atoi(Show(n)) == ToInt32(Saturated(n))
    ensures n < 0x8000_0000 ==> Atoi(Show(n)) == n
  {
    ShowReadsBack(n);
    AtoiOfSigned(Show(n));
    if n < 0x8000_0000 {
      IntsAreKept(n);
    }
  }

  lemma AtoiOfSpaced(spaces: string, s: string)
    requires (forall k | 0 <= k < |spaces| :: IsSpace(spaces[k])) && s != [] && IsDigit(s[0])
    ensures Atoi(spaces + s) == Atoi(spaces + ("+" + s)) == ToInt32(Saturated(LeadingDigits(s, 0)))
    ensures Atoi(spaces + ("-" + s)) == ToInt32(Saturated(-(LeadingDigits(s, 0) as int)))
  {
    AtoiOfSigned(s);
    AtoiSkipsSpaces(spaces, s);
    AtoiSkipsSpaces(spaces, "+" + s);
    AtoiSkipsSpaces(spaces, "-" + s);
  }

  lemma DigitsThenRest(n: nat, rest: string)
    requires rest == [] || !IsDigit(rest[0])
    ensures Show(n) + rest != [] && IsDigit((Show(n) + rest)[0]) && LeadingDigits(Show(n) + rest, 0) == n
  {
    ShowReadsBack(n);
    LeadingDigitsStop(Show(n), rest, 0);
    assert (Show(n) + rest)[0] == Show(n)[0];
  }

  /** atoi skips white space, takes a sign, and stops at the first character that is no digit. */
  lemma AtoiReads(spaces: string, n: int, rest: string, text: string)
    requires forall k | 0 <= k < |spaces| :: spaces[k] == ' ' || '\t' <= spaces[k] <= '\r'
    requires 0 <= n < 0x8000_0000 && (rest == [] || !IsDigit(rest[0])) && text == Show(n) + rest
    ensures Atoi(spaces + text) == n && Atoi(spaces + ("+" + text)) == n && Atoi(spaces + ("-" + text)) == -n
  {
    DigitsThenRest(n, rest);
    AtoiOfSpaced(spaces, text);
    IntsAreKept(n);
    IntsAreKept(-n);
  }

  lemma SubIdIsInjective(a: int, b: int)
    requires IsInt(a) && IsInt(b)
    requires SubId(a) == SubId(b)
    ensures a == b
  {
  }

  // ---- OIDs in text ----

  /** boost::split at dots, keeping empty tokens. */
  function Split(s: string): (tokens: seq<string>)
    ensures tokens != []
  {
    if s == [] then [[]]
    else
      var rest := Split(s[1..]);
      if s[0] == '.' then [[]] + rest else [[s[0]] + rest[0]] + rest[1..]
  }

  function FromTokens(tokens: seq<string>): OID {
    if tokens == [] then []
    else FromTokens(Front(tokens)) + (if Last(tokens) == [] then [] else [SubId(Atoi(Last(tokens)))])
  }

  // The sub-identifiers that append(string) adds.
  function FromText(s: string): OID {
    FromTokens(Split(s))
  }

  function ToText(o: OID): string {
    if o == [] then [] else ToText(Front(o)) + "." + Show(Last(o))
  }

  /** The text of an OID is the text of its parts in order, each sub-identifier after a dot. */
  lemma {:induction false} TextIsDotted(a: OID, b: OID, n: nat)
    ensures ToText([]) == "" && ToText([n]) == "." + Show(n) && ToText(a + b) == ToText(a) + ToText(b)
  {
    assert Front([n]) == [] && Last([n]) == n;
    if b == [] {
      assert a + b == a;
    } else {
      assert Front(a + b) == a + Front(b) && Last(a + b) == Last(b);
      TextIsDotted(a, Front(b), n);
    }
  }

  lemma {:induction false} FromTokensConcat(s: seq<string>, t: seq<string>)
    ensures FromTokens(s + t) == FromTokens(s) + FromTokens(t)
  {
    if t == [] {
      assert s + t == s;
    } else {
      assert Front(s + t) == s + Front(t) && Last(s + t) == Last(t);
      FromTokensConcat(s, Front(t));
    }
  }

  lemma {:induction false} SplitAtDot(a: string, b: string)
    ensures Split(a + "." + b) == Split(a) + Split(b)
  {
    if a == [] {
      assert (a + "." + b)[1..] == b;
    } else {
      assert (a + "." + b)[1..] == a[1..] + "." + b;
      SplitAtDot(a[1..], b);
    }
  }

  /** Appending a dotted pair is appending its two halves. */
  lemma AppendInParts(a: string, b: string)
    ensures FromText(a + "." + b) == FromText(a) + FromText(b)
  {
    SplitAtDot(a, b);
    FromTokensConcat(Split(a), Split(b));
  }

  lemma {:induction false} SplitWithoutDots(s: string)
    requires AllDigits(s)
    ensures Split(s) == [s]
  {
    if s != [] {
      SplitWithoutDots(s[1..]);
      assert s == [s[0]] + s[1..];
    }
  }

  lemma NumberFromText(n: nat)
    ensures FromText(Show(n)) == [SubId(ToInt32(Saturated(n)))]
  {
    ShowReadsBack(n);
    SplitWithoutDots(Show(n));
    AtoiOfShow(n);
    var tokens := [Show(n)];
    assert Front(tokens) == [] && Last(tokens) == Show(n);
    assert FromTokens(tokens) == FromTokens(Front(tokens)) + [SubId(Atoi(Show(n)))];
  }

  lemma {:induction false} TextReadsBackReduced(o: OID)
    ensures FromText(ToText(o)) == seq(|o|, k requires 0 <= k < |o| => SubId(ToInt32(Saturated(o[k]))))
  {
    if o == [] {
      assert Split([]) == [[]] && Front<string>([[]]) == [];
    } else {
      TextReadsBackReduced(Front(o));
      AppendInParts(ToText(Front(o)), Show(Last(o)));
      NumberFromText(Last(o));
    }
  }

  // A sub-identifier that survives printing and reading: one that fits a 32-bit int, or the largest
  // unsigned long, which saturates to the largest long and is then read as -1.
  predicate Survives(n: nat) {
    n < 0x8000_0000 || n == 0xFFFF_FFFF_FFFF_FFFF
  }

  lemma SurvivesExactly(n: nat)
    requires n < 0x1_0000_0000_0000_0000
    ensures SubId(ToInt32(Saturated(n))) == n <==> Survives(n)
  {
  }

  /** Text round trip: reading back the text of an OID (its sub-identifiers are unsigned longs) gives
      the same OID exactly when every sub-identifier fits a 32-bit int or is 2^64 - 1. */
  lemma TextRoundTrip(o: OID)
    requires forall k | 0 <= k < |o| :: o[k] < 0x1_0000_0000_0000_0000
    ensures FromText(ToText(o)) == o <==> forall k | 0 <= k < |o| :: Survives(o[k])
  {
    TextReadsBackReduced(o);
    var back := FromText(ToText(o));
    forall k | 0 <= k < |o|
      ensures back[k] == o[k] <==> Survives(o[k])
    {
      SurvivesExactly(o[k]);
    }
    if back == o {
      forall k | 0 <= k < |o|
        ensures Survives(o[k])
      {
        assert back[k] == o[k];
      }
    }
  }

  lemma OneReadsBackReduced(n: nat)
    ensures FromText(ToText([n])) == [SubId(ToInt32(Saturated(n)))]
  {
    assert Front([n]) == [] && Last([n]) == n && ToText([n]) == "" + "." + Show(n);
    AppendInParts("", Show(n));
    NumberFromText(n);
    TextReadsBackReduced([]);
  }

  lemma ReducedLargeSubId(n: nat)
    ensures 0x8000_0000 <= n < 0x1_0000_0000 ==> SubId(ToInt32(Saturated(n))) == n + 0xFFFF_FFFF_0000_0000
    ensures 0x8000_0000_0000_0000 <= n ==> SubId(ToInt32(Saturated(n))) == 0xFFFF_FFFF_FFFF_FFFF
  {
  }

  /** A sub-identifier from 2^31 up to 2^32 - 1 comes back with its upper 32 bits set, one from 2^63 up
      as 2^64 - 1. */
  lemma LargeSubIdIsChanged(n: nat)
    ensures 0x8000_0000 <= n < 0x1_0000_0000 ==> FromText(ToText([n])) == [n + 0xFFFF_FFFF_0000_0000]
    ensures 0x8000_0000_0000_0000 <= n ==> FromText(ToText([n])) == [0xFFFF_FFFF_FFFF_FFFF]
  {
    OneReadsBackReduced(n);
    ReducedLargeSubId(n);
  }

  /** append(std::string). */
  method AppendString(oids: OID, text: string) returns (oids': OID)
    ensures oids' == oids + FromText(text)
  {
    oids' := oids;
    var tokens := Split(text);
    for n := 0 to |tokens|
      invariant oids' == oids + FromTokens(tokens[..n])
    {
      assert Front(tokens[..n + 1]) == tokens[..n];
      if tokens[n] != [] {
        oids' := oids' + [SubId(Atoi(tokens[n]))];
      }
    }
    assert tokens[..|tokens|] == tokens;
  }

  /** to_string. */
  method ToString(oids: OID) returns (s: string)
    ensures s == ToText(oids)
  {
    s := [];
    for n := 0 to |oids|
      invariant s == ToText(oids[..n])
    {
      assert Front(oids[..n + 1]) == oids[..n];
      s := s + "." + Show(oids[n]);
    }
    assert oids[..|oids|] == oids;
  }

  // ---- internet addresses ----

  /** What setAddr makes of a string. */
  datatype InetAddr = Unknown | V4(octets: seq<nat>) | V6(octets: seq<nat>) {
    predicate IsValid() { !Unknown? }

    predicate WellFormed() {
      match this
      case Unknown => true
      case V4(o) => |o| == 4
      case V6(o) => |o| == 16
    }

    /** toOIDBytes: address type, length and octets (section 4.1 of RFC 4001). */
    function ToOid(): OID {
      match this
      case Unknown => []
      case V4(o) => [1, 4] + o
      case V6(o) => [2, 16] + o
    }
  }

  /** Reads an address index off the front of an OID, as section 4.1 of RFC 4001 gives it: type 1 (ipv4)
      with 4 octets or type 2 (ipv6) with 16, the length before the octets. Also returns what follows. */
  function ReadAddress(o: OID): Option<(InetAddr, OID)> {
    if |o| < 2 then None
    else if o[0] == 1 && o[1] == 4 && |o| >= 6 then Some((V4(o[2..6]), o[6..]))
    else if o[0] == 2 && o[1] == 16 && |o| >= 18 then Some((V6(o[2..18]), o[18..]))
    else None
  }

  /** An address index reads back to its address, whatever follows it. */
  lemma AddressReadsBack(a: InetAddr, x: OID)
    requires a.IsValid() && a.WellFormed()
    ensures ReadAddress(a.ToOid() + x) == Some((a, x))
  {
    var o := a.ToOid() + x;
    assert o[2..|a.octets| + 2] == a.octets && o[|a.octets| + 2..] == x;
  }

  /** OIDInetAddr::toOIDBytes: the bytes pushed for a valid address, none for an unknown one. */
  method ToOidBytes(addr: InetAddr) returns (bytes: seq<nat>)
    requires addr.WellFormed()
    ensures bytes == addr.ToOid()
    ensures if addr.IsValid() then ReadAddress(bytes) == Some((addr, [])) else bytes == []
  {
    if addr.IsValid() {
      AddressReadsBack(addr, []);
      assert addr.ToOid() + [] == addr.ToOid();
    }
    bytes := [];
    if addr.IsValid() {
      var addrLen := if addr.V4? then 4 else 16;
      bytes := bytes + [if addr.V4? then 1 else 2];
      bytes := bytes + [addrLen];
      bytes := bytes + addr.octets;
    }
  }

  /** The C library calls of the message handlers: inet_pton, as setAddr uses it, and atoi. */
  datatype Library = Library(pton: string -> InetAddr, atoi: string -> int)

  // What the handlers rely on: addresses have the right number of octets, and atoi returns an int.
  ghost predicate LibraryOk(lib: Library) {
    && (forall s :: lib.pton(s).WellFormed())
    && (forall s :: IsInt(lib.atoi(s)))
  }

  lemma {:induction false} AtoiIsAnInt(s: string)
    ensures IsInt(Atoi(s))
  {
    if s != [] && IsSpace(s[0]) {
      AtoiIsAnInt(s[1..]);
    }
  }

  lemma AtoiIsOk(pton: string -> InetAddr)
    requires forall s :: pton(s).WellFormed()
    ensures LibraryOk(Library(pton, Atoi))
  {
    forall s: string {
      AtoiIsAnInt(s);
    }
  }

  /** The address index is uniquely decodable, whatever follows it. */
  lemma AddressIsDecodable(a: InetAddr, x: OID, b: InetAddr, y: OID)
    requires a.IsValid() && a.WellFormed() && b.IsValid() && b.WellFormed()
    requires a.ToOid() + x == b.ToOid() + y
    ensures a == b && x == y
  {
    AddressReadsBack(a, x);
    AddressReadsBack(b, y);
  }
}
