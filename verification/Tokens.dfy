/** Session tokens: how claims are written, encoded and signed, and how they are read back. */
module Tokens {
  import opened FileSystem
  import opened Names

  /** A string of bytes, one character each. */
  predicate IsText(s: string) {
    forall i :: 0 <= i < |s| ==> s[i] < 256 as char
  }

  // ----- Base64 for URLs, without padding (section 5 of RFC 4648) -----

  function Sextet(n: nat): char
    requires n < 64
  {
    if n < 26 then 'A' + n as char
    else if n < 52 then 'a' + (n - 26) as char
    else if n < 62 then '0' + (n - 52) as char
    else if n == 62 then '-' else '_'
  }

  function SextetValue(c: char): Option<nat> {
    if 'A' <= c <= 'Z' then Some((c - 'A') as nat)
    else if 'a' <= c <= 'z' then Some((c - 'a') as nat + 26)
    else if '0' <= c <= '9' then Some((c - '0') as nat + 52)
    else if c == '-' then Some(62) else if c == '_' then Some(63) else None
  }

  lemma SextetReadBack(n: nat)
    requires n < 64
    ensures SextetValue(Sextet(n)) == Some(n) && Sextet(n) != '.' && Sextet(n) != '\r' && Sextet(n) != '\n'
  {}

  function Encode(b: Bytes): string {
    if |b| == 0 then ""
    else if |b| == 1 then
      var x := b[0] as nat;
      [Sextet(x / 4), Sextet(x % 4 * 16)]
    else if |b| == 2 then
      var x, y := b[0] as nat, b[1] as nat;
      [Sextet(x / 4), Sextet(x % 4 * 16 + y / 16), Sextet(y % 16 * 4)]
    else
      Group(b[0] as nat, b[1] as nat, b[2] as nat) + Encode(b[3..])
  }

  function Group(x: nat, y: nat, z: nat): string
    requires x < 256 && y < 256 && z < 256
  {
    [Sextet(x / 4), Sextet(x % 4 * 16 + y / 16), Sextet(y % 16 * 4 + z / 64), Sextet(z % 64)]
  }

  /** Line breaks are ignored by the decoder. */
  function WithoutBreaks(s: string): string {
    if s == "" then "" else (if s[0] == '\r' || s[0] == '\n' then "" else [s[0]]) + WithoutBreaks(s[1..])
  }

  function DecodeClean(s: string): Option<Bytes> {
    if |s| == 0 then Some([])
    else if |s| == 1 then None
    else if |s| == 2 then
      match (SextetValue(s[0]), SextetValue(s[1]))
      case (Some(a), Some(b)) => Some([First(a, b)])
      case _ => None
    else if |s| == 3 then
      match (SextetValue(s[0]), SextetValue(s[1]), SextetValue(s[2]))
      case (Some(a), Some(b), Some(c)) => Some([First(a, b), Second(b, c)])
      case _ => None
    else
      match (SextetValue(s[0]), SextetValue(s[1]), SextetValue(s[2]), SextetValue(s[3]), DecodeClean(s[4..]))
      case (Some(a), Some(b), Some(c), Some(d), Some(rest)) => Some([First(a, b), Second(b, c), Third(c, d)] + rest)
      case _ => None
  }

  function First(a: nat, b: nat): byte {
    ((a * 4 + b / 16) % 256) as byte
  }

  function Second(b: nat, c: nat): byte {
    ((b % 16 * 16 + c / 4) % 256) as byte
  }

  function Third(c: nat, d: nat): byte {
    ((c % 4 * 64 + d) % 256) as byte
  }

  function Decode(s: string): Option<Bytes> {
    DecodeClean(WithoutBreaks(s))
  }

  lemma Regroup(x: nat, y: nat, z: nat)
    requires x < 256 && y < 256 && z < 256
    ensures x / 4 < 64 && x % 4 * 16 + y / 16 < 64 && y % 16 * 4 + z / 64 < 64 && z % 64 < 64
    ensures First(x / 4, x % 4 * 16 + y / 16) as nat == x
    ensures Second(x % 4 * 16 + y / 16, y % 16 * 4 + z / 64) as nat == y
    ensures Third(y % 16 * 4 + z / 64, z % 64) as nat == z
  {
    hide First, Second, Third;
    RegroupBounds(x, y, z);
    RegroupFirst(x, y / 16);
    RegroupSecond(x % 4, y, z / 64);
    RegroupThird(y % 16, z);
  }

  lemma RegroupBounds(x: nat, y: nat, z: nat)
    requires x < 256 && y < 256 && z < 256
    ensures x / 4 < 64 && y / 16 < 16 && z / 64 < 4
    ensures x % 4 * 16 + y / 16 < 64 && y % 16 * 4 + z / 64 < 64 && z % 64 < 64
  {}

  lemma RegroupFirst(x: nat, high: nat)
    requires x < 256 && high < 16
    ensures First(x / 4, x % 4 * 16 + high) as nat == x
  {}

  lemma RegroupSecond(low: nat, y: nat, high: nat)
    requires low < 4 && y < 256 && high < 4
    ensures Second(low * 16 + y / 16, y % 16 * 4 + high) as nat == y
  {}

  lemma RegroupThird(low: nat, z: nat)
    requires low < 16 && z < 256
    ensures Third(low * 4 + z / 64, z % 64) as nat == z
  {}

  lemma {:induction false} EncodedIsClean(b: Bytes)
    ensures forall i :: 0 <= i < |Encode(b)| ==> SextetValue(Encode(b)[i]).Some?
    decreases |b|
  {
    if |b| >= 3 { EncodedIsClean(b[3..]); }
  }

  lemma {:induction false} NoBreaks(s: string)
    requires forall i :: 0 <= i < |s| ==> SextetValue(s[i]).Some?
    ensures WithoutBreaks(s) == s
  {
    if s != "" {
      assert SextetValue(s[0]).Some?;
      forall i | 0 <= i < |s[1..]|
        ensures SextetValue(s[1..][i]).Some?
      {
        assert s[1..][i] == s[i + 1];
      }
      NoBreaks(s[1..]);
      assert [s[0]] + s[1..] == s;
    }
  }

  lemma DecodeGroup(x: nat, y: nat, z: nat, rest: string)
    requires x < 256 && y < 256 && z < 256 && DecodeClean(rest).Some?
    ensures DecodeClean(Group(x, y, z) + rest) == Some([x as byte, y as byte, z as byte] + DecodeClean(rest).value)
  {
    hide First, Second, Third, Sextet, SextetValue;
    Regroup(x, y, z);
    SextetReadBack(x / 4);
    SextetReadBack(x % 4 * 16 + y / 16);
    SextetReadBack(y % 16 * 4 + z / 64);
    SextetReadBack(z % 64);
    assert (Group(x, y, z) + rest)[4..] == rest;
  }

  lemma DecodeShort(x: nat, y: nat)
    requires x < 256 && y < 256
    ensures DecodeClean([Sextet(x / 4), Sextet(x % 4 * 16)]) == Some([x as byte])
    ensures DecodeClean([Sextet(x / 4), Sextet(x % 4 * 16 + y / 16), Sextet(y % 16 * 4)]) == Some([x as byte, y as byte])
  {
    hide First, Second, Third, Sextet, SextetValue;
    Regroup(x, 0, 0);
    Regroup(x, y, 0);
    SextetReadBack(x / 4);
    SextetReadBack(x % 4 * 16);
    SextetReadBack(x % 4 * 16 + y / 16);
    SextetReadBack(y % 16 * 4);
  }

  lemma {:induction false} DecodeEncoded(b: Bytes)
    ensures DecodeClean(Encode(b)) == Some(b)
    decreases |b|
  {
    if |b| == 0 { return; }
    hide *;
    if |b| <= 2 {
      DecodeEncodedShort(b);
    } else {
      DecodeEncoded(b[3..]);
      DecodeEncodedLong(b);
    }
  }

  lemma EncodeGroup(b: Bytes)
    requires |b| >= 3
    ensures Encode(b) == Group(b[0] as nat, b[1] as nat, b[2] as nat) + Encode(b[3..])
  {
    hide Group;
  }

  lemma DecodeEncodedShort(b: Bytes)
    requires 1 <= |b| <= 2
    ensures DecodeClean(Encode(b)) == Some(b)
  {
    hide DecodeClean, Sextet;
    DecodeShort(b[0] as nat, if |b| == 2 then b[1] as nat else 0);
    assert |b| == 1 ==> b == [b[0]];
    assert |b| == 2 ==> b == [b[0], b[1]];
  }

  lemma DecodeEncodedLong(b: Bytes)
    requires |b| >= 3 && DecodeClean(Encode(b[3..])) == Some(b[3..])
    ensures DecodeClean(Encode(b)) == Some(b)
  {
    hide *;
    EncodeGroup(b);
    DecodeGroup(b[0] as nat, b[1] as nat, b[2] as nat, Encode(b[3..]));
    assert b == [b[0], b[1], b[2]] + b[3..];
  }

  /** Decoding undoes encoding. */
  lemma DecodeUndoesEncode(b: Bytes)
    ensures Decode(Encode(b)) == Some(b)
    ensures '.' !in Encode(b)
  {
    EncodedIsClean(b);
    NoBreaks(Encode(b));
    DecodeEncoded(b);
    forall c | c in Encode(b)
      ensures c != '.'
    {
      var i :| 0 <= i < |Encode(b)| && Encode(b)[i] == c;
    }
  }

  // ----- Numbers -----

  const MIN_INT64: int := -0x8000_0000_0000_0000
  const MAX_INT64: int := 0x7fff_ffff_ffff_ffff

  function Print(n: int): string {
    if n < 0 then "-" + Decimal(-n) else Decimal(n)
  }

  predicate AllDigits(s: string) {
    forall i :: 0 <= i < |s| ==> '0' <= s[i] <= '9'
  }

  function DigitsValue(s: string): nat
    requires AllDigits(s)
  {
    if s == "" then 0 else DigitsValue(s[..|s| - 1]) * 10 + (s[|s| - 1] - '0') as nat
  }

  /** The number read and whether it was one; out of range it is the nearest bound, and otherwise no number reads as zero. */
  function ParseInt(s: string): (int, bool) {
    var negative := s != "" && s[0] == '-';
    var digits := if s != "" && (s[0] == '-' || s[0] == '+') then s[1..] else s;
    if digits == "" || !AllDigits(digits) then (0, false)
    else
      var v: int := DigitsValue(digits);
      var n := if negative then -v else v;
      if n < MIN_INT64 then (MIN_INT64, false) else if n > MAX_INT64 then (MAX_INT64, false) else (n, true)
  }

  /** The text is a sign, or none, and at least one digit. */
  predicate NumberText(s: string, sign: string, digits: string) {
    sign in {"", "+", "-"} && digits != "" && AllDigits(digits) && s == sign + digits
  }

  function Signed(sign: string, n: int): int {
    if sign == "-" then -n else n
  }

  /** Exactly the 64-bit numbers are read; one out of range reads as the bound beside it, and what is no number as zero. */
  lemma ParsesExactly(s: string)
    ensures forall sign, digits :: NumberText(s, sign, digits) ==>
      var n := Signed(sign, DigitsValue(digits));
      ParseInt(s) == if n < MIN_INT64 then (MIN_INT64, false) else if n > MAX_INT64 then (MAX_INT64, false) else (n, true)
    ensures (forall sign, digits :: !NumberText(s, sign, digits)) ==> ParseInt(s) == (0, false)
  {
    hide DigitsValue;
    forall sign, digits | NumberText(s, sign, digits)
      ensures var n := Signed(sign, DigitsValue(digits));
        ParseInt(s) == if n < MIN_INT64 then (MIN_INT64, false) else if n > MAX_INT64 then (MAX_INT64, false) else (n, true)
    {
      assert '0' <= digits[0] <= '9';
      assert sign == "" ==> s == digits;
      assert sign != "" ==> s[0] == sign[0] && s[1..] == digits;
    }
    if forall sign, digits :: !NumberText(s, sign, digits) {
      assert !NumberText(s, "", s);
      if s != "" {
        assert s == [s[0]] + s[1..];
        assert !NumberText(s, [s[0]], s[1..]);
      }
    }
  }

  lemma {:induction false} DecimalValue(n: nat)
    ensures AllDigits(Decimal(n)) && DigitsValue(Decimal(n)) == n
  {
    DigitChar(n % 10);
    if n >= 10 {
      DecimalValue(n / 10);
      var s := Decimal(n);
      assert s[..|s| - 1] == Decimal(n / 10);
    } else {
      assert Decimal(n)[..0] == "";
    }
  }

  lemma DigitChar(d: nat)
    requires d < 10
    ensures '0' <= Digit(d) <= '9' && (Digit(d) - '0') as nat == d
  {}

  /** Reading undoes printing, and printed numbers have no separator in them. */
  lemma ParsePrinted(n: int)
    ensures MIN_INT64 <= n <= MAX_INT64 ==> ParseInt(Print(n)) == (n, true)
    ensures ':' !in Print(n)
    ensures IsText(Print(n))
  {
    hide Decimal, DigitsValue;
    var d := Decimal(if n < 0 then -n else n);
    DecimalValue(if n < 0 then -n else n);
    if n < 0 { assert Print(n)[1..] == d; }
    assert d[0] != '-' && d[0] != '+';
    forall i | 0 <= i < |Print(n)|
      ensures Print(n)[i] != ':' && Print(n)[i] < 256 as char
    {
      assert n >= 0 ==> Print(n)[i] == d[i];
      assert n < 0 && i > 0 ==> Print(n)[i] == d[i - 1];
    }
  }

  // ----- Separators -----

  /** Cut at separators into at most `n` parts; the last keeps whatever separators are left. */
  function SplitN(s: string, c: char, n: nat): (parts: seq<string>)
    requires n >= 1
    decreases n
  {
    if n == 1 || c !in s then [s]
    else
      var i := IndexOf(s, c);
      [s[..i]] + SplitN(s[i + 1..], c, n - 1)
  }

  function IndexOf(s: string, c: char): (i: nat)
    requires c in s
    ensures i < |s| && s[i] == c && c !in s[..i]
  {
    if s[0] == c then 0
    else
      assert s == [s[0]] + s[1..];
      var i := 1 + IndexOf(s[1..], c);
      assert s[..i] == [s[0]] + s[1..][..i - 1];
      i
  }

  lemma IndexIsFirst(a: string, c: char, b: string)
    requires c !in a
    ensures c in a + [c] + b && IndexOf(a + [c] + b, c) == |a|
  {
    var s := a + [c] + b;
    assert s[|a|] == c;
    var i := IndexOf(s, c);
    assert forall j :: 0 <= j < |a| ==> s[j] == a[j] && a[j] != c;
    assert forall j :: 0 <= j < i ==> s[..i][j] == s[j] && s[j] != c;
  }

  lemma SplitFirst(a: string, c: char, b: string, n: nat)
    requires c !in a && n >= 2
    ensures SplitN(a + [c] + b, c, n) == [a] + SplitN(b, c, n - 1)
  {
    IndexIsFirst(a, c, b);
    var s := a + [c] + b;
    assert s[..|a|] == a && s[|a| + 1..] == b;
  }

  // ----- Signing and verifying -----

  datatype Role = Admin | Readonly

  datatype Claims = Claims(userID: string, role: Role, version: int)

  function RoleName(role: Role): string {
    match role
    case Admin => "admin"
    case Readonly => "readonly"
  }

  function RoleOf(name: string): Option<Role> {
    if name == "admin" then Some(Admin) else if name == "readonly" then Some(Readonly) else None
  }

  function ToBytes(s: string): Bytes
    requires IsText(s)
  {
    seq(|s|, i requires 0 <= i < |s| => (s[i] as int) as byte)
  }

  function ToText(b: Bytes): string {
    seq(|b|, i requires 0 <= i < |b| => (b[i] as int) as char)
  }

  lemma TextReadBack(s: string)
    requires IsText(s)
    ensures ToText(ToBytes(s)) == s
  {}

  function Payload(id: string, role: Role, issued: int, expiry: int, version: int): string {
    id + ":" + (RoleName(role) + ":" + (Print(issued) + ":" + (Print(expiry) + ":" + Print(version))))
  }

  function Expiry(issued: int, remember: bool): int {
    issued + if remember then 7 * 24 * 3600 else 3600
  }

  lemma PayloadIsText(id: string, role: Role, issued: int, expiry: int, version: int)
    requires IsText(id)
    ensures IsText(Payload(id, role, issued, expiry, version))
  {
    hide Print, RoleName;
    assert IsText(RoleName(role)) by { RoleIsText(role); }
    ParsePrinted(issued);
    ParsePrinted(expiry);
    ParsePrinted(version);
    TextAppend(Print(expiry), Print(version));
    TextAppend(Print(issued), Print(expiry) + ":" + Print(version));
    TextAppend(RoleName(role), Print(issued) + ":" + (Print(expiry) + ":" + Print(version)));
    TextAppend(id, RoleName(role) + ":" + (Print(issued) + ":" + (Print(expiry) + ":" + Print(version))));
  }

  lemma RoleIsText(role: Role)
    ensures IsText(RoleName(role)) && ':' !in RoleName(role) && RoleOf(RoleName(role)) == Some(role)
  {}

  lemma TextAppend(a: string, b: string)
    requires IsText(a) && IsText(b)
    ensures IsText(a + ":" + b)
  {
    forall i | 0 <= i < |a + ":" + b|
      ensures (a + ":" + b)[i] < 256 as char
    {
      if i < |a| {
        assert (a + ":" + b)[i] == a[i];
      } else if i > |a| {
        assert (a + ":" + b)[i] == b[i - |a| - 1];
      }
    }
  }

  function Sign(mac: Bytes -> Bytes, id: string, role: Role, issued: int, remember: bool, version: int): string
    requires IsText(id)
  {
    PayloadIsText(id, role, issued, Expiry(issued, remember), version);
    var payload := ToBytes(Payload(id, role, issued, Expiry(issued, remember), version));
    Encode(payload) + "." + Encode(mac(payload))
  }

  /** The claims of a payload that is rightly signed and not expired. */
  function ReadClaims(payload: string, now: int): Option<Claims> {
    var parts := SplitN(payload, ':', 5);
    if |parts| != 5 then None
    else
      var expiry := ParseInt(parts[3]);
      if !expiry.1 || now > expiry.0 || RoleOf(parts[1]).None? then None
      else Some(Claims(parts[0], RoleOf(parts[1]).value, ParseInt(parts[4]).0))
  }

  function Verify(mac: Bytes -> Bytes, value: string, now: int): Option<Claims> {
    if '.' !in value then None
    else
      var i := IndexOf(value, '.');
      match (Decode(value[..i]), Decode(value[i + 1..]))
      case (Some(payload), Some(signature)) =>
        if signature != mac(payload) then None else ReadClaims(ToText(payload), now)
      case _ => None
  }

  lemma VerifySigned(mac: Bytes -> Bytes, id: string, role: Role, issued: int, remember: bool, version: int, now: int)
    requires IsText(id)
    ensures Verify(mac, Sign(mac, id, role, issued, remember, version), now) ==
      ReadClaims(Payload(id, role, issued, Expiry(issued, remember), version), now)
  {
    hide Payload, Encode, Decode, ReadClaims;
    PayloadIsText(id, role, issued, Expiry(issued, remember), version);
    var text := Payload(id, role, issued, Expiry(issued, remember), version);
    var payload := ToBytes(text);
    var a, b := Encode(payload), Encode(mac(payload));
    DecodeUndoesEncode(payload);
    DecodeUndoesEncode(mac(payload));
    IndexIsFirst(a, '.', b);
    var value := a + "." + b;
    assert value[..|a|] == a && value[|a| + 1..] == b;
    TextReadBack(text);
  }

  lemma SplitPayload(id: string, role: Role, issued: int, expiry: int, version: int)
    requires ':' !in id
    ensures SplitN(Payload(id, role, issued, expiry, version), ':', 5) ==
      [id, RoleName(role), Print(issued), Print(expiry), Print(version)]
  {
    hide Print, RoleName, SplitN;
    RoleIsText(role);
    ParsePrinted(issued);
    ParsePrinted(expiry);
    ParsePrinted(version);
    var d := Print(expiry) + ":" + Print(version);
    var c := Print(issued) + ":" + d;
    var b := RoleName(role) + ":" + c;
    SplitFirst(id, ':', b, 5);
    SplitFirst(RoleName(role), ':', c, 4);
    SplitFirst(Print(issued), ':', d, 3);
    SplitFirst(Print(expiry), ':', Print(version), 2);
    SplitLast(Print(version));
  }

  lemma SplitLast(s: string)
    ensures SplitN(s, ':', 1) == [s]
  {}

  lemma FirstPartIsFree(s: string)
    ensures |SplitN(s, ':', 5)| > 1 ==> ':' !in SplitN(s, ':', 5)[0]
  {}

  // ----- What is accepted at all -----

  predicate Halves(value: string, a: string, b: string) {
    '.' !in a && value == a + "." + b
  }

  /** The text is five fields; those of the claims are as given, and the others have no separator. */
  predicate Fields(text: string, id: string, role: Role, issued: string, expiry: string, version: string) {
    && ':' !in id && ':' !in issued && ':' !in expiry
    && text == id + ":" + (RoleName(role) + ":" + (issued + ":" + (expiry + ":" + version)))
  }

  ghost predicate Says(text: string, now: int, c: Claims) {
    exists issued, expiry, version :: Fields(text, c.userID, c.role, issued, expiry, version) &&
      ParseInt(expiry).1 && now <= ParseInt(expiry).0 && ParseInt(version).0 == c.version
  }

  /** The value shows the MAC of a payload that states the claims and has not expired. */
  ghost predicate Vouches(mac: Bytes -> Bytes, value: string, now: int, c: Claims) {
    exists a, b :: Halves(value, a, b) && Decode(a).Some? && Decode(b) == Some(mac(Decode(a).value)) &&
      Says(ToText(Decode(a).value), now, c)
  }

  /** Claims are accepted exactly from a value that shows the MAC of a payload that states them, and only until it expires. */
  lemma VerifiesExactly(mac: Bytes -> Bytes, value: string, now: int, c: Claims)
    ensures Verify(mac, value, now) == Some(c) <==> Vouches(mac, value, now, c)
  {
    hide Decode, ReadClaims, ToText, Says;
    if '.' in value {
      var i := IndexOf(value, '.');
      assert Halves(value, value[..i], value[i + 1..]);
      if Decode(value[..i]).Some? { ReadsExactly(ToText(Decode(value[..i]).value), now, c); }
    }
    forall a, b | Halves(value, a, b)
      ensures '.' in value && value[..IndexOf(value, '.')] == a && value[IndexOf(value, '.') + 1..] == b
    {
      IndexIsFirst(a, '.', b);
    }
  }

  lemma ReadsExactly(text: string, now: int, c: Claims)
    ensures ReadClaims(text, now) == Some(c) <==> Says(text, now, c)
  {
    hide ParseInt, SplitN;
    var parts := SplitN(text, ':', 5);
    if ReadClaims(text, now) == Some(c) {
      JoinSplit(text, ':', 5);
      JoinFive(parts);
      assert parts[1] == RoleName(c.role);
      assert Fields(text, c.userID, c.role, parts[2], parts[3], parts[4]);
    }
    if Says(text, now, c) {
      var issued, expiry, version :| Fields(text, c.userID, c.role, issued, expiry, version) &&
        ParseInt(expiry).1 && now <= ParseInt(expiry).0 && ParseInt(version).0 == c.version;
      FiveFields(c.userID, RoleName(c.role), issued, expiry, version);
      RoleIsText(c.role);
    }
  }

  lemma FiveFields(a: string, b: string, c: string, d: string, e: string)
    requires ':' !in a && ':' !in b && ':' !in c && ':' !in d
    ensures SplitN(a + ":" + (b + ":" + (c + ":" + (d + ":" + e))), ':', 5) == [a, b, c, d, e]
  {
    hide SplitN;
    SplitFirst(a, ':', b + ":" + (c + ":" + (d + ":" + e)), 5);
    SplitFirst(b, ':', c + ":" + (d + ":" + e), 4);
    SplitFirst(c, ':', d + ":" + e, 3);
    SplitFirst(d, ':', e, 2);
    SplitLast(e);
  }

  /** The parts with a separator between each two. */
  function Joined(parts: seq<string>, c: char): string {
    if parts == [] then "" else if |parts| == 1 then parts[0] else parts[0] + [c] + Joined(parts[1..], c)
  }

  /** Joining undoes splitting, and only the last part keeps separators. */
  lemma {:induction false} JoinSplit(s: string, c: char, n: nat)
    requires n >= 1
    ensures var parts := SplitN(s, c, n);
      && parts != [] && s == Joined(parts, c) && forall i :: 0 <= i < |parts| - 1 ==> c !in parts[i]
    decreases n
  {
    if n > 1 && c in s {
      var i := IndexOf(s, c);
      JoinSplit(s[i + 1..], c, n - 1);
      var parts := SplitN(s, c, n);
      assert parts[1..] == SplitN(s[i + 1..], c, n - 1);
      assert s == s[..i] + [c] + s[i + 1..];
      forall k | 0 <= k < |parts| - 1
        ensures c !in parts[k]
      {
        if k > 0 { assert parts[k] == parts[1..][k - 1]; }
      }
    }
  }

  lemma JoinFive(parts: seq<string>)
    requires |parts| == 5
    ensures Joined(parts, ':') == parts[0] + ":" + (parts[1] + ":" + (parts[2] + ":" + (parts[3] + ":" + parts[4])))
  {
    var q, r, t, u := parts[1..], parts[2..], parts[3..], parts[4..];
    assert q[1..] == r && r[1..] == t && t[1..] == u;
    assert Joined(u, ':') == parts[4];
    assert Joined(t, ':') == parts[3] + ":" + parts[4];
    assert Joined(r, ':') == parts[2] + ":" + (parts[3] + ":" + parts[4]);
    assert Joined(q, ':') == parts[1] + ":" + (parts[2] + ":" + (parts[3] + ":" + parts[4]));
  }

  /**
   A signed token is read back as what was signed, exactly until its expiry second and exactly for user ids without
   the separator: an hour after it was signed, or seven days.
   */
  lemma VerifyUndoesSign(mac: Bytes -> Bytes, id: string, role: Role, issued: int, remember: bool, version: int, now: int)
    requires IsText(id)
    requires MIN_INT64 <= version <= MAX_INT64 && MIN_INT64 <= Expiry(issued, remember) <= MAX_INT64
    ensures Verify(mac, Sign(mac, id, role, issued, remember, version), now) == Some(Claims(id, role, version)) <==>
      ':' !in id && now <= issued + (if remember then 604800 else 3600)
  {
    hide Sign, Verify, Payload, SplitN, ParseInt, Print;
    VerifySigned(mac, id, role, issued, remember, version, now);
    var expiry := Expiry(issued, remember);
    if ':' in id {
      FirstPartIsFree(Payload(id, role, issued, expiry, version));
    } else {
      SplitPayload(id, role, issued, expiry, version);
      RoleIsText(role);
      ParsePrinted(expiry);
      ParsePrinted(version);
    }
  }

  /** Without the separator, an expired token is not read back at all. */
  lemma SignedReadsAs(mac: Bytes -> Bytes, id: string, role: Role, issued: int, remember: bool, version: int, now: int)
    requires IsText(id) && ':' !in id
    requires MIN_INT64 <= version <= MAX_INT64 && MIN_INT64 <= Expiry(issued, remember) <= MAX_INT64
    ensures Verify(mac, Sign(mac, id, role, issued, remember, version), now) ==
      if now <= issued + (if remember then 604800 else 3600) then Some(Claims(id, role, version)) else None
  {
    hide Sign, Verify, Payload, SplitN, ParseInt, Print;
    VerifySigned(mac, id, role, issued, remember, version, now);
    SplitPayload(id, role, issued, Expiry(issued, remember), version);
    RoleIsText(role);
    ParsePrinted(Expiry(issued, remember));
    ParsePrinted(version);
  }
}
