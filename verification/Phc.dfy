/** The PHC password string: printer, parser and password check (control-plane/internal/auth/password.go).
    Base64 is the unpadded alphabet of RFC 4648, sections 3.2 and 4; Argon2id is a parameter. */
module Phc {
  import opened Text

  type byte = n: nat | n < 256
  type u32 = n: nat | n < 0x1_0000_0000
  type u8 = n: nat | n < 256

  // ---- Decimal numbers ----

  predicate IsDigit(c: char) {
    '0' <= c <= '9'
  }

  function Digit(d: nat): char
    requires d < 10
  {
    '0' + d as char
  }

  function Decimal(n: nat): string {
    if n < 10 then [Digit(n)] else Decimal(n / 10) + [Digit(n % 10)]
  }

  /** Reads digits as far as they go, on top of what was read before. */
  function ScanDigits(s: string, before: nat): (nat, string) {
    if s == "" || !IsDigit(s[0]) then (before, s)
    else ScanDigits(s[1..], before * 10 + (s[0] as nat - '0' as nat))
  }

  function SkipBlanks(s: string): string {
    if s != "" && (s[0] == ' ' || s[0] == '\t') then SkipBlanks(s[1..]) else s
  }

  /** One `%d` of Sscanf into an unsigned integer: the value and the text left over. */
  function ScanUint(s: string, limit: nat): Option<(nat, string)> {
    var t := SkipBlanks(s);
    if t == "" || !IsDigit(t[0]) then None
    else
      var (n, rest) := ScanDigits(t, 0);
      if n < limit then Some((n, rest)) else None
  }

  /** One `%d` of Sscanf into a signed 64-bit integer. */
  function ScanInt(s: string): Option<(int, string)> {
    var t := SkipBlanks(s);
    var negative := t != "" && t[0] == '-';
    var digits := if t != "" && (t[0] == '-' || t[0] == '+') then t[1..] else t;
    if digits == "" || !IsDigit(digits[0]) then None
    else
      var (n, rest) := ScanDigits(digits, 0);
      var value := if negative then 0 - (n as int) else n as int;
      if -0x8000_0000_0000_0000 <= value < 0x8000_0000_0000_0000 then Some((value, rest)) else None
  }

  lemma {:induction false} DecimalShape(n: nat)
    ensures |Decimal(n)| > 0 && forall i | 0 <= i < |Decimal(n)| :: IsDigit(Decimal(n)[i])
  {
    if n >= 10 {
      DecimalShape(n / 10);
    }
  }

  /** The number that a text of decimal digits stands for. */
  function Value(s: string): int {
    if s == "" then 0 else Value(s[..|s| - 1]) * 10 + (s[|s| - 1] as int - '0' as int)
  }

  /** A printed number consists of digits, stands for the number, and has no leading zero. */
  lemma {:induction false} DecimalStandsFor(n: nat)
    ensures Value(Decimal(n)) == n
    ensures Decimal(n) != "" && forall i | 0 <= i < |Decimal(n)| :: '0' <= Decimal(n)[i] <= '9'
    ensures Decimal(n)[0] == '0' ==> n == 0 && Decimal(n) == "0"
  {
    if n < 10 {
      assert Decimal(n)[..0] == "";
    } else {
      DecimalStandsFor(n / 10);
      assert Decimal(n)[..|Decimal(n)| - 1] == Decimal(n / 10);
      assert Decimal(n)[0] == Decimal(n / 10)[0];
    }
  }

  predicate Digits(s: string) {
    s != "" && forall i | 0 <= i < |s| :: '0' <= s[i] <= '9'
  }

  /** A number ends where its digits end. */
  predicate Ends(rest: string) {
    rest == "" || !('0' <= rest[0] <= '9')
  }

  lemma ValueAppend(s: string, c: char)
    ensures Value(s + [c]) == Value(s) * 10 + (c as int - '0' as int)
  {
    assert (s + [c])[..|s|] == s;
  }

  lemma ScanStep(s: string, before: nat)
    requires s != "" && IsDigit(s[0])
    ensures ScanDigits(s, before) == ScanDigits(s[1..], before * 10 + (s[0] as nat - '0' as nat))
  {
  }

  /** Scanning reads off a run of digits, leading zeros and all, and the number it stands for. */
  lemma {:induction false} ScanRun(read: string, d: string, rest: string)
    requires (forall i | 0 <= i < |d| :: '0' <= d[i] <= '9') && Ends(rest) && Value(read) >= 0
    ensures Value(read + d) >= 0 && ScanDigits(d + rest, Value(read)) == (Value(read + d), rest)
    decreases d
  {
    if d == "" {
      assert read + d == read && d + rest == rest;
    } else {
      var next, s := read + [d[0]], d + rest;
      ValueAppend(read, d[0]);
      assert s[0] == d[0] && s[1..] == d[1..] + rest;
      ScanStep(s, Value(read));
      ScanRun(next, d[1..], rest);
      assert next + d[1..] == read + d;
    }
  }

  lemma ScanUintRun(d: string, rest: string, limit: nat)
    requires Digits(d) && Ends(rest)
    ensures Value(d) >= 0 && ScanUint(d + rest, limit) == if Value(d) < limit then Some((Value(d), rest)) else None
  {
    FirstIsDigit(d, rest);
    ScanRun("", d, rest);
    assert "" + d == d;
  }

  /** Scanning a printed number reads the number off and goes on behind it. */
  lemma {:induction false} ScanPrinted(n: nat, rest: string)
    ensures ScanDigits(Decimal(n) + rest, 0) == ScanDigits(rest, n)
  {
    if n < 10 {
      assert (Decimal(n) + rest)[1..] == rest;
    } else {
      var tail := [Digit(n % 10)] + rest;
      assert Decimal(n) + rest == Decimal(n / 10) + tail;
      ScanPrinted(n / 10, tail);
      assert tail[1..] == rest;
    }
  }

  lemma ScanUintPrinted(n: nat, rest: string, limit: nat)
    requires n < limit && (rest == "" || !IsDigit(rest[0]))
    ensures ScanUint(Decimal(n) + rest, limit) == Some((n, rest))
  {
    DecimalShape(n);
    ScanPrinted(n, rest);
    assert (Decimal(n) + rest)[0] == Decimal(n)[0];
  }

  // ---- Unpadded base64 ----

  type sextet = n: nat | n < 64

  function Symbol(v: sextet): char {
    if v < 26 then 'A' + v as char
    else if v < 52 then 'a' + (v - 26) as char
    else if v < 62 then '0' + (v - 52) as char
    else if v == 62 then '+' else '/'
  }

  function Sextet(c: char): Option<sextet> {
    if 'A' <= c <= 'Z' then Some(c as nat - 'A' as nat)
    else if 'a' <= c <= 'z' then Some(c as nat - 'a' as nat + 26)
    else if '0' <= c <= '9' then Some(c as nat - '0' as nat + 52)
    else if c == '+' then Some(62)
    else if c == '/' then Some(63)
    else None
  }

  /** Three bytes make four sextets; one or two bytes at the end make two or three, padded with zero bits. */
  function ToSextets(b: seq<byte>): seq<sextet> {
    if |b| == 0 then []
    else if |b| == 1 then [b[0] / 4, b[0] % 4 * 16]
    else if |b| == 2 then [b[0] / 4, b[0] % 4 * 16 + b[1] / 16, b[1] % 16 * 4]
    else [b[0] / 4, b[0] % 4 * 16 + b[1] / 16, b[1] % 16 * 4 + b[2] / 64, b[2] % 64] + ToSextets(b[3..])
  }

  /** Left-over low bits are ignored; a single left-over sextet is an error. */
  function FromSextets(v: seq<sextet>): Option<seq<byte>> {
    if |v| == 0 then Some([])
    else if |v| == 1 then None
    else if |v| == 2 then Some([FirstByte(v[0], v[1])])
    else if |v| == 3 then Some([FirstByte(v[0], v[1]), SecondByte(v[1], v[2])])
    else
      match FromSextets(v[4..])
      case None => None
      case Some(rest) => Some([FirstByte(v[0], v[1]), SecondByte(v[1], v[2]), ThirdByte(v[2], v[3])] + rest)
  }

  function FirstByte(v0: nat, v1: nat): byte
    requires v0 < 64 && v1 < 64
  {
    v0 * 4 + v1 / 16
  }

  function SecondByte(v1: nat, v2: nat): byte
    requires v1 < 64 && v2 < 64
  {
    v1 % 16 * 16 + v2 / 4
  }

  function ThirdByte(v2: nat, v3: nat): byte
    requires v2 < 64 && v3 < 64
  {
    v2 % 4 * 64 + v3
  }

  function Symbols(v: seq<sextet>): string {
    if v == [] then "" else [Symbol(v[0])] + Symbols(v[1..])
  }

  /** The decoder skips line breaks and refuses every other character outside the alphabet. */
  function ReadSextets(s: string): Option<seq<sextet>> {
    if s == "" then Some([])
    else if s[0] == '\r' || s[0] == '\n' then ReadSextets(s[1..])
    else
      var v, rest := Sextet(s[0]), ReadSextets(s[1..]);
      if v.None? || rest.None? then None else Some([v.value] + rest.value)
  }

  function Base64(b: seq<byte>): string {
    Symbols(ToSextets(b))
  }

  function Unbase64(s: string): Option<seq<byte>> {
    match ReadSextets(s)
    case None => None
    case Some(v) => FromSextets(v)
  }

  lemma SymbolSextet(v: sextet)
    ensures Sextet(Symbol(v)) == Some(v)
    ensures Symbol(v) != '$' && Symbol(v) != '\n' && Symbol(v) != '\r'
  {
  }

  lemma ReadFirst(c: char, v: sextet, rest: string)
    requires Sextet(c) == Some(v) && c != '\r' && c != '\n' && ReadSextets(rest).Some?
    ensures ReadSextets([c] + rest) == Some([v] + ReadSextets(rest).value)
  {
    assert ([c] + rest)[1..] == rest;
  }

  lemma {:induction false} SymbolsRoundTrip(v: seq<sextet>)
    ensures ReadSextets(Symbols(v)) == Some(v)
    ensures Plain(Symbols(v))
  {
    if v != [] {
      var first, rest := Symbol(v[0]), Symbols(v[1..]);
      SymbolSextet(v[0]);
      SymbolsRoundTrip(v[1..]);
      ReadFirst(first, v[0], rest);
      assert Symbols(v) == [first] + rest;
      assert v == [v[0]] + v[1..];
    }
  }

  /** No dollar sign and no line feed. */
  predicate Plain(s: string) {
    forall i | 0 <= i < |s| :: s[i] != '$' && s[i] != '\n'
  }

  /** Three bytes, cut into four sextets and put together again. */
  lemma BytesFromSextets(b0: byte, b1: byte, b2: byte)
    ensures FirstByte(b0 / 4, b0 % 4 * 16 + b1 / 16) == b0
    ensures SecondByte(b0 % 4 * 16 + b1 / 16, b1 % 16 * 4 + b2 / 64) == b1
    ensures ThirdByte(b1 % 16 * 4 + b2 / 64, b2 % 64) == b2
  {
  }

  lemma FirstGroup(v0: sextet, v1: sextet, v2: sextet, v3: sextet, tail: seq<sextet>, rest: seq<byte>)
    requires FromSextets(tail) == Some(rest)
    ensures FromSextets([v0, v1, v2, v3] + tail)
            == Some([FirstByte(v0, v1), SecondByte(v1, v2), ThirdByte(v2, v3)] + rest)
  {
    assert ([v0, v1, v2, v3] + tail)[4..] == tail;
  }

  lemma OneByte(b0: byte)
    ensures FromSextets(ToSextets([b0])) == Some([b0])
  {
    var v0, v1 := b0 / 4, b0 % 4 * 16;
    assert FirstByte(v0, v1) == b0;
    assert ToSextets([b0]) == [v0, v1];
    assert FromSextets([v0, v1]) == Some([FirstByte(v0, v1)]);
  }

  lemma TwoBytes(b0: byte, b1: byte)
    ensures FromSextets(ToSextets([b0, b1])) == Some([b0, b1])
  {
    var v0, v1, v2 := b0 / 4, b0 % 4 * 16 + b1 / 16, b1 % 16 * 4;
    assert FirstByte(v0, v1) == b0 && SecondByte(v1, v2) == b1;
    assert ToSextets([b0, b1]) == [v0, v1, v2];
    assert FromSextets([v0, v1, v2]) == Some([FirstByte(v0, v1), SecondByte(v1, v2)]);
  }

  lemma SmallRoundTrip(b: seq<byte>, size: nat)
    requires |b| == size < 3
    ensures FromSextets(ToSextets(b)) == Some(b)
  {
    match size
    case 0 =>
      assert b == [];
    case 1 =>
      var x := b[0];
      assert b == [x];
      OneByte(x);
    case _ =>
      var x, y := b[0], b[1];
      assert b == [x, y];
      TwoBytes(x, y);
  }

  lemma ThreeBytes(x: byte, y: byte, z: byte, rest: seq<byte>)
    requires FromSextets(ToSextets(rest)) == Some(rest)
    ensures FromSextets(ToSextets([x, y, z] + rest)) == Some([x, y, z] + rest)
  {
    var b := [x, y, z] + rest;
    var v0, v1, v2, v3 := x / 4, x % 4 * 16 + y / 16, y % 16 * 4 + z / 64, z % 64;
    assert b[3..] == rest;
    assert ToSextets(b) == [v0, v1, v2, v3] + ToSextets(rest);
    BytesFromSextets(x, y, z);
    FirstGroup(v0, v1, v2, v3, ToSextets(rest), rest);
  }

  lemma {:induction false} SextetsRoundTrip(b: seq<byte>)
    ensures FromSextets(ToSextets(b)) == Some(b)
  {
    if |b| < 3 {
      SmallRoundTrip(b, |b|);
    } else {
      var rest := b[3..];
      SextetsRoundTrip(rest);
      assert b == [b[0], b[1], b[2]] + rest;
      ThreeBytes(b[0], b[1], b[2], rest);
    }
  }

  /** The alphabet of table 1 in section 4 of RFC 4648. */
  lemma SymbolIs(v: sextet)
    ensures v < 26 ==> Symbol(v) == "ABCDEFGHIJKLMNOPQRSTUVWXYZ"[v]
    ensures 26 <= v < 52 ==> Symbol(v) == "abcdefghijklmnopqrstuvwxyz"[v - 26]
    ensures 52 <= v < 62 ==> Symbol(v) == "0123456789"[v - 52]
    ensures v == 62 ==> Symbol(v) == '+'
    ensures v == 63 ==> Symbol(v) == '/'
  {
    if v < 26 {
      CapitalIs(v);
    } else if v < 52 {
      SmallIs(v - 26);
    }
  }

  lemma CapitalIs(v: nat)
    requires v < 26
    ensures "ABCDEFGHIJKLMNOPQRSTUVWXYZ"[v] == 'A' + v as char
  {
  }

  lemma SmallIs(v: nat)
    requires v < 26
    ensures "abcdefghijklmnopqrstuvwxyz"[v] == 'a' + v as char
  {
  }

  /** Three bytes are one number of 24 bits, written as four digits to the base of 64; at the end one or two bytes
      are filled up with zero bits to two or three digits. */
  lemma SextetGroups(b: seq<byte>)
    ensures |b| == 0 ==> ToSextets(b) == []
    ensures |b| == 1 ==>
              var v := ToSextets(b);
              |v| == 2 && v[0] as int * 64 + v[1] as int == b[0] as int * 16
    ensures |b| == 2 ==>
              var v := ToSextets(b);
              |v| == 3 && (v[0] as int * 64 + v[1] as int) * 64 + v[2] as int == (b[0] as int * 256 + b[1] as int) * 4
    ensures |b| >= 3 ==>
              var v := ToSextets(b);
              && |v| >= 4 && v[4..] == ToSextets(b[3..])
              && ((v[0] as int * 64 + v[1] as int) * 64 + v[2] as int) * 64 + v[3] as int
                 == (b[0] as int * 256 + b[1] as int) * 256 + b[2] as int
  {
  }

  /** The printed text has one symbol for every digit to the base of 64. */
  lemma Base64Symbols(b: seq<byte>)
    ensures |Base64(b)| == |ToSextets(b)|
    ensures forall i | 0 <= i < |ToSextets(b)| :: Base64(b)[i] == Symbol(ToSextets(b)[i])
  {
    SymbolsOf(ToSextets(b));
  }

  lemma {:induction false} SymbolsOf(v: seq<sextet>)
    ensures |Symbols(v)| == |v| && forall i | 0 <= i < |v| :: Symbols(v)[i] == Symbol(v[i])
  {
    if v != [] {
      SymbolsOf(v[1..]);
    }
  }

  predicate IsBreak(c: char) {
    c == '\r' || c == '\n'
  }

  predicate IsSymbol(c: char) {
    'A' <= c <= 'Z' || 'a' <= c <= 'z' || '0' <= c <= '9' || c == '+' || c == '/'
  }

  function WithoutBreaks(s: string): string {
    if s == "" then "" else (if IsBreak(s[0]) then "" else [s[0]]) + WithoutBreaks(s[1..])
  }

  /** What can be decoded: symbols of the alphabet, with line breaks anywhere, unless a single symbol is left over
      after the groups of four. */
  lemma DecodableIff(s: string)
    ensures Unbase64(s).Some? <==>
            (forall i | 0 <= i < |s| :: IsBreak(s[i]) || IsSymbol(s[i])) && |WithoutBreaks(s)| % 4 != 1
    ensures Unbase64(s) == Unbase64(WithoutBreaks(s))
  {
    ReadableIff(s);
    if ReadSextets(s).Some? {
      WholeGroupsIff(ReadSextets(s).value);
    }
  }

  lemma {:induction false} ReadableIff(s: string)
    ensures ReadSextets(s).Some? <==> forall i | 0 <= i < |s| :: IsBreak(s[i]) || IsSymbol(s[i])
    ensures ReadSextets(s).Some? ==> |ReadSextets(s).value| == |WithoutBreaks(s)|
    ensures ReadSextets(WithoutBreaks(s)) == ReadSextets(s)
  {
    if s != "" {
      ReadableIff(s[1..]);
      assert s == [s[0]] + s[1..];
      if IsBreak(s[0]) {
        assert WithoutBreaks(s) == WithoutBreaks(s[1..]);
      } else {
        assert WithoutBreaks(s)[0] == s[0] && WithoutBreaks(s)[1..] == WithoutBreaks(s[1..]);
      }
    }
  }

  lemma {:induction false} WholeGroupsIff(v: seq<sextet>)
    ensures FromSextets(v).Some? <==> |v| % 4 != 1
  {
    if |v| >= 4 {
      var n := |v| - 4;
      assert |v[4..]| == n && (n + 4) % 4 == n % 4;
      WholeGroupsIff(v[4..]);
    }
  }

  /** Decoding undoes encoding, for all byte strings. */
  lemma Base64RoundTrips(b: seq<byte>)
    ensures Unbase64(Base64(b)) == Some(b)
    ensures Plain(Base64(b))
  {
    SymbolsRoundTrip(ToSextets(b));
    SextetsRoundTrip(b);
  }

  // ---- The PHC string ----

  const ARGON2_VERSION := 19

  datatype Argon2Params = Argon2Params(
    memory: u32, iterations: u32, parallelism: u8, saltLength: u32, keyLength: u32)

  const DEFAULT_PARAMS := Argon2Params(64 * 1024, 3, 4, 16, 32)

  datatype HashError = InvalidHash | IncompatibleVersion

  /** Argon2id: password, salt, iterations, memory, parallelism and key length. */
  type Kdf = (string, seq<byte>, u32, u32, u8, u32) -> seq<byte>

  function VersionText(): string {
    "v=" + Decimal(ARGON2_VERSION)
  }

  function CostText(p: Argon2Params): string {
    "m=" + Decimal(p.memory) + ",t=" + Decimal(p.iterations) + ",p=" + Decimal(p.parallelism)
  }

  function Encode(p: Argon2Params, salt: seq<byte>, key: seq<byte>): string {
    "$argon2id$" + VersionText() + "$" + CostText(p) + "$" + Base64(salt) + "$" + Base64(key)
  }

  /** `salt` is what the random source gave, or None when it failed. */
  function HashPassword(
      kdf: Kdf, password: string, params: Option<Argon2Params>, salt: Option<seq<byte>>): Option<string>
  {
    var p := if params.Some? then params.value else DEFAULT_PARAMS;
    if salt.None? then None
    else
      Some(Encode(p, salt.value, kdf(password, salt.value, p.iterations, p.memory, p.parallelism, p.keyLength)))
  }

  /** Literal text and then one `%d`. */
  function ScanField(s: string, literal: string, limit: nat): Option<(nat, string)> {
    if HasPrefix(s, literal) then ScanUint(s[|literal|..], limit) else None
  }

  /** `m=%d,t=%d,p=%d`; text behind the last number is ignored. */
  function ScanCosts(s: string): Option<(nat, nat, nat)> {
    var m := ScanField(s, "m=", 0x1_0000_0000);
    if m.None? then None
    else
      var t := ScanField(m.value.1, ",t=", 0x1_0000_0000);
      if t.None? then None
      else
        var p := ScanField(t.value.1, ",p=", 256);
        if p.None? then None else Some((m.value.0, t.value.0, p.value.0))
  }

  lemma CostsInRange(s: string)
    ensures ScanCosts(s).Some? ==> InRange(ScanCosts(s).value)
  {
  }

  function ScanVersion(s: string): Option<int> {
    if !HasPrefix(s, "v=") then None
    else
      var v := ScanInt(s[2..]);
      if v.None? then None else Some(v.value.0)
  }

  /** A version is any run of digits that fits 64 bits; what follows it is ignored. */
  lemma VersionRead(d: string, rest: string)
    requires Digits(d) && Ends(rest)
    ensures Value(d) >= 0
    ensures ScanVersion("v=" + d + rest) == if Value(d) < 0x8000_0000_0000_0000 then Some(Value(d)) else None
  {
    ScanIntRun(d, rest);
    var s := "v=" + d + rest;
    assert s[..2] == "v=" && s[2..] == d + rest;
  }

  lemma ScanIntRun(d: string, rest: string)
    requires Digits(d) && Ends(rest)
    ensures Value(d) >= 0
    ensures ScanInt(d + rest) == if Value(d) < 0x8000_0000_0000_0000 then Some((Value(d), rest)) else None
  {
    var s := d + rest;
    FirstIsDigit(d, rest);
    ScanRun("", d, rest);
    assert "" + d == d && Value("") == 0;
    assert ScanDigits(s, 0) == (Value(d) as nat, rest);
    assert s[0] != '-' && s[0] != '+';
  }

  lemma FirstIsDigit(d: string, rest: string)
    requires Digits(d)
    ensures d + rest != "" && (d + rest)[0] == d[0] && IsDigit(d[0])
    ensures SkipBlanks(d + rest) == d + rest
  {
  }

  /** Costs are three runs of digits that fit 32, 32 and 8 bits; what follows them is ignored. */
  lemma CostsRead(m: string, t: string, p: string, rest: string)
    requires Digits(m) && Digits(t) && Digits(p) && Ends(rest)
    ensures Value(m) >= 0 && Value(t) >= 0 && Value(p) >= 0
    ensures ScanCosts("m=" + (m + (",t=" + (t + (",p=" + (p + rest))))))
            == if Value(m) < 0x1_0000_0000 && Value(t) < 0x1_0000_0000 && Value(p) < 256
               then Some((Value(m), Value(t), Value(p))) else None
  {
    var afterT := ",p=" + (p + rest);
    var afterM := ",t=" + (t + afterT);
    FieldRead("m=", m, afterM, 0x1_0000_0000);
    FieldRead(",t=", t, afterT, 0x1_0000_0000);
    FieldRead(",p=", p, rest, 256);
  }

  lemma FieldRead(literal: string, d: string, rest: string, limit: nat)
    requires Digits(d) && Ends(rest)
    ensures Value(d) >= 0
    ensures ScanField(literal + (d + rest), literal, limit) == if Value(d) < limit then Some((Value(d), rest)) else None
  {
    ScanUintRun(d, rest, limit);
    assert (literal + (d + rest))[|literal|..] == d + rest;
  }

  datatype Decoded = Decoded(params: Argon2Params, salt: seq<byte>, key: seq<byte>)

  /** What the six parts read as; None for each part that does not read. */
  datatype Fields = Fields(
    version: Option<int>, costs: Option<(nat, nat, nat)>, salt: Option<seq<byte>>, key: Option<seq<byte>>)

  function ReadParts(parts: seq<string>): Option<Fields> {
    if |parts| != 6 || parts[1] != "argon2id" then None
    else Some(Fields(ScanVersion(parts[2]), ScanCosts(parts[3]), Unbase64(parts[4]), Unbase64(parts[5])))
  }

  predicate InRange(costs: (nat, nat, nat)) {
    costs.0 < 0x1_0000_0000 && costs.1 < 0x1_0000_0000 && costs.2 < 256
  }

  /** The first thing that is wrong, or the decoded hash. */
  function Judge(fields: Option<Fields>): Result<Decoded, HashError>
    requires fields.Some? && fields.value.costs.Some? ==> InRange(fields.value.costs.value)
  {
    if fields.None? then Err(InvalidHash)
    else
      var Fields(version, costs, salt, key) := fields.value;
      if version.None? then Err(InvalidHash)
      else if version.value != ARGON2_VERSION then Err(IncompatibleVersion)
      else if costs.None? || salt.None? || key.None? then Err(InvalidHash)
      else
        Ok(Decoded(
             Argon2Params(costs.value.0, costs.value.1, costs.value.2,
                          |salt.value| % 0x1_0000_0000, |key.value| % 0x1_0000_0000),
             salt.value, key.value))
  }

  function DecodeHash(encoded: string): Result<Decoded, HashError> {
    var fields := ReadParts(Split(encoded, '$'));
    ReadCostsInRange(Split(encoded, '$'));
    Judge(fields)
  }

  lemma ReadCostsInRange(parts: seq<string>)
    ensures ReadParts(parts).Some? && ReadParts(parts).value.costs.Some? ==> InRange(ReadParts(parts).value.costs.value)
  {
    if |parts| == 6 {
      CostsInRange(parts[3]);
    }
  }

  function VerifyPassword(kdf: Kdf, password: string, encoded: string): Result<bool, HashError> {
    match DecodeHash(encoded)
    case Err(e) => Err(e)
    case Ok(d) =>
      var p := d.params;
      Ok(d.key == kdf(password, d.salt, p.iterations, p.memory, p.parallelism, p.keyLength))
  }

  function NeedsRehash(encoded: string, current: Option<Argon2Params>): Result<bool, HashError> {
    var c := if current.Some? then current.value else DEFAULT_PARAMS;
    match DecodeHash(encoded)
    case Err(e) => Err(e)
    case Ok(d) =>
      Ok(d.params.memory < c.memory || d.params.iterations < c.iterations || d.params.parallelism < c.parallelism)
  }

  lemma ScanFieldPrinted(literal: string, n: nat, rest: string, limit: nat)
    requires n < limit && (rest == "" || !IsDigit(rest[0]))
    ensures ScanField(literal + (Decimal(n) + rest), literal, limit) == Some((n, rest))
  {
    ScanUintPrinted(n, rest, limit);
    assert (literal + (Decimal(n) + rest))[|literal|..] == Decimal(n) + rest;
  }

  lemma ThreeFields(s: string, m: nat, s1: string, t: nat, s2: string, p: nat, s3: string)
    requires ScanField(s, "m=", 0x1_0000_0000) == Some((m, s1))
    requires ScanField(s1, ",t=", 0x1_0000_0000) == Some((t, s2))
    requires ScanField(s2, ",p=", 256) == Some((p, s3))
    ensures ScanCosts(s) == Some((m, t, p))
  {
  }

  /** What is left of the cost text after its first field. */
  function AfterMemory(p: Argon2Params): string {
    ",t=" + (Decimal(p.iterations) + AfterIterations(p))
  }

  function AfterIterations(p: Argon2Params): string {
    ",p=" + (Decimal(p.parallelism) + "")
  }

  lemma CostTextNested(p: Argon2Params)
    ensures CostText(p) == "m=" + (Decimal(p.memory) + AfterMemory(p))
  {
  }

  lemma CostsRoundTrip(p: Argon2Params)
    ensures ScanCosts(CostText(p)) == Some((p.memory, p.iterations, p.parallelism))
  {
    CostTextNested(p);
    ScanFieldPrinted("m=", p.memory, AfterMemory(p), 0x1_0000_0000);
    ScanFieldPrinted(",t=", p.iterations, AfterIterations(p), 0x1_0000_0000);
    ScanFieldPrinted(",p=", p.parallelism, "", 256);
    ThreeFields(CostText(p), p.memory, AfterMemory(p), p.iterations, AfterIterations(p), p.parallelism, "");
  }

  lemma CostTextPlain(p: Argon2Params)
    ensures Plain(CostText(p))
  {
    DecimalShape(p.memory);
    DecimalShape(p.iterations);
    DecimalShape(p.parallelism);
    assert Plain(Decimal(p.memory)) && Plain(Decimal(p.iterations)) && Plain(Decimal(p.parallelism));
  }

  lemma JoinSix(a: string, b: string, c: string, d: string, e: string, f: string)
    requires Plain(a) && Plain(b) && Plain(c) && Plain(d) && Plain(e) && Plain(f)
    ensures var text := a + "$" + b + "$" + c + "$" + d + "$" + e + "$" + f;
            Split(text, '$') == [a, b, c, d, e, f] && '\n' !in text
  {
    SplitFree(a, '$');
    SplitFree(b, '$');
    SplitFree(c, '$');
    SplitFree(d, '$');
    SplitFree(e, '$');
    SplitFree(f, '$');
    SplitConcat(a, b, '$');
    SplitConcat(a + "$" + b, c, '$');
    SplitConcat(a + "$" + b + "$" + c, d, '$');
    SplitConcat(a + "$" + b + "$" + c + "$" + d, e, '$');
    SplitConcat(a + "$" + b + "$" + c + "$" + d + "$" + e, f, '$');
  }

  lemma VersionScans()
    ensures ScanVersion(VersionText()) == Some(ARGON2_VERSION)
    ensures Plain(VersionText())
  {
    var digits := Decimal(ARGON2_VERSION);
    DecimalShape(ARGON2_VERSION);
    ScanPrinted(ARGON2_VERSION, "");
    assert digits + "" == digits;
    assert VersionText()[2..] == digits;
    assert Plain(digits);
  }

  /** A printed string splits at its dollar signs into the six parts, and is one line. */
  lemma EncodedParts(p: Argon2Params, salt: seq<byte>, key: seq<byte>)
    ensures Split(Encode(p, salt, key), '$') == ["", "argon2id", VersionText(), CostText(p), Base64(salt), Base64(key)]
    ensures '\n' !in Encode(p, salt, key)
  {
    VersionScans();
    CostTextPlain(p);
    Base64RoundTrips(salt);
    Base64RoundTrips(key);
    JoinSix("", "argon2id", VersionText(), CostText(p), Base64(salt), Base64(key));
    assert "" + "$" + "argon2id" + "$" == "$argon2id$";
  }

  lemma PartsRead(parts: seq<string>, version: int, costs: (nat, nat, nat), salt: seq<byte>, key: seq<byte>)
    requires |parts| == 6 && parts[1] == "argon2id"
    requires ScanVersion(parts[2]) == Some(version) && ScanCosts(parts[3]) == Some(costs)
    requires Unbase64(parts[4]) == Some(salt) && Unbase64(parts[5]) == Some(key)
    ensures ReadParts(parts) == Some(Fields(Some(version), Some(costs), Some(salt), Some(key)))
  {
  }

  lemma JudgedWell(p: Argon2Params, salt: seq<byte>, key: seq<byte>)
    requires p.saltLength == |salt| % 0x1_0000_0000 && p.keyLength == |key| % 0x1_0000_0000
    ensures Judge(Some(Fields(Some(19), Some((p.memory, p.iterations, p.parallelism)), Some(salt), Some(key))))
            == Ok(Decoded(p, salt, key))
  {
  }

  lemma DecodeByFields(encoded: string, p: Argon2Params, salt: seq<byte>, key: seq<byte>)
    requires ReadParts(Split(encoded, '$'))
             == Some(Fields(Some(19), Some((p.memory, p.iterations, p.parallelism)), Some(salt), Some(key)))
    requires p.saltLength == |salt| % 0x1_0000_0000 && p.keyLength == |key| % 0x1_0000_0000
    ensures DecodeHash(encoded) == Ok(Decoded(p, salt, key))
  {
    JudgedWell(p, salt, key);
  }

  lemma PrintedReads(p: Argon2Params, salt: seq<byte>, key: seq<byte>)
    ensures ReadParts(Split(Encode(p, salt, key), '$'))
            == Some(Fields(Some(19), Some((p.memory, p.iterations, p.parallelism)), Some(salt), Some(key)))
  {
    EncodedParts(p, salt, key);
    CostsRoundTrip(p);
    Base64RoundTrips(salt);
    Base64RoundTrips(key);
    VersionScans();
    var costs := (p.memory as nat, p.iterations as nat, p.parallelism as nat);
    PartsRead(Split(Encode(p, salt, key), '$'), ARGON2_VERSION, costs, salt, key);
  }

  lemma LengthKept(n: u32)
    ensures n % 0x1_0000_0000 == n
  {
  }

  /** Parsing undoes printing, for all parameters, salts and keys. */
  lemma DecodeUndoesEncode(p: Argon2Params, salt: seq<byte>, key: seq<byte>)
    requires |salt| == p.saltLength && |key| == p.keyLength
    ensures DecodeHash(Encode(p, salt, key)) == Ok(Decoded(p, salt, key))
  {
    PrintedReads(p, salt, key);
    LengthKept(p.saltLength);
    LengthKept(p.keyLength);
    DecodeByFields(Encode(p, salt, key), p, salt, key);
  }

  /** Different parameters, salts or keys never print the same string. */
  lemma EncodeIsInjective(
      p: Argon2Params, salt: seq<byte>, key: seq<byte>, q: Argon2Params, salt': seq<byte>, key': seq<byte>)
    requires |salt| == p.saltLength && |key| == p.keyLength && |salt'| == q.saltLength && |key'| == q.keyLength
    requires Encode(p, salt, key) == Encode(q, salt', key')
    ensures p == q && salt == salt' && key == key'
  {
    DecodeUndoesEncode(p, salt, key);
    DecodeUndoesEncode(q, salt', key');
  }

  /** The whole text of a stored hash. */
  lemma EncodedText(p: Argon2Params, salt: seq<byte>, key: seq<byte>)
    ensures Encode(p, salt, key)
            == "$argon2id$v=19$m=" + Decimal(p.memory) + ",t=" + Decimal(p.iterations) + ",p=" + Decimal(p.parallelism)
               + "$" + Base64(salt) + "$" + Base64(key)
  {
    assert Decimal(19) == "19";
  }

  /** Hashing stores what the key derivation gives for the password and the salt under the stated costs, by
      default 65536 KiB, 3 passes, 4 lanes and 32 bytes; it fails only without a salt. */
  lemma HashedText(kdf: Kdf, password: string, p: Argon2Params, salt: seq<byte>)
    ensures HashPassword(kdf, password, Some(p), None) == HashPassword(kdf, password, None, None) == None
    ensures HashPassword(kdf, password, Some(p), Some(salt))
            == Some(Encode(p, salt, kdf(password, salt, p.iterations, p.memory, p.parallelism, p.keyLength)))
    ensures HashPassword(kdf, password, None, Some(salt))
            == Some("$argon2id$v=19$m=65536,t=3,p=4$" + Base64(salt) + "$"
                    + Base64(kdf(password, salt, 3, 65536, 4, 32)))
  {
    EncodedText(DEFAULT_PARAMS, salt, kdf(password, salt, 3, 65536, 4, 32));
    assert Decimal(65) == "65" && Decimal(655) == "655" && Decimal(6553) == "6553" && Decimal(65536) == "65536";
    assert Decimal(3) == "3" && Decimal(4) == "4";
    assert "$argon2id$v=19$m=" + "65536" + ",t=" + "3" + ",p=" + "4" + "$" == "$argon2id$v=19$m=65536,t=3,p=4$";
  }

  /** Exactly which texts are hashes; all others verify nothing. */
  lemma StoredHashIff(kdf: Kdf, password: string, encoded: string)
    ensures var parts := Split(encoded, '$');
            var result := VerifyPassword(kdf, password, encoded);
            && (result.Ok? <==>
                && |parts| == 6 && parts[1] == "argon2id" && ScanVersion(parts[2]) == Some(19)
                && ScanCosts(parts[3]).Some? && Unbase64(parts[4]).Some? && Unbase64(parts[5]).Some?)
            && (result == Err(IncompatibleVersion) <==>
                && |parts| == 6 && parts[1] == "argon2id"
                && ScanVersion(parts[2]).Some? && ScanVersion(parts[2]) != Some(19))
  {
    ReadCostsInRange(Split(encoded, '$'));
  }

  /** What a stored hash accepts: a password from which the key derivation gives the stored key, under the stored
      costs and salt. */
  lemma StoredHashAccepts(
      kdf: Kdf, password: string, encoded: string, p: Argon2Params, salt: seq<byte>, key: seq<byte>,
      current: Argon2Params)
    requires var parts := Split(encoded, '$');
             && |parts| == 6 && parts[1] == "argon2id" && ScanVersion(parts[2]) == Some(19)
             && ScanCosts(parts[3]) == Some((p.memory, p.iterations, p.parallelism))
             && Unbase64(parts[4]) == Some(salt) && Unbase64(parts[5]) == Some(key)
    requires p.saltLength == |salt| % 0x1_0000_0000 && p.keyLength == |key| % 0x1_0000_0000
    ensures VerifyPassword(kdf, password, encoded)
            == Ok(key == kdf(password, salt, p.iterations, p.memory, p.parallelism, p.keyLength))
    ensures NeedsRehash(encoded, Some(current))
            == Ok(p.memory < current.memory || p.iterations < current.iterations || p.parallelism < current.parallelism)
  {
    PartsRead(Split(encoded, '$'), 19, (p.memory as nat, p.iterations as nat, p.parallelism as nat), salt, key);
    DecodeByFields(encoded, p, salt, key);
  }

  ghost predicate ReturnsKeyLength(kdf: Kdf) {
    forall password, salt, t, m, p, n :: |kdf(password, salt, t, m, p, n)| == n
  }

  /** A stored hash accepts exactly the passwords whose derived key equals the stored one; the right
      password is always accepted. */
  lemma HashedPasswordVerifies(
      kdf: Kdf, password: string, params: Option<Argon2Params>, salt: seq<byte>, attempt: string)
    requires ReturnsKeyLength(kdf)
    requires |salt| == (if params.Some? then params.value else DEFAULT_PARAMS).saltLength
    ensures var p := if params.Some? then params.value else DEFAULT_PARAMS;
            var stored := HashPassword(kdf, password, params, Some(salt));
            && stored.Some?
            && VerifyPassword(kdf, password, stored.value) == Ok(true)
            && VerifyPassword(kdf, attempt, stored.value)
               == Ok(kdf(password, salt, p.iterations, p.memory, p.parallelism, p.keyLength)
                     == kdf(attempt, salt, p.iterations, p.memory, p.parallelism, p.keyLength))
  {
    var p := if params.Some? then params.value else DEFAULT_PARAMS;
    DecodeUndoesEncode(p, salt, kdf(password, salt, p.iterations, p.memory, p.parallelism, p.keyLength));
  }

  /** A printed hash needs rehashing exactly when one of its three printed costs is below the current one. */
  lemma NeedsRehashIff(p: Argon2Params, salt: seq<byte>, key: seq<byte>, current: Argon2Params)
    requires |salt| == p.saltLength && |key| == p.keyLength
    ensures NeedsRehash(Encode(p, salt, key), Some(current))
            == Ok(p.memory < current.memory || p.iterations < current.iterations || p.parallelism < current.parallelism)
    ensures NeedsRehash(Encode(p, salt, key), None)
            == Ok(p.memory < 65536 || p.iterations < 3 || p.parallelism < 4)
  {
    DecodeUndoesEncode(p, salt, key);
  }
}
