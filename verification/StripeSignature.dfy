/**
 Verification of the `Stripe-Signature` header: parsing, the tolerance window and the
 branch-free comparison. HMAC-SHA256 is the parameter `mac`, of the secret, the text fed
 first (`<timestamp>.`) and the body.
 */
module StripeSignature {
  import opened Wrappers

  const I64_MIN: int := -0x8000_0000_0000_0000
  const I64_MAX: int := 0x7FFF_FFFF_FFFF_FFFF
  const TOLERANCE: int := 300

  type Mac = (string, string, seq<bv8>) -> seq<bv8>

  datatype Outcome =
    | Accepted(ts: int)
    | MissingTimestamp
    | MissingSignature
    | OutsideTolerance
    | NoMatch
    | Overflow

  // ---- Text ----

  function Split(s: string, sep: char): (parts: seq<string>)
    ensures parts != []
  {
    if s == [] then [[]]
    else
      var rest := Split(s[1..], sep);
      if s[0] == sep then [[]] + rest else [[s[0]] + rest[0]] + rest[1..]
  }

  predicate IsWhite(c: char) {
    '\t' <= c <= '\r' || c == ' ' || c == '\U{85}' || c == '\U{A0}' || c == '\U{1680}'
    || '\U{2000}' <= c <= '\U{200A}' || c == '\U{2028}' || c == '\U{2029}'
    || c == '\U{202F}' || c == '\U{205F}' || c == '\U{3000}'
  }

  function TrimEnd(s: string): string {
    if s != [] && IsWhite(s[|s| - 1]) then TrimEnd(s[..|s| - 1]) else s
  }

  function TrimStart(s: string): string {
    if s != [] && IsWhite(s[0]) then TrimStart(s[1..]) else s
  }

  function Trim(s: string): string { TrimStart(TrimEnd(s)) }

  predicate IsDigit(c: char) { '0' <= c <= '9' }

  predicate Digits(s: string) { s != [] && forall i :: 0 <= i < |s| ==> IsDigit(s[i]) }

  function DigitValue(c: char): nat
    requires IsDigit(c)
  {
    c as int - 0x30
  }

  function DecimalValue(s: string): nat
    requires forall i :: 0 <= i < |s| ==> IsDigit(s[i])
  {
    if s == [] then 0 else DecimalValue(s[..|s| - 1]) * 10 + DigitValue(s[|s| - 1])
  }

  function ParseI64(s: string): Option<int> {
    var signed := s != [] && (s[0] == '-' || s[0] == '+');
    var digits := if signed then s[1..] else s;
    if !Digits(digits) then None
    else
      var n: int := DecimalValue(digits);
      var v: int := if signed && s[0] == '-' then -n else n;
      if I64_MIN <= v <= I64_MAX then Some(v) else None
  }

  function NatDecimal(n: nat): string {
    var last := (0x30 + n % 10) as char;
    if n < 10 then [last] else NatDecimal(n / 10) + [last]
  }

  function Decimal(n: int): string {
    if n < 0 then "-" + NatDecimal(-n) else NatDecimal(n)
  }

  function HexValue(c: char): Option<bv8> {
    match c
    case '0' => Some(0) case '1' => Some(1) case '2' => Some(2) case '3' => Some(3)
    case '4' => Some(4) case '5' => Some(5) case '6' => Some(6) case '7' => Some(7)
    case '8' => Some(8) case '9' => Some(9)
    case 'a' => Some(10) case 'b' => Some(11) case 'c' => Some(12)
    case 'd' => Some(13) case 'e' => Some(14) case 'f' => Some(15)
    case 'A' => Some(10) case 'B' => Some(11) case 'C' => Some(12)
    case 'D' => Some(13) case 'E' => Some(14) case 'F' => Some(15)
    case _ => None
  }

  function HexDecode(s: string): Option<seq<bv8>> {
    if s == [] then Some([])
    else if |s| == 1 || HexValue(s[0]).None? || HexValue(s[1]).None? then None
    else match HexDecode(s[2..])
      case None => None
      case Some(rest) => Some([(HexValue(s[0]).value << 4) | HexValue(s[1]).value] + rest)
  }

  // ---- The header's meaning ----

  predicate DecodesTo(hex: string, bytes: seq<bv8>) { HexDecode(hex) == Some(bytes) }

  /** The value of the field `key` in a part, if the part is that field. */
  function Field(part: string, key: string): Option<string> {
    if key + "=" <= part then Some(part[|key| + 1..]) else None
  }

  /** The last `t` part parses to `ts`. */
  ghost predicate Timestamp(parts: seq<string>, ts: int) {
    exists i :: TimestampAt(parts, i, ts)
  }

  ghost predicate HasTimestamp(parts: seq<string>) {
    exists ts :: Timestamp(parts, ts)
  }

  ghost predicate TimestampAt(parts: seq<string>, i: nat, ts: int) {
    && i < |parts| && Field(parts[i], "t").Some?
    && (forall j :: i < j < |parts| ==> Field(parts[j], "t").None?)
    && ParseI64(Trim(Field(parts[i], "t").value)) == Some(ts)
  }

  ghost predicate SignedBy(part: string, expected: seq<bv8>) {
    Field(part, "v1").Some? && DecodesTo(Trim(Field(part, "v1").value), expected)
  }

  function Expected(mac: Mac, secret: string, ts: int, body: seq<bv8>): seq<bv8> {
    mac(secret, Decimal(ts) + ".", body)
  }

  /** What acceptance means. */
  ghost predicate Authentic(mac: Mac, secret: string, header: string, body: seq<bv8>, now: int, ts: int) {
    var parts := Split(header, ',');
    && Timestamp(parts, ts)
    && -TOLERANCE <= now - ts <= TOLERANCE
    && exists p :: p in parts && SignedBy(p, Expected(mac, secret, ts, body))
  }

  // ---- The checks ----

  /** `splitn(2, '=')` with the first piece equal to `key`. */
  method KeyValue(part: string, key: string) returns (v: Option<string>)
    requires '=' !in key
    ensures v == Field(part, key)
  {
    var i := 0;
    while i < |part| && part[i] != '='
      invariant i <= |part| && '=' !in part[..i]
    {
      i := i + 1;
    }
    FirstEquals(part, key, i);
    v := if i < |part| && part[..i] == key then Some(part[i + 1..]) else None;
  }

  lemma FirstEquals(part: string, key: string, i: nat)
    requires '=' !in key && i <= |part| && '=' !in part[..i] && (i == |part| || part[i] == '=')
    ensures Field(part, key) == if i < |part| && part[..i] == key then Some(part[i + 1..]) else None
  {
    if key + "=" <= part {
      var k := |key|;
      assert part[k] == '=' && part[..k] == key;
      assert i == k;
    }
  }

  lemma DiffBit(diff: bv8)
    ensures (((diff as bv16) - 1) >> 8) & 1 == 1 <==> diff == 0
  {
  }

  lemma DiffStep(diff: bv8, x: bv8, y: bv8)
    ensures diff | (x ^ y) == 0 <==> diff == 0 && x == y
  {
  }

  /** The branch-free comparison decides equality of byte strings. */
  method SubtleEq(a: seq<bv8>, b: seq<bv8>) returns (choice: bv16)
    ensures choice == 1 <==> a == b
  {
    if |a| != |b| {
      return 0;
    }
    var diff: bv8 := 0;
    for i := 0 to |a|
      invariant diff == 0 <==> a[..i] == b[..i]
    {
      DiffStep(diff, a[i], b[i]);
      assert a[..i + 1] == a[..i] + [a[i]] && b[..i + 1] == b[..i] + [b[i]];
      diff := diff | (a[i] ^ b[i]);
    }
    assert a[..|a|] == a && b[..|b|] == b;
    DiffBit(diff);
    choice := (((diff as bv16) - 1) >> 8) & 1;
  }

  /** The trimmed values of the `v1` parts, in order. */
  function Signatures(parts: seq<string>): seq<string> {
    if parts == [] then []
    else
      var rest, v := Signatures(parts[..|parts| - 1]), Field(parts[|parts| - 1], "v1");
      if v.Some? then rest + [Trim(v.value)] else rest
  }

  lemma {:induction false} SignaturesAre(parts: seq<string>)
    ensures forall p :: p in parts ==> Kept(p, Signatures(parts))
    ensures forall s :: s in Signatures(parts) ==> exists p :: p in parts && Gives(p, s)
  {
    if parts == [] {
    } else {
      var front, last := parts[..|parts| - 1], parts[|parts| - 1];
      SignaturesAre(front);
      assert parts == front + [last];
      assert Kept(last, Signatures(parts));
      forall p | p in front
        ensures Kept(p, Signatures(parts))
      {
        assert Kept(p, Signatures(front));
      }
      forall s | s in Signatures(parts)
        ensures exists p :: p in parts && Gives(p, s)
      {
        if s in Signatures(front) {
          var p :| p in front && Gives(p, s);
          assert p in parts;
        } else {
          assert Gives(last, s);
        }
      }
    }
  }

  ghost predicate Gives(part: string, sig: string) {
    Field(part, "v1").Some? && sig == Trim(Field(part, "v1").value)
  }

  ghost predicate Kept(part: string, sigs: seq<string>) {
    Field(part, "v1").Some? ==> Trim(Field(part, "v1").value) in sigs
  }

  /** The first loop: the last timestamp read, and every `v1` value. */
  method ReadParts(parts: seq<string>) returns (ts: Option<int>, sigs: seq<string>)
    ensures ts.Some? ==> Timestamp(parts, ts.value)
    ensures ts.None? ==> !HasTimestamp(parts)
    ensures sigs == Signatures(parts)
  {
    ts, sigs := None, [];
    ghost var last := -1;
    for n := 0 to |parts|
      invariant -1 <= last < n
      invariant forall j :: last < j < n ==> Field(parts[j], "t").None?
      invariant if last < 0 then ts == None
                else Field(parts[last], "t").Some? && ts == ParseI64(Trim(Field(parts[last], "t").value))
      invariant sigs == Signatures(parts[..n])
    {
      assert parts[..n + 1][..n] == parts[..n];
      var t := KeyValue(parts[n], "t");
      var v := KeyValue(parts[n], "v1");
      if t.Some? {
        ts := ParseI64(Trim(t.value));
        last := n;
      } else if v.Some? {
        sigs := sigs + [Trim(v.value)];
      }
      if t.Some? {
        FieldsDiffer(parts[n]);
      }
    }
    assert parts[..|parts|] == parts;
    forall t, i: nat | TimestampAt(parts, i, t)
      ensures i == last && ts == Some(t)
    {
    }
    if ts.Some? {
      assert TimestampAt(parts, last, ts.value);
    }
  }

  lemma FieldsDiffer(part: string)
    ensures Field(part, "t").None? || Field(part, "v1").None?
  {
    if "t" + "=" <= part {
      assert part[0] == 't';
    }
    if "v1" + "=" <= part {
      assert part[0] == 'v';
    }
  }

  /** A timestamp is determined by the header. */
  lemma TimestampUnique(parts: seq<string>, a: int, b: int)
    requires Timestamp(parts, a) && Timestamp(parts, b)
    ensures a == b
  {
    var i :| TimestampAt(parts, i, a);
    var j :| TimestampAt(parts, j, b);
    assert i == j;
  }

  lemma AnySigned(parts: seq<string>, expected: seq<bv8>)
    ensures (exists p :: p in parts && SignedBy(p, expected))
            <==> exists s :: s in Signatures(parts) && DecodesTo(s, expected)
  {
    SignaturesAre(parts);
    forall p | p in parts && SignedBy(p, expected)
      ensures exists s :: s in Signatures(parts) && DecodesTo(s, expected)
    {
      assert Kept(p, Signatures(parts));
    }
    forall s | s in Signatures(parts) && DecodesTo(s, expected)
      ensures exists p :: p in parts && SignedBy(p, expected)
    {
      var p :| p in parts && Gives(p, s);
      assert SignedBy(p, expected);
    }
  }

  /** The second loop: some signature decodes to the expected MAC. */
  method MatchesAny(sigs: seq<string>, expected: seq<bv8>) returns (hit: bool)
    ensures hit <==> exists s :: s in sigs && DecodesTo(s, expected)
  {
    for i := 0 to |sigs|
      invariant forall k :: 0 <= k < i ==> !DecodesTo(sigs[k], expected)
    {
      var bytes := HexDecode(sigs[i]);
      if bytes.Some? {
        var choice := SubtleEq(expected, bytes.value);
        if choice == 1 {
          assert sigs[i] in sigs;
          return true;
        }
      }
    }
    hit := false;
  }

  /** Acceptance is authenticity, and every refusal names its first failing check. */
  method VerifyWebhook(mac: Mac, secret: string, header: string, body: seq<bv8>, now: int) returns (r: Outcome)
    requires I64_MIN <= now <= I64_MAX
    ensures forall ts :: r == Accepted(ts) <==> Authentic(mac, secret, header, body, now, ts)
    ensures r == MissingTimestamp <==> !HasTimestamp(Split(header, ','))
    ensures r == MissingSignature <==> HasTimestamp(Split(header, ',')) && forall p :: p in Split(header, ',') ==> Field(p, "v1").None?
    ensures r == OutsideTolerance ==>
              exists t :: Timestamp(Split(header, ','), t) && TOLERANCE < (if now < t then t - now else now - t) <= I64_MAX
    ensures r == Overflow ==> exists t :: Timestamp(Split(header, ','), t) && !(I64_MIN < now - t <= I64_MAX)
    ensures r == NoMatch ==> exists t :: Timestamp(Split(header, ','), t) && -TOLERANCE <= now - t <= TOLERANCE
  {
    var parts := Split(header, ',');
    var maybe, sigs := ReadParts(parts);
    SignaturesAre(parts);
    if maybe.None? {
      return MissingTimestamp;
    }
    var ts := maybe.value;
    assert HasTimestamp(parts);
    forall t | Timestamp(parts, t)
      ensures t == ts
    {
      TimestampUnique(parts, t, ts);
    }
    var expected := Expected(mac, secret, ts, body);
    if sigs == [] {
      assert forall p :: p in parts ==> Kept(p, sigs) && Field(p, "v1").None?;
      return MissingSignature;
    }
    assert sigs[0] in sigs;
    ghost var signed :| signed in parts && Gives(signed, sigs[0]);
    if !(I64_MIN < now - ts <= I64_MAX) {
      return Overflow;
    }
    var age := if now - ts < 0 then ts - now else now - ts;
    if age > TOLERANCE {
      return OutsideTolerance;
    }
    var hit := MatchesAny(sigs, expected);
    AnySigned(parts, expected);
    r := if hit then Accepted(ts) else NoMatch;
  }

  // ---- Every header signed this way is accepted ----

  function HexChar(n: bv8): char
    requires n < 16
  {
    if n == 0 then '0' else if n == 1 then '1' else if n == 2 then '2' else if n == 3 then '3'
    else if n == 4 then '4' else if n == 5 then '5' else if n == 6 then '6' else if n == 7 then '7'
    else if n == 8 then '8' else if n == 9 then '9' else if n == 10 then 'a' else if n == 11 then 'b'
    else if n == 12 then 'c' else if n == 13 then 'd' else if n == 14 then 'e' else 'f'
  }

  function HexEncode(bytes: seq<bv8>): string {
    if bytes == [] then [] else [HexChar(bytes[0] >> 4), HexChar(bytes[0] & 0xF)] + HexEncode(bytes[1..])
  }

  lemma HexCharValue(n: bv8)
    requires n < 16
    ensures HexValue(HexChar(n)) == Some(n) && !IsWhite(HexChar(n)) && HexChar(n) != ','
  {
  }

  lemma Nibbles(b: bv8)
    ensures b >> 4 < 16 && b & 0xF < 16 && ((b >> 4) << 4) | (b & 0xF) == b
  {
  }

  predicate Plain(s: string) { forall i :: 0 <= i < |s| ==> !IsWhite(s[i]) && s[i] != ',' }

  lemma HexByte(b: bv8)
    ensures b >> 4 < 16 && b & 0xF < 16
    ensures IsHexOf(HexChar(b >> 4), HexChar(b & 0xF), b) && Plain([HexChar(b >> 4), HexChar(b & 0xF)])
  {
    Nibbles(b);
    HexCharValue(b >> 4);
    HexCharValue(b & 0xF);
  }

  lemma PlainConcat(s: string, t: string)
    requires Plain(s) && Plain(t)
    ensures Plain(s + t)
  {
  }

  lemma {:induction false} HexRoundTrip(bytes: seq<bv8>)
    ensures HexDecode(HexEncode(bytes)) == Some(bytes) && Plain(HexEncode(bytes))
  {
    if bytes == [] {
    } else {
      var rest := HexEncode(bytes[1..]);
      HexRoundTrip(bytes[1..]);
      HexByte(bytes[0]);
      var two := [HexChar(bytes[0] >> 4), HexChar(bytes[0] & 0xF)];
      PlainConcat(two, rest);
      assert (two + rest)[2..] == rest;
      HexDecodeStep(two + rest, bytes);
    }
  }

  lemma {:induction false} NatDecimalValue(n: nat)
    ensures Digits(NatDecimal(n))
    ensures DecimalValue(NatDecimal(n)) == n
  {
    var last := (0x30 + n % 10) as char;
    if n < 10 {
      assert NatDecimal(n)[..0] == [];
    } else {
      NatDecimalValue(n / 10);
      assert NatDecimal(n)[..|NatDecimal(n)| - 1] == NatDecimal(n / 10);
    }
  }

  lemma ParseUnsigned(d: string)
    requires Digits(d) && DecimalValue(d) <= I64_MAX
    ensures ParseI64(d) == Some(DecimalValue(d)) && Plain(d)
  {
    assert IsDigit(d[0]);
  }

  lemma ParseNegative(d: string)
    requires Digits(d) && DecimalValue(d) <= I64_MAX + 1
    ensures ParseI64("-" + d) == Some(0 - DecimalValue(d)) && Plain("-" + d)
  {
    assert ("-" + d)[1..] == d;
  }

  lemma DecimalRoundTrip(ts: int)
    requires I64_MIN <= ts <= I64_MAX
    ensures ParseI64(Decimal(ts)) == Some(ts) && Plain(Decimal(ts))
  {
    if ts < 0 {
      NatDecimalValue(-ts);
      ParseNegative(NatDecimal(-ts));
    } else {
      NatDecimalValue(ts);
      ParseUnsigned(NatDecimal(ts));
    }
  }

  lemma TrimPlain(s: string)
    requires Plain(s)
    ensures Trim(s) == s
  {
  }

  lemma {:induction false} SplitNone(a: string)
    requires ',' !in a
    ensures Split(a, ',') == [a]
  {
    if a == [] {
    } else {
      SplitNone(a[1..]);
      assert a == [a[0]] + a[1..];
    }
  }

  lemma {:induction false} SplitOnce(a: string, b: string)
    requires ',' !in a && ',' !in b
    ensures Split(a + [','] + b, ',') == [a, b]
  {
    var s := a + [','] + b;
    if a == [] {
      assert s[1..] == b;
      SplitNone(b);
    } else {
      SplitOnce(a[1..], b);
      assert s[1..] == a[1..] + [','] + b;
      assert a == [a[0]] + a[1..];
    }
  }

  lemma FieldOf(key: string, v: string)
    ensures Field(key + "=" + v, key) == Some(v)
  {
  }

  lemma {:induction false} HeaderParts(d: string, x: string)
    requires Plain(d) && Plain(x)
    ensures Split("t=" + d + ",v1=" + x, ',') == ["t=" + d, "v1=" + x]
  {
    var a, b := "t=" + d, "v1=" + x;
    assert "t=" + d + ",v1=" + x == a + [','] + b;
    SplitOnce(a, b);
  }

  lemma {:induction false} TimestampOf(d: string, x: string, ts: int)
    requires Plain(d) && ParseI64(d) == Some(ts)
    ensures TimestampAt(["t=" + d, "v1=" + x], 0, ts)
  {
    var a, b := "t=" + d, "v1=" + x;
    assert a == "t" + "=" + d && b == "v1" + "=" + x;
    TrimPlain(d);
    FieldOf("t", d);
    FieldOf("v1", x);
    FieldsDiffer(b);
  }

  lemma {:induction false} SignatureOf(x: string, expected: seq<bv8>)
    requires Plain(x) && HexDecode(x) == Some(expected)
    ensures SignedBy("v1=" + x, expected)
  {
    assert "v1=" + x == "v1" + "=" + x;
    TrimPlain(x);
    FieldOf("v1", x);
  }

  /** Round trip: a header built from the timestamp and its MAC is authentic in tolerance. */
  lemma SignedHeaderIsAuthentic(mac: Mac, secret: string, body: seq<bv8>, now: int, ts: int)
    requires I64_MIN <= ts <= I64_MAX && -300 <= now - ts <= 300
    ensures Authentic(mac, secret,
                      "t=" + Decimal(ts) + ",v1=" + HexEncode(Expected(mac, secret, ts, body)),
                      body, now, ts)
  {
    var expected := Expected(mac, secret, ts, body);
    var d, x := Decimal(ts), HexEncode(expected);
    DecimalRoundTrip(ts);
    HexRoundTrip(expected);
    HeaderParts(d, x);
    TimestampOf(d, x, ts);
    SignatureOf(x, expected);
    assert "v1=" + x in ["t=" + d, "v1=" + x];
  }

  // ---- The header and its texts, written out ----

  lemma FieldIff(part: string, key: string, v: string)
    ensures Field(part, key) == Some(v) <==> part == key + "=" + v
    ensures Field(part, key).None? <==> !(key + "=" <= part)
  {
  }

  /**
   Acceptance, written out: the last part that starts with `t=` parses to `ts` once trimmed,
   `ts` is at most 300 seconds from now, and some part is `v1=` and, once trimmed, the hex of
   the MAC of `ts` in decimal, a dot and the body.
   */
  lemma AuthenticMeans(mac: Mac, secret: string, header: string, body: seq<bv8>, now: int, ts: int)
    ensures Authentic(mac, secret, header, body, now, ts) <==>
            var parts := Split(header, ',');
            && (exists i: nat :: LastTimestamp(parts, i, ts))
            && -300 <= now - ts <= 300
            && exists p :: p in parts && SignatureIs(p, mac(secret, Decimal(ts) + ".", body))
  {
    var parts, expected := Split(header, ','), Expected(mac, secret, ts, body);
    forall i: nat
      ensures TimestampAt(parts, i, ts) <==> LastTimestamp(parts, i, ts)
    {
      TimestampAtIff(parts, i, ts);
    }
    forall p
      ensures SignedBy(p, expected) <==> SignatureIs(p, expected)
    {
      SignedByIff(p, expected);
    }
  }

  ghost predicate LastTimestamp(parts: seq<string>, i: nat, ts: int) {
    && i < |parts| && "t=" <= parts[i] && ParseI64(Trim(parts[i][2..])) == Some(ts)
    && forall j :: i < j < |parts| ==> !("t=" <= parts[j])
  }

  lemma FieldStarts(part: string)
    ensures Field(part, "t").Some? <==> "t=" <= part
    ensures Field(part, "v1").Some? <==> "v1=" <= part
    ensures "t=" <= part ==> Field(part, "t") == Some(part[2..])
    ensures "v1=" <= part ==> Field(part, "v1") == Some(part[3..])
  {
    assert "t" + "=" == "t=" && "v1" + "=" == "v1=";
  }

  lemma TimestampAtIff(parts: seq<string>, i: nat, ts: int)
    ensures TimestampAt(parts, i, ts) <==> LastTimestamp(parts, i, ts)
  {
    forall j | 0 <= j < |parts|
      ensures Field(parts[j], "t").Some? <==> "t=" <= parts[j]
    {
      FieldStarts(parts[j]);
    }
    if i < |parts| {
      FieldStarts(parts[i]);
    }
  }

  lemma SignedByIff(part: string, expected: seq<bv8>)
    ensures SignedBy(part, expected) <==> SignatureIs(part, expected)
  {
    FieldStarts(part);
  }

  ghost predicate SignatureIs(part: string, expected: seq<bv8>) {
    "v1=" <= part && HexDecode(Trim(part[3..])) == Some(expected)
  }

  /** The parts joined by the separator again. */
  function Join(parts: seq<string>, sep: char): string
    requires parts != []
  {
    if |parts| == 1 then parts[0] else parts[0] + [sep] + Join(parts[1..], sep)
  }

  lemma JoinCons(c: char, parts: seq<string>, sep: char)
    requires parts != []
    ensures Join([[c] + parts[0]] + parts[1..], sep) == [c] + Join(parts, sep)
  {
    var all := [[c] + parts[0]] + parts[1..];
    assert all[1..] == parts[1..];
    if |parts| > 1 {
      var tail := Join(parts[1..], sep);
      assert [c] + parts[0] + [sep] + tail == [c] + (parts[0] + [sep] + tail);
    }
  }

  lemma JoinEmpty(parts: seq<string>, sep: char)
    requires parts != []
    ensures Join([[]] + parts, sep) == [sep] + Join(parts, sep)
  {
    assert ([[]] + parts)[1..] == parts;
    assert [] + [sep] + Join(parts, sep) == [sep] + Join(parts, sep);
  }

  /** Splitting cuts at every separator: joined again, the parts, none of which holds one, give the text. */
  lemma {:induction false} SplitMeans(s: string, sep: char)
    ensures Join(Split(s, sep), sep) == s
    ensures forall i :: 0 <= i < |Split(s, sep)| ==> sep !in Split(s, sep)[i]
  {
    if s == [] {
    } else {
      var rest := Split(s[1..], sep);
      SplitMeans(s[1..], sep);
      assert s == [s[0]] + s[1..];
      if s[0] == sep {
        JoinEmpty(rest, sep);
      } else {
        JoinCons(s[0], rest, sep);
      }
    }
  }

  predicate AllWhite(s: string) { forall i :: 0 <= i < |s| ==> IsWhite(s[i]) }

  lemma {:induction false} TrimEndMeans(s: string) returns (b: string)
    ensures s == TrimEnd(s) + b && AllWhite(b) && (TrimEnd(s) != [] ==> !IsWhite(TrimEnd(s)[|TrimEnd(s)| - 1]))
  {
    if s == [] || !IsWhite(s[|s| - 1]) {
      b := [];
    } else {
      b := TrimEndMeans(s[..|s| - 1]);
      b := b + [s[|s| - 1]];
    }
  }

  lemma {:induction false} TrimStartMeans(s: string) returns (a: string)
    ensures s == a + TrimStart(s) && AllWhite(a) && (TrimStart(s) != [] ==> !IsWhite(TrimStart(s)[0]))
  {
    if s == [] || !IsWhite(s[0]) {
      a := [];
    } else {
      a := TrimStartMeans(s[1..]);
      a := [s[0]] + a;
    }
  }

  /** Trimming takes white space off both ends, and all of it. */
  lemma TrimMeans(s: string) returns (a: string, b: string)
    ensures s == a + Trim(s) + b && AllWhite(a) && AllWhite(b)
    ensures Trim(s) != [] ==> !IsWhite(Trim(s)[0]) && !IsWhite(Trim(s)[|Trim(s)| - 1])
  {
    b := TrimEndMeans(s);
    a := TrimStartMeans(TrimEnd(s));
  }

  /** Two hex digits of either case per byte, the high half first. */
  lemma {:induction false} HexDecodeIff(s: string, bytes: seq<bv8>)
    ensures HexDecode(s) == Some(bytes) <==> IsHex(s, bytes)
  {
    if |s| <= 1 || bytes == [] {
    } else {
      HexDecodeIff(s[2..], bytes[1..]);
      HexDecodeStep(s, bytes);
      IsHexStep(s, bytes);
    }
  }

  ghost predicate IsHex(s: string, bytes: seq<bv8>) {
    |s| == 2 * |bytes| && forall i :: 0 <= i < |bytes| ==> IsHexOf(s[2 * i], s[2 * i + 1], bytes[i])
  }

  lemma HexDecodeStep(s: string, bytes: seq<bv8>)
    requires |s| >= 2 && bytes != []
    ensures HexDecode(s) == Some(bytes) <==> IsHexOf(s[0], s[1], bytes[0]) && HexDecode(s[2..]) == Some(bytes[1..])
  {
    HexPair(s[0], s[1], bytes[0]);
    assert [bytes[0]] + bytes[1..] == bytes;
  }

  lemma IsHexStep(s: string, bytes: seq<bv8>)
    requires |s| >= 2 && bytes != []
    ensures IsHex(s, bytes) <==> IsHexOf(s[0], s[1], bytes[0]) && IsHex(s[2..], bytes[1..])
  {
    var rest, more := s[2..], bytes[1..];
    if |s| == 2 * |bytes| {
      assert forall i :: 0 <= i < |more| ==>
          rest[2 * i] == s[2 * (i + 1)] && rest[2 * i + 1] == s[2 * (i + 1) + 1] && more[i] == bytes[i + 1];
      if IsHex(rest, more) && IsHexOf(s[0], s[1], bytes[0]) {
        forall i | 0 <= i < |bytes|
          ensures IsHexOf(s[2 * i], s[2 * i + 1], bytes[i])
        {
          if i > 0 {
            assert IsHexOf(rest[2 * (i - 1)], rest[2 * (i - 1) + 1], more[i - 1]);
          }
        }
      }
      if IsHex(s, bytes) {
        forall i | 0 <= i < |more|
          ensures IsHexOf(rest[2 * i], rest[2 * i + 1], more[i])
        {
          assert IsHexOf(s[2 * (i + 1)], s[2 * (i + 1) + 1], bytes[i + 1]);
        }
        assert IsHexOf(s[2 * 0], s[2 * 0 + 1], bytes[0]);
      }
    }
  }

  ghost predicate IsHexOf(hi: char, lo: char, b: bv8) {
    HexValue(hi) == Some(b >> 4) && HexValue(lo) == Some(b & 0xF)
  }

  lemma HexPair(hi: char, lo: char, b: bv8)
    ensures HexValue(hi).Some? && HexValue(lo).Some? ==>
              (b == (HexValue(hi).value << 4) | HexValue(lo).value <==> IsHexOf(hi, lo, b))
  {
  }

  lemma HexValueMeans(c: char, n: bv8)
    ensures HexValue(c) == Some(n) <==>
            n < 16 && (c == "0123456789abcdef"[n as int] || c == "0123456789ABCDEF"[n as int])
  {
  }

  /** A number is an optional sign and at least one digit, within 64 bits. */
  lemma ParseI64Iff(s: string, v: int)
    ensures ParseI64(s) == Some(v) <==>
            exists sign, d :: sign in {"", "+", "-"} && IsNumber(s, sign, d, v)
  {
    if ParseI64(s) == Some(v) {
      if s[0] == '-' || s[0] == '+' {
        assert s == [s[0]] + s[1..];
        assert [s[0]] in {"", "+", "-"} && IsNumber(s, [s[0]], s[1..], v);
      } else {
        assert s == "" + s;
        assert IsNumber(s, "", s, v);
      }
    }
    forall sign, d | sign in {"", "+", "-"} && IsNumber(s, sign, d, v)
      ensures ParseI64(s) == Some(v)
    {
      assert sign == "" ==> s == d && IsDigit(s[0]);
      assert sign != "" ==> s[0] == sign[0] && s[1..] == d;
    }
  }

  ghost predicate IsNumber(s: string, sign: string, d: string, v: int) {
    && Digits(d) && s == sign + d && v == (if sign == "-" then 0 - DecimalValue(d) else DecimalValue(d))
    && -0x8000_0000_0000_0000 <= v <= 0x7FFF_FFFF_FFFF_FFFF
  }

  /** Examples of decimals. */
  lemma DecimalExamples()
    ensures Decimal(0) == "0" && Decimal(1905) == "1905" && Decimal(-62) == "-62"
  {
    assert NatDecimal(19) == "19" && NatDecimal(190) == "190" && NatDecimal(62) == "62";
  }

  /** The white space of Unicode, by code point. */
  lemma WhiteSpace(c: char)
    ensures IsWhite(c) <==>
            var n := c as int;
            || 9 <= n <= 13 || 8192 <= n <= 8202
            || n in {32, 133, 160, 5760, 8232, 8233, 8239, 8287, 12288}
  {
  }
}
