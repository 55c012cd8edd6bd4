/**
 The query string of a signed broker request: `application/x-www-form-urlencoded`
 serializing of byte-string pairs, and its inverse, the standard's parser (sections 5.1
 and 5.2 of the WHATWG URL Standard), both on bytes.
 */
module QueryString {
  import Utf8

  type Byte = Utf8.Byte

  type Pair = (seq<Byte>, seq<Byte>)

  const AMP: Byte := 0x26
  const EQ: Byte := 0x3D
  const PLUS: Byte := 0x2B
  const PERCENT: Byte := 0x25
  const SPACE: Byte := 0x20

  // ---- Serializer ----

  /** Letters, digits and `*-._` stand for themselves. */
  predicate Unreserved(b: Byte) {
    0x30 <= b <= 0x39 || 0x41 <= b <= 0x5A || 0x61 <= b <= 0x7A
    || b == 0x2A || b == 0x2D || b == 0x2E || b == 0x5F
  }

  function HexDigit(n: nat): Byte
    requires n < 16
  {
    if n < 10 then 0x30 + n else 0x41 + n - 10
  }

  function EncodeByte(b: Byte): seq<Byte> {
    if Unreserved(b) then [b]
    else if b == SPACE then [PLUS]
    else [PERCENT, HexDigit(b / 16), HexDigit(b % 16)]
  }

  function Encode(s: seq<Byte>): seq<Byte> {
    if s == [] then [] else EncodeByte(s[0]) + Encode(s[1..])
  }

  function EncodePair(p: Pair): seq<Byte> {
    Encode(p.0) + [EQ] + Encode(p.1)
  }

  function Build(params: seq<Pair>): seq<Byte> {
    if params == [] then []
    else if |params| == 1 then EncodePair(params[0])
    else Build(params[..|params| - 1]) + [AMP] + EncodePair(params[|params| - 1])
  }

  method BuildQueryString(params: seq<Pair>) returns (out: seq<Byte>)
    ensures out == Build(params)
    ensures Parse(out) == params
  {
    out := [];
    for i := 0 to |params|
      invariant out == Build(params[..i])
    {
      assert params[..i + 1][..i] == params[..i];
      if i > 0 {
        out := out + [AMP];
      }
      out := out + Encode(params[i].0);
      out := out + [EQ];
      out := out + Encode(params[i].1);
      if i > 0 {
        assert out == Build(params[..i]) + [AMP] + EncodePair(params[i]);
      }
    }
    assert params[..|params|] == params;
    ParseBuild(params);
  }

  // ---- Parser ----

  /** The position of the first `x`, or the length. */
  function Find(s: seq<Byte>, x: Byte): (i: nat)
    ensures i <= |s| && x !in s[..i] && (i < |s| ==> s[i] == x)
  {
    if s == [] || s[0] == x then 0
    else
      var i := Find(s[1..], x);
      assert s[..i + 1] == [s[0]] + s[1..][..i];
      i + 1
  }

  function Split(s: seq<Byte>, x: Byte): seq<seq<Byte>>
    decreases |s|
  {
    var i := Find(s, x);
    if i == |s| then [s] else [s[..i]] + Split(s[i + 1..], x)
  }

  function HexValue(b: Byte): (n: int)
    ensures -1 <= n < 16
  {
    if 0x30 <= b <= 0x39 then b - 0x30
    else if 0x41 <= b <= 0x46 then b - 0x41 + 10
    else if 0x61 <= b <= 0x66 then b - 0x61 + 10
    else -1
  }

  /** Percent-decode, after `+` became a space. A `%` without two hex digits stays. */
  function Decoded(s: seq<Byte>): seq<Byte> {
    if s == [] then []
    else if s[0] == PLUS then [SPACE] + Decoded(s[1..])
    else if s[0] == PERCENT && |s| >= 3 && HexValue(s[1]) >= 0 && HexValue(s[2]) >= 0
    then [HexValue(s[1]) * 16 + HexValue(s[2])] + Decoded(s[3..])
    else [s[0]] + Decoded(s[1..])
  }

  function ParsePair(s: seq<Byte>): Pair {
    var i := Find(s, EQ);
    (Decoded(s[..i]), if i == |s| then [] else Decoded(s[i + 1..]))
  }

  function ParsePairs(parts: seq<seq<Byte>>): seq<Pair> {
    if parts == [] then []
    else if parts[0] == [] then ParsePairs(parts[1..])
    else [ParsePair(parts[0])] + ParsePairs(parts[1..])
  }

  function Parse(s: seq<Byte>): seq<Pair> { ParsePairs(Split(s, AMP)) }

  // ---- Round trip ----

  lemma DecodedOne(b: Byte, rest: seq<Byte>)
    ensures Decoded(EncodeByte(b) + rest) == [b] + Decoded(rest)
    ensures AMP !in EncodeByte(b) && EQ !in EncodeByte(b)
  {
    var e := EncodeByte(b);
    var s := e + rest;
    assert s[0] == e[0];
    assert s[|e|..] == rest;
    if |e| == 3 {
      assert s[1] == e[1] && s[2] == e[2];
      assert HexValue(e[1]) == b / 16 && HexValue(e[2]) == b % 16;
    }
  }

  lemma {:induction false} DecodedEncode(s: seq<Byte>)
    ensures Decoded(Encode(s)) == s
    ensures AMP !in Encode(s) && EQ !in Encode(s)
  {
    if s == [] {
    } else {
      DecodedEncode(s[1..]);
      DecodedOne(s[0], Encode(s[1..]));
    }
  }

  lemma FindAfter(a: seq<Byte>, x: Byte, b: seq<Byte>)
    requires x !in a
    ensures Find(a + [x] + b, x) == |a| && Find(a, x) == |a|
  {
    var s := a + [x] + b;
    var i := Find(s, x);
    assert s[|a|] == x;
    assert forall k :: 0 <= k < |a| ==> s[k] == a[k];
    assert i == |a|;
  }

  lemma ParseEncodedPair(p: Pair)
    ensures ParsePair(EncodePair(p)) == p && EncodePair(p) != [] && AMP !in EncodePair(p)
  {
    DecodedEncode(p.0);
    DecodedEncode(p.1);
    FindAfter(Encode(p.0), EQ, Encode(p.1));
    var s := EncodePair(p);
    assert s[..|Encode(p.0)|] == Encode(p.0) && s[|Encode(p.0)| + 1..] == Encode(p.1);
  }

  /** Splitting a string extended by one more separated part. */
  /** A piece without the separator comes off the front. */
  lemma SplitHead(a: seq<Byte>, x: Byte, b: seq<Byte>)
    requires x !in a
    ensures Split(a + [x] + b, x) == [a] + Split(b, x)
  {
    var s := a + [x] + b;
    FindAfter(a, x, b);
    assert s[..|a|] == a && s[|a| + 1..] == b;
  }

  lemma SplitWhole(a: seq<Byte>, x: Byte)
    requires x !in a
    ensures Split(a, x) == [a]
  {
    FindNone(a, x);
  }

  lemma CutAt(s: seq<Byte>, i: nat, x: Byte, last: seq<Byte>)
    requires i < |s| && s[i] == x
    ensures s == s[..i] + [x] + s[i + 1..]
    ensures s + [x] + last == s[..i] + [x] + (s[i + 1..] + [x] + last)
  {
  }

  lemma {:induction false} SplitSnoc(s: seq<Byte>, x: Byte, last: seq<Byte>)
    requires x !in last
    ensures Split(s + [x] + last, x) == Split(s, x) + [last]
    decreases |s|
  {
    var i := Find(s, x);
    if i == |s| {
      assert s[..i] == s;
      SplitHead(s, x, last);
      SplitWhole(last, x);
      SplitWhole(s, x);
    } else {
      var front, rest := s[..i], s[i + 1..];
      CutAt(s, i, x, last);
      SplitHead(front, x, rest);
      SplitHead(front, x, rest + [x] + last);
      SplitSnoc(rest, x, last);
      Utf8.ConsConcat(front, Split(rest, x), [last]);
    }
  }

  lemma FindNone(s: seq<Byte>, x: Byte)
    requires x !in s
    ensures Find(s, x) == |s|
  {
  }

  lemma {:induction false} ParsePairsSnoc(parts: seq<seq<Byte>>, last: seq<Byte>)
    requires last != []
    ensures ParsePairs(parts + [last]) == ParsePairs(parts) + [ParsePair(last)]
  {
    if parts == [] {
      assert (parts + [last])[1..] == [];
    } else {
      ParsePairsSnoc(parts[1..], last);
      assert (parts + [last])[1..] == parts[1..] + [last];
    }
  }

  lemma ParseSingle(p: Pair)
    ensures Parse(EncodePair(p)) == [p]
  {
    var s := EncodePair(p);
    ParseEncodedPair(p);
    FindNone(s, AMP);
    var none: seq<seq<Byte>> := [];
    assert Split(s, AMP) == none + [s];
    ParsePairsSnoc(none, s);
  }

  lemma ParseSnoc(s: seq<Byte>, p: Pair)
    ensures Parse(s + [AMP] + EncodePair(p)) == Parse(s) + [p]
  {
    ParseEncodedPair(p);
    SplitSnoc(s, AMP, EncodePair(p));
    ParsePairsSnoc(Split(s, AMP), EncodePair(p));
  }

  lemma ParseNothing()
    ensures Parse([]) == []
  {
    var one: seq<seq<Byte>> := [[]];
    assert Split([], AMP) == one && one[1..] == [];
  }

  /** Parsing the built string returns the parameters, in order. */
  lemma {:induction false} ParseBuild(params: seq<Pair>)
    ensures Parse(Build(params)) == params
  {
    if params == [] {
      ParseNothing();
    } else if |params| == 1 {
      ParseSingle(params[0]);
    } else {
      var front, p := params[..|params| - 1], params[|params| - 1];
      assert Build(params) == Build(front) + [AMP] + EncodePair(p);
      assert params == front + [p];
      ParseSnoc(Build(front), p);
      ParseBuild(front);
    }
  }

  /** Only unreserved bytes, `+`, `%` and the two separators ever appear. */
  lemma {:induction false} BuildIsUrlSafe(params: seq<Pair>)
    ensures forall b :: b in Build(params) ==> Unreserved(b) || b in {PLUS, PERCENT, AMP, EQ}
  {
    if params == [] {
    } else {
      var p := params[|params| - 1];
      EncodeIsUrlSafe(p.0);
      EncodeIsUrlSafe(p.1);
      BuildIsUrlSafe(params[..|params| - 1]);
    }
  }

  lemma {:induction false} EncodeIsUrlSafe(s: seq<Byte>)
    ensures forall b :: b in Encode(s) ==> Unreserved(b) || b in {PLUS, PERCENT}
  {
    if s == [] {
    } else {
      EncodeIsUrlSafe(s[1..]);
    }
  }

  /** Different parameter lists never share a query, so never a signed request. */
  lemma BuildIsInjective(a: seq<Pair>, b: seq<Pair>)
    requires Build(a) == Build(b)
    ensures a == b
  {
    ParseBuild(a);
    ParseBuild(b);
  }

  // ---- The form of the encoding ----

  const HEX: string := "0123456789ABCDEF"

  /** A byte stands for itself, becomes a plus sign, or is written as two upper-case hex digits. */
  lemma EncodeByteMeans(b: Byte)
    ensures EncodeByte(b) ==
            if b == ' ' as int then ['+' as int]
            else if '0' as int <= b <= '9' as int || 'A' as int <= b <= 'Z' as int || 'a' as int <= b <= 'z' as int
                    || b in {'*' as int, '-' as int, '.' as int, '_' as int} then [b]
            else ['%' as int, HEX[b / 16] as int, HEX[b % 16] as int]
  {
    HexDigitMeans(b / 16);
    HexDigitMeans(b % 16);
  }

  lemma HexDigitMeans(n: nat)
    requires n < 16
    ensures HexDigit(n) == HEX[n] as int
  {
  }

  /** Values are encoded byte by byte, keys and values joined by `=`, and pairs by `&`, in order. */
  lemma BuildMeans(params: seq<Pair>, k: seq<Byte>, v: seq<Byte>, s: seq<Byte>, t: seq<Byte>, b: Byte)
    ensures Build([]) == []
    ensures Build([(k, v)]) == Encode(k) + ['=' as int] + Encode(v)
    ensures params != [] ==> Build(params + [(k, v)]) == Build(params) + ['&' as int] + Build([(k, v)])
    ensures Encode([b]) == EncodeByte(b) && Encode(s + t) == Encode(s) + Encode(t)
  {
    assert (params + [(k, v)])[..|params|] == params;
    assert [b][1..] == [] && EncodeByte(b) + [] == EncodeByte(b);
    EncodeConcat(s, t);
  }

  lemma {:induction false} EncodeConcat(s: seq<Byte>, t: seq<Byte>)
    ensures Encode(s + t) == Encode(s) + Encode(t)
  {
    if s == [] {
      Utf8.EmptyConcat(t);
      Utf8.EmptyConcat(Encode(t));
    } else {
      var rest := s[1..];
      assert (s + t)[0] == s[0] && (s + t)[1..] == rest + t;
      EncodeConcat(rest, t);
      Rebracket(EncodeByte(s[0]), Encode(rest), Encode(t));
    }
  }

  lemma Rebracket(a: seq<Byte>, b: seq<Byte>, c: seq<Byte>)
    ensures a + (b + c) == a + b + c
  {
  }
}
