/**
 Lossy UTF-8 decoding as the standard library does it (each maximal ill-formed prefix
 becomes one U+FFFD), and what it preserves of a byte stream cut into chunks.
 */
module Utf8 {
  type Byte = b: int | 0 <= b < 256

  const REPLACEMENT: char := '\U{FFFD}'

  predicate IsContinuation(b: Byte) { 0x80 <= b < 0xC0 }

  /** Length of a well-formed sequence by its first byte (section 4 of RFC 3629); 0 if none. */
  function Width(lead: Byte): nat {
    if lead < 0x80 then 1
    else if 0xC2 <= lead < 0xE0 then 2
    else if 0xE0 <= lead < 0xF0 then 3
    else if 0xF0 <= lead < 0xF5 then 4
    else 0
  }

  predicate SecondOk(lead: Byte, b: Byte) {
    if lead == 0xE0 then 0xA0 <= b < 0xC0
    else if lead == 0xED then 0x80 <= b < 0xA0
    else if lead == 0xF0 then 0x90 <= b < 0xC0
    else if lead == 0xF4 then 0x80 <= b < 0x90
    else IsContinuation(b)
  }

  function Code2(a: int, b: int): int { (a - 0xC0) * 0x40 + (b - 0x80) }

  function Code3(a: int, b: int, c: int): int { (a - 0xE0) * 0x1000 + (b - 0x80) * 0x40 + (c - 0x80) }

  function Code4(a: int, b: int, c: int, d: int): int {
    (a - 0xF0) * 0x4_0000 + (b - 0x80) * 0x1000 + (c - 0x80) * 0x40 + (d - 0x80)
  }

  datatype Piece = Piece(c: char, len: nat)

  /** The first decoded character and the number of bytes it consumes. */
  function FirstPiece(bs: seq<Byte>): (p: Piece)
    requires bs != []
    ensures 1 <= p.len <= |bs|
    ensures if bs[0] < 0x80 then p == Piece(bs[0] as char, 1) else p.c as int >= 0x80
    ensures forall i :: 1 <= i < p.len ==> bs[i] >= 0x80
  {
    var b, w := bs[0], Width(bs[0]);
    if w == 1 then Piece(b as char, 1)
    else if w == 0 || |bs| < 2 || !SecondOk(b, bs[1]) then Piece(REPLACEMENT, 1)
    else if w == 2 then Piece(Code2(b, bs[1]) as char, 2)
    else if |bs| < 3 || !IsContinuation(bs[2]) then Piece(REPLACEMENT, 2)
    else if w == 3 then Piece(Code3(b, bs[1], bs[2]) as char, 3)
    else if |bs| < 4 || !IsContinuation(bs[3]) then Piece(REPLACEMENT, 3)
    else Piece(Code4(b, bs[1], bs[2], bs[3]) as char, 4)
  }

  function Decode(bs: seq<Byte>): string {
    if bs == [] then []
    else
      var p := FirstPiece(bs);
      [p.c] + Decode(bs[p.len..])
  }

  lemma FirstPieceAtBoundary(a: seq<Byte>, b: seq<Byte>)
    requires a != [] && (b == [] || !IsContinuation(b[0]))
    ensures FirstPiece(a + b) == FirstPiece(a)
  {
    var s := a + b;
    assert s[0] == a[0];
    if |a| > 1 {
      assert s[1] == a[1];
    } else if b != [] {
      assert s[1] == b[0];
    }
    if |a| > 2 {
      assert s[2] == a[2];
    } else if |a| == 2 && b != [] {
      assert s[2] == b[0];
    }
    if |a| > 3 {
      assert s[3] == a[3];
    } else if |a| == 3 && b != [] {
      assert s[3] == b[0];
    }
  }

  /** The first character comes off both alike, and leaves shorter bytes. */
  lemma DecodeStep(a: seq<Byte>, b: seq<Byte>) returns (c: char, rest: seq<Byte>)
    requires a != [] && (b == [] || !IsContinuation(b[0]))
    ensures |rest| < |a| && Decode(a) == [c] + Decode(rest) && Decode(a + b) == [c] + Decode(rest + b)
  {
    FirstPieceAtBoundary(a, b);
    var p := FirstPiece(a);
    c, rest := p.c, a[p.len..];
    assert (a + b)[p.len..] == rest + b;
  }

  /** Decoding commutes with a cut that does not fall before a continuation byte. */
  lemma {:induction false} DecodeAtBoundary(a: seq<Byte>, b: seq<Byte>)
    requires b == [] || !IsContinuation(b[0])
    ensures Decode(a + b) == Decode(a) + Decode(b)
    decreases |a|
  {
    if a == [] {
      EmptyConcat(b);
      EmptyConcat(Decode(b));
    } else {
      var c, rest := DecodeStep(a, b);
      DecodeAtBoundary(rest, b);
      ConsConcat(c, Decode(rest), Decode(b));
    }
  }

  lemma EmptyConcat<T>(s: seq<T>)
    ensures [] + s == s
  {
  }

  lemma ConsConcat<T>(x: T, s: seq<T>, t: seq<T>)
    ensures [x] + (s + t) == [x] + s + t
  {
  }

  // ---- The encoding it inverts (section 3 of RFC 3629) ----

  function EncodeChar(c: char): seq<Byte> {
    var n := c as int;
    if n < 0x80 then [n]
    else if n < 0x800 then [0xC0 + n / 0x40, 0x80 + n % 0x40]
    else if n < 0x1_0000 then [0xE0 + n / 0x1000, 0x80 + n / 0x40 % 0x40, 0x80 + n % 0x40]
    else [0xF0 + n / 0x4_0000, 0x80 + n / 0x1000 % 0x40, 0x80 + n / 0x40 % 0x40, 0x80 + n % 0x40]
  }

  function Encode(s: string): seq<Byte> {
    if s == [] then [] else EncodeChar(s[0]) + Encode(s[1..])
  }

  lemma Digits3(n: int)
    requires 0x800 <= n < 0x1_0000 && !(0xD800 <= n < 0xE000)
    ensures var a, b, c := 0xE0 + n / 0x1000, 0x80 + n / 0x40 % 0x40, 0x80 + n % 0x40;
            && 0xE0 <= a < 0xF0 && 0x80 <= b < 0xC0 && 0x80 <= c < 0xC0
            && SecondOk(a, b) && Code3(a, b, c) == n
  {
    var m := n / 0x40;
    assert n == 0x40 * m + n % 0x40;
    assert m == 0x40 * (m / 0x40) + m % 0x40;
    assert n / 0x1000 == m / 0x40;
  }

  lemma Digits4(n: int)
    requires 0x1_0000 <= n < 0x11_0000
    ensures var a, b, c, d := 0xF0 + n / 0x4_0000, 0x80 + n / 0x1000 % 0x40, 0x80 + n / 0x40 % 0x40, 0x80 + n % 0x40;
            && 0xF0 <= a < 0xF5 && 0x80 <= b < 0xC0 && 0x80 <= c < 0xC0 && 0x80 <= d < 0xC0
            && SecondOk(a, b) && Code4(a, b, c, d) == n
  {
    var m, k := n / 0x40, n / 0x1000;
    assert n == 0x40 * m + n % 0x40;
    assert k == m / 0x40;
    assert m == 0x40 * k + m % 0x40;
    assert n / 0x4_0000 == k / 0x40;
    assert k == 0x40 * (k / 0x40) + k % 0x40;
  }

  lemma FirstOfEncoded(c: char, rest: seq<Byte>)
    ensures FirstPiece(EncodeChar(c) + rest) == Piece(c, |EncodeChar(c)|)
  {
    var n, e := c as int, EncodeChar(c);
    var s := e + rest;
    assert s[..|e|] == e;
    if 0x800 <= n < 0x1_0000 {
      Digits3(n);
      assert s[0] == e[0] && s[1] == e[1] && s[2] == e[2];
    } else if 0x1_0000 <= n {
      Digits4(n);
      assert s[0] == e[0] && s[1] == e[1] && s[2] == e[2] && s[3] == e[3];
    }
  }

  /** Valid UTF-8 decodes to the text it encodes. */
  lemma {:induction false} DecodeEncode(s: string)
    ensures Decode(Encode(s)) == s
  {
    if s == [] {
    } else {
      var e, rest := EncodeChar(s[0]), Encode(s[1..]);
      FirstOfEncoded(s[0], rest);
      assert (e + rest)[|e|..] == rest;
      DecodeEncode(s[1..]);
    }
  }

  // ---- What becomes of ill-formed bytes ----

  /** An encoded character has the length its first byte tells, and bytes as they may follow it. */
  lemma EncodedForm(c: char)
    ensures var e := EncodeChar(c);
            && 1 <= |e| <= 4 && |e| == Width(e[0])
            && (|e| >= 2 ==> SecondOk(e[0], e[1]))
            && (|e| >= 3 ==> IsContinuation(e[2]))
            && (|e| >= 4 ==> IsContinuation(e[3]))
  {
    var n := c as int;
    if 0x800 <= n < 0x1_0000 {
      Digits3(n);
    } else if 0x1_0000 <= n {
      Digits4(n);
    }
  }

  lemma Encode2(a: Byte, b: Byte)
    requires Width(a) == 2 && SecondOk(a, b)
    ensures EncodeChar(Code2(a, b) as char) == [a, b]
  {
  }

  lemma Encode3(a: Byte, b: Byte, c: Byte)
    requires Width(a) == 3 && SecondOk(a, b) && IsContinuation(c)
    ensures 0x800 <= Code3(a, b, c) < 0x1_0000 && !(0xD800 <= Code3(a, b, c) < 0xE000)
    ensures EncodeChar(Code3(a, b, c) as char) == [a, b, c]
  {
    var n, hi := Code3(a, b, c), (a - 0xE0) * 0x40 + (b - 0x80);
    assert n == hi * 0x40 + (c - 0x80);
    assert n / 0x40 == hi && n % 0x40 == c - 0x80;
    assert hi / 0x40 == a - 0xE0 && hi % 0x40 == b - 0x80;
    assert n / 0x1000 == hi / 0x40;
  }

  lemma Encode4(a: Byte, b: Byte, c: Byte, d: Byte)
    requires Width(a) == 4 && SecondOk(a, b) && IsContinuation(c) && IsContinuation(d)
    ensures 0x1_0000 <= Code4(a, b, c, d) < 0x11_0000
    ensures EncodeChar(Code4(a, b, c, d) as char) == [a, b, c, d]
  {
    var n := Code4(a, b, c, d);
    var hi, mid := (a - 0xF0) * 0x40 + (b - 0x80), ((a - 0xF0) * 0x40 + (b - 0x80)) * 0x40 + (c - 0x80);
    assert n == mid * 0x40 + (d - 0x80);
    assert n / 0x40 == mid && n % 0x40 == d - 0x80;
    assert mid / 0x40 == hi && mid % 0x40 == c - 0x80;
    assert hi / 0x40 == a - 0xF0 && hi % 0x40 == b - 0x80;
    assert n / 0x1000 == mid / 0x40 && n / 0x4_0000 == hi / 0x40;
  }

  /** The bytes begin a well-formed character. */
  ghost predicate Begins(bs: seq<Byte>) { exists c :: bs <= EncodeChar(c) }

  lemma BeginsForm(bs: seq<Byte>, n: nat, c: char)
    requires 1 <= n <= |bs| && bs[..n] <= EncodeChar(c)
    ensures n <= Width(bs[0])
    ensures (n >= 2 ==> SecondOk(bs[0], bs[1])) && (n >= 3 ==> IsContinuation(bs[2])) && (n >= 4 ==> IsContinuation(bs[3]))
  {
    var e := EncodeChar(c);
    EncodedForm(c);
    assert forall i :: 0 <= i < n ==> e[i] == bs[..n][i];
  }

  /** A whole character at the front is what is decoded. */
  lemma WholeFirst(bs: seq<Byte>, c: char)
    requires EncodeChar(c) <= bs
    ensures bs != [] && FirstPiece(bs) == Piece(c, |EncodeChar(c)|)
  {
    var e := EncodeChar(c);
    EncodedForm(c);
    FirstOfEncoded(c, bs[|e|..]);
    assert bs == e + bs[|e|..];
  }

  /** A whole character is at the front. */
  predicate Whole(bs: seq<Byte>) {
    bs != [] &&
    match Width(bs[0])
    case 1 => true
    case 2 => |bs| >= 2 && SecondOk(bs[0], bs[1])
    case 3 => |bs| >= 3 && SecondOk(bs[0], bs[1]) && IsContinuation(bs[2])
    case 4 => |bs| >= 4 && SecondOk(bs[0], bs[1]) && IsContinuation(bs[2]) && IsContinuation(bs[3])
    case _ => false
  }

  lemma WholeIsEncoded(bs: seq<Byte>) returns (c: char)
    requires Whole(bs)
    ensures EncodeChar(c) <= bs
  {
    match Width(bs[0])
    case 1 =>
      c := bs[0] as char;
    case 2 =>
      Encode2(bs[0], bs[1]);
      c := Code2(bs[0], bs[1]) as char;
      assert [bs[0], bs[1]] <= bs;
    case 3 =>
      Encode3(bs[0], bs[1], bs[2]);
      c := Code3(bs[0], bs[1], bs[2]) as char;
      assert [bs[0], bs[1], bs[2]] <= bs;
    case 4 =>
      Encode4(bs[0], bs[1], bs[2], bs[3]);
      c := Code4(bs[0], bs[1], bs[2], bs[3]) as char;
      assert [bs[0], bs[1], bs[2], bs[3]] <= bs;
  }

  /** The length of the first piece, when no whole character is at the front. */
  lemma IllFormed(bs: seq<Byte>)
    requires bs != [] && !Whole(bs)
    ensures var p := FirstPiece(bs);
            && p.c == REPLACEMENT && p.len <= 3
            && (p.len == 1 || (p.len < Width(bs[0]) && SecondOk(bs[0], bs[1]) && (p.len == 3 ==> IsContinuation(bs[2]))))
            && (p.len < |bs| ==>
                  || Width(bs[0]) == 0
                  || (p.len == 1 && !SecondOk(bs[0], bs[1]))
                  || (p.len == 2 && !IsContinuation(bs[2]))
                  || (p.len == 3 && !IsContinuation(bs[3])))
  {
  }

  lemma Completes(a: Byte, b: Byte, c: Byte)
    requires Width(a) >= 3 && SecondOk(a, b)
    ensures Begins([a, b])
    ensures Width(a) == 4 && IsContinuation(c) ==> Begins([a, b, c])
  {
    if Width(a) == 3 {
      Encode3(a, b, 0x80);
      assert [a, b] <= [a, b, 0x80];
      assert [a, b] <= EncodeChar(Code3(a, b, 0x80) as char);
    } else {
      Encode4(a, b, 0x80, 0x80);
      assert [a, b] <= EncodeChar(Code4(a, b, 0x80, 0x80) as char);
      if IsContinuation(c) {
        Encode4(a, b, c, 0x80);
        assert [a, b, c] <= EncodeChar(Code4(a, b, c, 0x80) as char);
      }
    }
  }

  /**
   Lossy decoding, written out. A well-formed character at the front is taken. Otherwise
   one U+FFFD is, for the longest prefix that begins some well-formed character, or for a
   single byte if there is none.
   */
  lemma FirstPieceMeans(bs: seq<Byte>)
    requires bs != []
    ensures forall c :: EncodeChar(c) <= bs ==> FirstPiece(bs) == Piece(c, |EncodeChar(c)|)
    ensures (forall c :: !(EncodeChar(c) <= bs)) ==>
              var p := FirstPiece(bs);
              && p.c == REPLACEMENT && (p.len == 1 || Begins(bs[..p.len]))
              && forall n :: p.len < n <= |bs| ==> !Begins(bs[..n])
  {
    forall c | EncodeChar(c) <= bs
      ensures FirstPiece(bs) == Piece(c, |EncodeChar(c)|)
    {
      WholeFirst(bs, c);
    }
    if Whole(bs) {
      var c := WholeIsEncoded(bs);
    } else {
      IllFormedMeans(bs);
    }
  }

  lemma IllFormedMeans(bs: seq<Byte>)
    requires bs != [] && !Whole(bs)
    ensures var p := FirstPiece(bs);
            && p.c == REPLACEMENT && (p.len == 1 || Begins(bs[..p.len]))
            && forall n :: p.len < n <= |bs| ==> !Begins(bs[..n])
  {
    var p := FirstPiece(bs);
    IllFormed(bs);
    if p.len == 2 {
      Completes(bs[0], bs[1], 0x80);
      assert bs[..2] == [bs[0], bs[1]];
    } else if p.len == 3 {
      Completes(bs[0], bs[1], bs[2]);
      assert bs[..3] == [bs[0], bs[1], bs[2]];
    }
    forall n, c | p.len < n <= |bs|
      ensures !(bs[..n] <= EncodeChar(c))
    {
      NotBegun(bs, n, c);
    }
  }

  lemma NotBegun(bs: seq<Byte>, n: nat, c: char)
    requires bs != [] && !Whole(bs) && FirstPiece(bs).len < n <= |bs|
    ensures !(bs[..n] <= EncodeChar(c))
  {
    IllFormed(bs);
    if bs[..n] <= EncodeChar(c) {
      BeginsForm(bs, n, c);
    }
  }

  // ---- The ASCII skeleton: ASCII characters in place, each other run as one mark ----

  const MARK: nat := 128

  function Class(c: char): nat {
    if c as int < 128 then c as int else MARK
  }

  function Attach(k: nat, rest: seq<nat>): seq<nat> {
    if k == MARK && rest != [] && rest[0] == MARK then rest else [k] + rest
  }

  function Skeleton(s: string): seq<nat> {
    if s == [] then [] else Attach(Class(s[0]), Skeleton(s[1..]))
  }

  /** The bytes themselves, each as the character of the same number. */
  function Latin1(bs: seq<Byte>): string {
    if bs == [] then [] else [bs[0] as char] + Latin1(bs[1..])
  }

  function Join(k: seq<nat>, l: seq<nat>): seq<nat> {
    if k != [] && l != [] && k[|k| - 1] == MARK && l[0] == MARK then k + l[1..] else k + l
  }

  lemma AttachJoin(k: nat, a: seq<nat>, b: seq<nat>)
    ensures Attach(k, Join(a, b)) == Join(Attach(k, a), b)
  {
    if a == [] {
      assert a + b == b;
    } else {
      assert Join(a, b)[0] == a[0];
      if b != [] {
        assert [k] + (a + b[1..]) == [k] + a + b[1..];
      }
      assert [k] + (a + b) == [k] + a + b;
    }
  }

  lemma {:induction false} SkeletonConcat(s: string, t: string)
    ensures Skeleton(s + t) == Join(Skeleton(s), Skeleton(t))
    ensures Skeleton(s) == [] <==> s == []
    decreases |s|
  {
    if s == [] {
      assert s + t == t && [] + Skeleton(t) == Skeleton(t);
    } else {
      SkeletonConcat(s[1..], t);
      assert (s + t)[1..] == s[1..] + t;
      AttachJoin(Class(s[0]), Skeleton(s[1..]), Skeleton(t));
    }
  }

  lemma {:induction false} Latin1Concat(a: seq<Byte>, b: seq<Byte>)
    ensures Latin1(a + b) == Latin1(a) + Latin1(b)
    decreases |a|
  {
    if a == [] {
      EmptyConcat(b);
      EmptyConcat(Latin1(b));
    } else {
      var rest := a[1..];
      assert (a + b)[0] == a[0] && (a + b)[1..] == rest + b;
      Latin1Concat(rest, b);
      ConsConcat(a[0] as char, Latin1(rest), Latin1(b));
    }
  }

  lemma {:induction false} NonAsciiRun(bs: seq<Byte>, n: nat)
    requires 1 <= n <= |bs| && forall i :: 0 <= i < n ==> bs[i] >= 0x80
    ensures Skeleton(Latin1(bs)) == Attach(MARK, Skeleton(Latin1(bs[n..])))
    decreases n
  {
    assert Latin1(bs)[1..] == Latin1(bs[1..]);
    if n == 1 {
    } else {
      NonAsciiRun(bs[1..], n - 1);
      assert bs[1..][n - 1..] == bs[n..];
    }
  }

  /** Lossy decoding keeps ASCII bytes in place and turns other runs into other runs. */
  lemma {:induction false} DecodeKeepsSkeleton(bs: seq<Byte>)
    ensures Skeleton(Decode(bs)) == Skeleton(Latin1(bs))
    decreases |bs|
  {
    if bs == [] {
    } else {
      var p := FirstPiece(bs);
      DecodeKeepsSkeleton(bs[p.len..]);
      assert Decode(bs)[1..] == Decode(bs[p.len..]);
      if bs[0] < 0x80 {
        assert Latin1(bs)[1..] == Latin1(bs[1..]);
      } else {
        NonAsciiRun(bs, p.len);
      }
    }
  }

  // ---- Chunked streams ----

  function Bytes(chunks: seq<seq<Byte>>): seq<Byte> {
    if chunks == [] then [] else Bytes(chunks[..|chunks| - 1]) + chunks[|chunks| - 1]
  }

  /** The text obtained by decoding chunk by chunk. */
  function Text(chunks: seq<seq<Byte>>): string {
    if chunks == [] then [] else Text(chunks[..|chunks| - 1]) + Decode(chunks[|chunks| - 1])
  }

  /** Wherever the chunks are cut, the text has the skeleton of the uncut stream. */
  lemma {:induction false} ChunkedSkeleton(chunks: seq<seq<Byte>>)
    ensures Skeleton(Text(chunks)) == Skeleton(Latin1(Bytes(chunks)))
  {
    if chunks == [] {
    } else {
      var front, last := chunks[..|chunks| - 1], chunks[|chunks| - 1];
      ChunkedSkeleton(front);
      DecodeKeepsSkeleton(last);
      SkeletonConcat(Text(front), Decode(last));
      Latin1Concat(Bytes(front), last);
      SkeletonConcat(Latin1(Bytes(front)), Latin1(last));
    }
  }

  /** Every cut falls on a character boundary: no chunk but the first starts with a continuation byte. */
  predicate CutOnBoundaries(chunks: seq<seq<Byte>>) {
    forall i :: 0 < i < |chunks| && chunks[i] != [] ==> !IsContinuation(chunks[i][0])
  }

  /** Cut on character boundaries, the chunks decode to the text of the uncut stream. */
  lemma {:induction false} BoundaryCutsAreInvisible(chunks: seq<seq<Byte>>)
    requires CutOnBoundaries(chunks)
    ensures Text(chunks) == Decode(Bytes(chunks))
  {
    if chunks == [] {
    } else {
      var front, last := chunks[..|chunks| - 1], chunks[|chunks| - 1];
      BoundaryCutsAreInvisible(front);
      if front == [] {
        assert Bytes(front) + last == last;
      } else {
        DecodeAtBoundary(Bytes(front), last);
      }
    }
  }

  // ---- Exactly which cuts of valid UTF-8 are invisible ----

  /** The number of bytes that are not continuation bytes. */
  function Leads(bs: seq<Byte>): nat {
    if bs == [] then 0 else Leads(bs[1..]) + if IsContinuation(bs[0]) then 0 else 1
  }

  lemma {:induction false} LeadsConcat(a: seq<Byte>, b: seq<Byte>)
    ensures Leads(a + b) == Leads(a) + Leads(b)
    decreases |a|
  {
    if a == [] {
      assert a + b == b;
    } else {
      LeadsConcat(a[1..], b);
      assert (a + b)[1..] == a[1..] + b;
    }
  }

  lemma {:induction false} LeadsOfRun(bs: seq<Byte>)
    requires forall i :: 0 <= i < |bs| ==> IsContinuation(bs[i])
    ensures Leads(bs) == 0
  {
    if bs == [] {
    } else {
      LeadsOfRun(bs[1..]);
    }
  }

  /** A decoded piece holds no lead byte beyond its first. */
  lemma {:induction false} LeadsOfPiece(bs: seq<Byte>)
    requires bs != []
    ensures Leads(bs) == Leads(bs[FirstPiece(bs).len..]) + if IsContinuation(bs[0]) then 0 else 1
  {
    var n := FirstPiece(bs).len;
    var run := bs[1..n];
    assert forall i :: 0 <= i < |run| ==> IsContinuation(run[i]);
    LeadsOfRun(run);
    assert bs[1..] == run + bs[n..];
    LeadsConcat(run, bs[n..]);
  }

  /** Each lead byte begins a piece, and so does a continuation byte at the start. */
  lemma {:induction false} PiecesCoverLeads(bs: seq<Byte>)
    ensures |Decode(bs)| >= Leads(bs) + if StartsInside(bs) then 1 else 0
    decreases |bs|
  {
    if bs == [] {
    } else {
      var n := FirstPiece(bs).len;
      PiecesCoverLeads(bs[n..]);
      LeadsOfPiece(bs);
    }
  }

  lemma {:induction false} LeadsOfEncoded(s: string)
    ensures Leads(Encode(s)) == |s|
  {
    if s == [] {
    } else {
      var e := EncodeChar(s[0]);
      LeadsOfEncoded(s[1..]);
      LeadsConcat(e, Encode(s[1..]));
      LeadsOfRun(e[1..]);
    }
  }

  predicate StartsInside(bs: seq<Byte>) { bs != [] && IsContinuation(bs[0]) }

  lemma LastCut(chunks: seq<seq<Byte>>)
    requires chunks != []
    ensures var n := |chunks| - 1;
            CutOnBoundaries(chunks) || StartsInside(chunks[n]) || !CutOnBoundaries(chunks[..n])
  {
    var n := |chunks| - 1;
    assert forall i :: 0 <= i < n ==> chunks[..n][i] == chunks[i];
  }

  /** Every cut before a continuation byte adds a piece to the text. */
  lemma {:induction false} BadCutLengthens(chunks: seq<seq<Byte>>)
    ensures |Text(chunks)| >= Leads(Bytes(chunks)) + if CutOnBoundaries(chunks) then 0 else 1
  {
    if chunks == [] {
    } else {
      var n := |chunks| - 1;
      var front, last := chunks[..n], chunks[n];
      BadCutLengthens(front);
      PiecesCoverLeads(last);
      LeadsConcat(Bytes(front), last);
      LastCut(chunks);
    }
  }

  /** Valid UTF-8 cut into chunks decodes to its text exactly when every cut is on a character boundary. */
  lemma CutsAreInvisibleIff(chunks: seq<seq<Byte>>, s: string)
    requires Bytes(chunks) == Encode(s)
    ensures Text(chunks) == s <==> CutOnBoundaries(chunks)
  {
    if CutOnBoundaries(chunks) {
      BoundaryCutsAreInvisible(chunks);
      DecodeEncode(s);
    } else {
      BadCutLengthens(chunks);
      LeadsOfEncoded(s);
    }
  }

  /** Inside a character a cut is visible: the two bytes of U+00E9, together and apart. */
  lemma CutInsideCharacter()
    ensures Text([[0xC3, 0xA9]]) == "\U{E9}"
    ensures Text([[0xC3], [0xA9]]) == [REPLACEMENT, REPLACEMENT]
  {
    var whole, first, second: seq<Byte> := [0xC3, 0xA9], [0xC3], [0xA9];
    assert Decode(whole) == "\U{E9}" && Decode(first) == [REPLACEMENT] && Decode(second) == [REPLACEMENT];
    var one := [whole];
    assert one[..0] == [] && Text(one) == Decode(whole);
    var two := [first, second];
    var head := [first];
    assert two[..1] == head && head[..0] == [];
    assert Text(head) == Decode(first);
    assert Text(two) == Text(head) + Decode(second);
  }
}
