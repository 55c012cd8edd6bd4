/**
 The streaming AI proxy: re-framing of an upstream byte stream into events, and the
 decision to charge. The usage figures inside a payload come from a JSON parser that is
 not part of this model; it is the parameter `usageOf`. `sends` is how many events the
 client takes before it disconnects.
 */
module AiProxy {
  import opened Wrappers
  import opened Utf8
  import opened Credits
  import Billing

  type TokenUsage = Billing.TokenUsage

  const NO_USAGE: TokenUsage := Billing.TokenUsage(0, 0, 0)

  datatype Chunk = Data(bytes: seq<Byte>) | StreamError

  /** The chunks that arrive before the stream ends or breaks. */
  function Received(chunks: seq<Chunk>): seq<seq<Byte>> {
    if chunks == [] || chunks[0].StreamError? then [] else [chunks[0].bytes] + Received(chunks[1..])
  }

  datatype Proxy = Proxy(buf: string, usage: TokenUsage, done: bool, gone: bool, events: seq<string>) {
    predicate Over() { done || gone }

    /** What is left to see once the stream is over; the unread buffer is not. */
    function Outcome(): Proxy { this.(buf := []) }
  }

  function NewlineAt(s: string): (r: Option<nat>)
    ensures r.Some? ==> r.value < |s| && s[r.value] == '\n' && '\n' !in s[..r.value]
    ensures r.None? ==> '\n' !in s
  {
    if s == [] then None
    else if s[0] == '\n' then Some(0)
    else match NewlineAt(s[1..])
      case None => None
      case Some(i) =>
        assert s[..i + 1] == [s[0]] + s[1..][..i];
        Some(i + 1)
  }

  function TrimCr(s: string): string {
    if s != [] && s[|s| - 1] == '\r' then TrimCr(s[..|s| - 1]) else s
  }

  function Payload(line: string): Option<string> {
    var l := TrimCr(line);
    if "data: " <= l then Some(l[6..]) else None
  }

  /** The usage after a payload: the one it reports, if it reports one. */
  function Noted(payload: string, usage: TokenUsage, usageOf: string -> Option<TokenUsage>): TokenUsage {
    match usageOf(payload) case Some(u) => u case None => usage
  }

  /** The effect of one complete line. */
  function HandleLine(p: Proxy, line: string, usageOf: string -> Option<TokenUsage>, sends: nat): Proxy {
    match Payload(line)
    case None => p
    case Some(payload) =>
      if payload == "[DONE]" then
        p.(done := true, events := if |p.events| < sends then p.events + [payload] else p.events)
      else
        var usage := Noted(payload, p.usage, usageOf);
        if |p.events| < sends
        then p.(usage := usage, events := p.events + [payload])
        else p.(usage := usage, gone := true)
  }

  /** Take the first line off the buffer and handle it. */
  function TakeLine(p: Proxy, usageOf: string -> Option<TokenUsage>, sends: nat): (q: Proxy)
    requires NewlineAt(p.buf).Some?
    ensures q.buf == p.buf[NewlineAt(p.buf).value + 1..]
  {
    var nl := NewlineAt(p.buf).value;
    HandleLine(p.(buf := p.buf[nl + 1..]), p.buf[..nl], usageOf, sends)
  }

  /** All complete lines of the buffer, until the terminator or a disconnect. */
  function Drain(p: Proxy, usageOf: string -> Option<TokenUsage>, sends: nat): Proxy
    decreases |p.buf|
  {
    if p.Over() || NewlineAt(p.buf).None? then p
    else Drain(TakeLine(p, usageOf, sends), usageOf, sends)
  }

  function Start(text: string): Proxy { Proxy(text, NO_USAGE, false, false, []) }

  /** The reference: the whole text, framed at once. */
  function Framed(text: string, usageOf: string -> Option<TokenUsage>, sends: nat): Proxy {
    Drain(Start(text), usageOf, sends).Outcome()
  }

  predicate Chargeable(p: Proxy) { p.done && !p.gone }

  // ---- What framing at once means ----

  /** The complete lines: what precedes each newline. */
  function Lines(s: string): seq<string>
    decreases |s|
  {
    match NewlineAt(s)
    case None => []
    case Some(nl) => [s[..nl]] + Lines(s[nl + 1..])
  }

  function PayloadOf(line: string): seq<string> {
    match Payload(line) case Some(x) => [x] case None => []
  }

  function Payloads(lines: seq<string>): seq<string> {
    if lines == [] then []
    else PayloadOf(lines[0]) + Payloads(lines[1..])
  }

  /** The payloads before the first terminator. */
  function BeforeDone(ps: seq<string>): seq<string> {
    if ps == [] || ps[0] == "[DONE]" then [] else [ps[0]] + BeforeDone(ps[1..])
  }

  /** The payloads through the first terminator. */
  function ThroughDone(ps: seq<string>): seq<string> {
    if "[DONE]" in ps then BeforeDone(ps) + ["[DONE]"] else BeforeDone(ps)
  }

  function AtMost<T>(n: nat, s: seq<T>): seq<T> { if n <= |s| then s[..n] else s }

  function LastUsage(ps: seq<string>, initial: TokenUsage, usageOf: string -> Option<TokenUsage>): TokenUsage {
    if ps == [] then initial
    else LastUsage(ps[1..], Noted(ps[0], initial, usageOf), usageOf)
  }

  /**
   What becomes of a client that takes `left` more events when payloads `ps` come: it gets
   the first `left` of those through the terminator; it counts as gone when more than that
   precede the terminator; and the usage is the last one seen before the end.
   */
  ghost predicate Frames(p: Proxy, q: Proxy, ps: seq<string>, usageOf: string -> Option<TokenUsage>, left: nat) {
    Takes(p, q, BeforeDone(ps), ThroughDone(ps), "[DONE]" in ps, usageOf, left)
  }

  ghost predicate Takes(p: Proxy, q: Proxy, before: seq<string>, through: seq<string>, ends: bool,
                        usageOf: string -> Option<TokenUsage>, left: nat) {
    && q.events == p.events + AtMost(left, through)
    && (q.gone <==> |before| > left)
    && (q.done <==> ends && |before| <= left)
    && q.usage == LastUsage(AtMost(left + 1, before), p.usage, usageOf)
  }

  lemma AtMostCons<T>(n: nat, x: T, s: seq<T>)
    ensures AtMost(n + 1, [x] + s) == [x] + AtMost(n, s)
  {
  }

  lemma DoneCons(x: string, ps: seq<string>)
    ensures "[DONE]" in [x] + ps <==> x == "[DONE]" || "[DONE]" in ps
    ensures x != "[DONE]" ==> BeforeDone([x] + ps) == [x] + BeforeDone(ps) && ThroughDone([x] + ps) == [x] + ThroughDone(ps)
    ensures x == "[DONE]" ==> BeforeDone([x] + ps) == [] && ThroughDone([x] + ps) == ["[DONE]"]
  {
  }

  lemma UsageCons(x: string, ps: seq<string>, u: TokenUsage, usageOf: string -> Option<TokenUsage>)
    ensures LastUsage([x] + ps, u, usageOf) == LastUsage(ps, Noted(x, u, usageOf), usageOf)
  {
  }

  /** One payload more in front, taken by the client. */
  lemma TakesStep(p: Proxy, p': Proxy, q: Proxy, x: string, before: seq<string>, through: seq<string>,
                  ends: bool, usageOf: string -> Option<TokenUsage>, left: nat)
    requires p'.events == p.events + [x] && p'.usage == Noted(x, p.usage, usageOf)
    requires Takes(p', q, before, through, ends, usageOf, left)
    ensures Takes(p, q, [x] + before, [x] + through, ends, usageOf, left + 1)
  {
    AtMostCons(left, x, through);
    AtMostCons(left + 1, x, before);
    UsageCons(x, AtMost(left + 1, before), p.usage, usageOf);
    assert p.events + [x] + AtMost(left, through) == p.events + ([x] + AtMost(left, through));
  }

  lemma FramesStep(p: Proxy, p': Proxy, q: Proxy, x: string, ps: seq<string>,
                   usageOf: string -> Option<TokenUsage>, left: nat)
    requires x != "[DONE]"
    requires p'.events == p.events + [x] && p'.usage == Noted(x, p.usage, usageOf)
    requires Frames(p', q, ps, usageOf, left)
    ensures Frames(p, q, [x] + ps, usageOf, left + 1)
  {
    DoneCons(x, ps);
    TakesStep(p, p', q, x, BeforeDone(ps), ThroughDone(ps), "[DONE]" in ps, usageOf, left);
  }

  /** The payload at which the stream is over, whatever follows. */
  lemma FramesEnd(p: Proxy, line: string, x: string, ps: seq<string>,
                  usageOf: string -> Option<TokenUsage>, sends: nat)
    requires !p.Over() && |p.events| <= sends && Payload(line) == Some(x)
    requires x == "[DONE]" || |p.events| == sends
    ensures Frames(p, HandleLine(p, line, usageOf, sends), [x] + ps, usageOf, sends - |p.events|)
  {
  }

  lemma {:induction false} FramesLine(p: Proxy, q: Proxy, line: string, ps: seq<string>,
                                      usageOf: string -> Option<TokenUsage>, sends: nat)
    requires !p.Over() && |p.events| <= sends
    requires var p' := HandleLine(p, line, usageOf, sends);
             if p'.Over() then q == p' else |p'.events| <= sends && Frames(p', q, ps, usageOf, sends - |p'.events|)
    ensures Frames(p, q, PayloadOf(line) + ps, usageOf, sends - |p.events|)
  {
    if Payload(line).None? {
      assert [] + ps == ps;
    } else if Payload(line) == Some("[DONE]") || |p.events| == sends {
      FramesEnd(p, line, Payload(line).value, ps, usageOf, sends);
    } else {
      FramesStep(p, HandleLine(p, line, usageOf, sends), q, Payload(line).value, ps, usageOf, sends - |p.events| - 1);
    }
  }

  lemma LinesCons(s: string)
    requires NewlineAt(s).Some?
    ensures var nl := NewlineAt(s).value;
            Payloads(Lines(s)) == PayloadOf(s[..nl]) + Payloads(Lines(s[nl + 1..]))
  {
  }

  lemma NothingFramed(p: Proxy, usageOf: string -> Option<TokenUsage>, left: nat)
    requires !p.Over()
    ensures Frames(p, p, [], usageOf, left)
  {
  }

  lemma BufferIsNotFramed(p: Proxy, q: Proxy, buf: string, ps: seq<string>,
                          usageOf: string -> Option<TokenUsage>, left: nat)
    requires Frames(p.(buf := buf), q, ps, usageOf, left)
    ensures Frames(p, q, ps, usageOf, left)
  {
  }

  /** One line taken, and the rest `ps` framed as it should be. */
  lemma DrainFramesStep(p: Proxy, q: Proxy, ps: seq<string>,
                        usageOf: string -> Option<TokenUsage>, sends: nat)
    requires !p.Over() && |p.events| <= sends && NewlineAt(p.buf).Some?
    requires var p' := TakeLine(p, usageOf, sends);
             if p'.Over() then q == p' else |p'.events| <= sends && Frames(p', q, ps, usageOf, sends - |p'.events|)
    ensures Frames(p, q, PayloadOf(p.buf[..NewlineAt(p.buf).value]) + ps, usageOf, sends - |p.events|)
  {
    var nl := NewlineAt(p.buf).value;
    var line, rest := p.buf[..nl], p.buf[nl + 1..];
    assert TakeLine(p, usageOf, sends) == HandleLine(p.(buf := rest), line, usageOf, sends);
    FramesLine(p.(buf := rest), q, line, ps, usageOf, sends);
    BufferIsNotFramed(p, q, rest, PayloadOf(line) + ps, usageOf, sends - |p.events|);
  }

  lemma {:induction false} DrainFrames(p: Proxy, usageOf: string -> Option<TokenUsage>, sends: nat)
    requires !p.Over() && |p.events| <= sends
    ensures Frames(p, Drain(p, usageOf, sends), Payloads(Lines(p.buf)), usageOf, sends - |p.events|)
    decreases |p.buf|
  {
    if NewlineAt(p.buf).None? {
      NothingFramed(p, usageOf, sends - |p.events|);
    } else {
      var p' := TakeLine(p, usageOf, sends);
      if !p'.Over() {
        DrainFrames(p', usageOf, sends);
      }
      DrainFramesStep(p, Drain(p', usageOf, sends), Payloads(Lines(p'.buf)), usageOf, sends);
      LinesCons(p.buf);
    }
  }

  lemma OutcomeFrames(p: Proxy, q: Proxy, ps: seq<string>,
                      usageOf: string -> Option<TokenUsage>, left: nat)
    requires Frames(p, q, ps, usageOf, left)
    ensures Frames(p, q.Outcome(), ps, usageOf, left)
    ensures Chargeable(q.Outcome()) <==> "[DONE]" in ps && |BeforeDone(ps)| <= left
  {
  }

  /**
   The meaning of a framed stream in terms of its lines alone; in particular a reply is
   chargeable exactly when some complete line carries the terminator and the client took
   everything before it.
   */
  lemma FramedMeans(text: string, usageOf: string -> Option<TokenUsage>, sends: nat)
    ensures var ps := Payloads(Lines(text));
            && Frames(Start(text), Framed(text, usageOf, sends), ps, usageOf, sends)
            && (Chargeable(Framed(text, usageOf, sends)) <==> "[DONE]" in ps && |BeforeDone(ps)| <= sends)
  {
    var p := Start(text);
    DrainFrames(p, usageOf, sends);
    OutcomeFrames(p, Drain(p, usageOf, sends), Payloads(Lines(text)), usageOf, sends);
  }

  /** The last report among the payloads, or the initial usage if there is none. */
  lemma {:induction false} LastUsageMeans(ps: seq<string>, initial: TokenUsage, usageOf: string -> Option<TokenUsage>)
    ensures var u := LastUsage(ps, initial, usageOf);
            Reported(ps, u, initial, usageOf)
  {
    if ps == [] {
    } else {
      var rest, first := ps[1..], Noted(ps[0], initial, usageOf);
      var u := LastUsage(rest, first, usageOf);
      LastUsageMeans(rest, first, usageOf);
      if exists i: nat :: ReportsLast(rest, i, u, usageOf) {
        var i: nat :| ReportsLast(rest, i, u, usageOf);
        assert ReportsLast(ps, i + 1, u, usageOf) by {
          assert forall j :: 0 < j < |ps| ==> ps[j] == rest[j - 1];
        }
      } else {
        assert forall j :: 0 < j < |ps| ==> ps[j] == rest[j - 1];
        assert usageOf(ps[0]).Some? ==> ReportsLast(ps, 0, u, usageOf);
      }
    }
  }

  /** Payload `i` reports this usage, and no later one reports any. */
  ghost predicate ReportsLast(ps: seq<string>, i: nat, u: TokenUsage, usageOf: string -> Option<TokenUsage>) {
    i < |ps| && usageOf(ps[i]) == Some(u) && forall j :: i < j < |ps| ==> usageOf(ps[j]).None?
  }

  /** The usage is the last one reported, or this default if none is. */
  ghost predicate Reported(ps: seq<string>, u: TokenUsage, default: TokenUsage, usageOf: string -> Option<TokenUsage>) {
    || (exists i: nat :: ReportsLast(ps, i, u, usageOf))
    || ((forall i :: 0 <= i < |ps| ==> usageOf(ps[i]).None?) && u == default)
  }

  /**
   The usage of a framed stream is the last report among the payloads it got to see: those
   before the terminator, up to and with the one at which the client was gone. Without any
   report it is zero.
   */
  lemma FramedUsage(text: string, usageOf: string -> Option<TokenUsage>, sends: nat)
    ensures var ps := AtMost(sends + 1, BeforeDone(Payloads(Lines(text))));
            var u := Framed(text, usageOf, sends).usage;
            Reported(ps, u, Billing.TokenUsage(0, 0, 0), usageOf)
  {
    FramedMeans(text, usageOf, sends);
    var ps := AtMost(sends + 1, BeforeDone(Payloads(Lines(text))));
    assert Framed(text, usageOf, sends).usage == LastUsage(ps, Billing.TokenUsage(0, 0, 0), usageOf);
    LastUsageMeans(ps, Billing.TokenUsage(0, 0, 0), usageOf);
  }

  // ---- What lines and payloads are ----

  /** Each line with its newline, one after another. */
  function Unlines(lines: seq<string>): string {
    if lines == [] then [] else lines[0] + ['\n'] + Unlines(lines[1..])
  }

  /** The lines are the text cut at every newline, without what follows the last one. */
  lemma {:induction false} LinesMean(s: string) returns (rest: string)
    ensures s == Unlines(Lines(s)) + rest && '\n' !in rest
    ensures forall i :: 0 <= i < |Lines(s)| ==> '\n' !in Lines(s)[i]
    decreases |s|
  {
    if NewlineAt(s).None? {
      rest := s;
      EmptyConcat(rest);
    } else {
      var nl := NewlineAt(s).value;
      rest := LinesMean(s[nl + 1..]);
      LinesMeanStep(s, rest);
    }
  }

  lemma LinesMeanStep(s: string, rest: string)
    requires NewlineAt(s).Some?
    requires var more := s[NewlineAt(s).value + 1..];
             && more == Unlines(Lines(more)) + rest
             && forall i :: 0 <= i < |Lines(more)| ==> '\n' !in Lines(more)[i]
    ensures s == Unlines(Lines(s)) + rest
    ensures forall i :: 0 <= i < |Lines(s)| ==> '\n' !in Lines(s)[i]
  {
    var nl := NewlineAt(s).value;
    var line, more := s[..nl], s[nl + 1..];
    var lines := [line] + Lines(more);
    assert lines[1..] == Lines(more);
    Rejoin(s, nl, Unlines(Lines(more)), rest);
  }

  lemma Rejoin(s: string, nl: nat, a: string, rest: string)
    requires nl < |s| && s[nl] == '\n' && s[nl + 1..] == a + rest
    ensures s == s[..nl] + ['\n'] + a + rest
  {
    assert s == s[..nl] + [s[nl]] + s[nl + 1..];
  }

  function Returns(n: nat): string { seq(n, _ => '\r') }

  lemma {:induction false} TrimCrMeans(s: string) returns (n: nat)
    ensures s == TrimCr(s) + Returns(n) && (TrimCr(s) != [] ==> TrimCr(s)[|TrimCr(s)| - 1] != '\r')
  {
    if s == [] || s[|s| - 1] != '\r' {
      n := 0;
    } else {
      var front := s[..|s| - 1];
      var m := TrimCrMeans(front);
      n := m + 1;
      assert Returns(n) == Returns(m) + ['\r'] && s == front + ['\r'];
    }
  }

  lemma {:induction false} TrimCrOf(x: string, n: nat)
    requires x == [] || x[|x| - 1] != '\r'
    ensures TrimCr(x + Returns(n)) == x
  {
    var s := x + Returns(n);
    if n == 0 {
      assert s == x;
    } else {
      TrimCrOf(x, n - 1);
      assert s[..|s| - 1] == x + Returns(n - 1);
    }
  }

  /**
   A line carries the payload `x` exactly when it is "data: " and `x`, which does not end in
   a carriage return, and then any number of them.
   */
  lemma PayloadIff(line: string, x: string)
    ensures Payload(line) == Some(x) <==>
            (x == [] || x[|x| - 1] != '\r') && exists n: nat :: line == "data: " + x + Returns(n)
  {
    var l := "data: " + x;
    var m := TrimCrMeans(line);
    if Payload(line) == Some(x) {
      assert TrimCr(line) == l;
      assert line == l + Returns(m);
    }
    if x == [] || x[|x| - 1] != '\r' {
      forall n: nat | line == l + Returns(n)
        ensures Payload(line) == Some(x)
      {
        TrimCrOf(l, n);
        assert l[6..] == x;
      }
    }
  }

  /** What is received is the bytes of the chunks up to the first stream error. */
  lemma {:induction false} ReceivedMeans(chunks: seq<Chunk>)
    ensures var n := |Received(chunks)|;
            && n <= |chunks| && (n < |chunks| ==> chunks[n].StreamError?)
            && forall i :: 0 <= i < n ==> chunks[i] == Data(Received(chunks)[i])
  {
    if chunks == [] || chunks[0].StreamError? {
    } else {
      ReceivedMeans(chunks[1..]);
    }
  }

  // ---- Incremental framing equals framing at once ----

  lemma {:induction false} NewlineAppend(s: string, t: string)
    ensures NewlineAt(s).Some? ==> NewlineAt(s + t) == NewlineAt(s)
  {
    if s == [] {
    } else {
      assert (s + t)[1..] == s[1..] + t;
      if s[0] != '\n' {
        NewlineAppend(s[1..], t);
      }
    }
  }

  lemma TakeLineAppend(p: Proxy, t: string, usageOf: string -> Option<TokenUsage>, sends: nat)
    requires NewlineAt(p.buf).Some?
    ensures NewlineAt(p.buf + t).Some?
    ensures var q := TakeLine(p, usageOf, sends);
            TakeLine(p.(buf := p.buf + t), usageOf, sends) == q.(buf := q.buf + t)
  {
    var nl := NewlineAt(p.buf).value;
    NewlineAppend(p.buf, t);
    assert (p.buf + t)[..nl] == p.buf[..nl];
    assert (p.buf + t)[nl + 1..] == p.buf[nl + 1..] + t;
  }

  /** Text that arrives later is framed as if it had been there from the start. */
  lemma {:induction false} DrainAppend(p: Proxy, t: string, usageOf: string -> Option<TokenUsage>, sends: nat)
    ensures var q := Drain(p, usageOf, sends);
            Drain(p.(buf := p.buf + t), usageOf, sends)
            == if q.Over() then q.(buf := q.buf + t) else Drain(q.(buf := q.buf + t), usageOf, sends)
    decreases |p.buf|
  {
    if !p.Over() && NewlineAt(p.buf).Some? {
      TakeLineAppend(p, t, usageOf, sends);
      DrainAppend(TakeLine(p, usageOf, sends), t, usageOf, sends);
    }
  }

  lemma {:induction false} TextConcat(a: seq<seq<Byte>>, b: seq<seq<Byte>>)
    ensures Text(a + b) == Text(a) + Text(b)
    decreases |b|
  {
    if b == [] {
      assert a + b == a;
    } else {
      var front, last := b[..|b| - 1], b[|b| - 1];
      assert (a + b)[..|a + b| - 1] == a + front;
      TextConcat(a, front);
    }
  }

  lemma {:induction false} ReceivedConcat(a: seq<Chunk>, b: seq<Chunk>)
    requires forall k :: 0 <= k < |a| ==> a[k].Data?
    ensures Received(a + b) == Received(a) + Received(b)
  {
    if a == [] {
      EmptyConcat(b);
      EmptyConcat(Received(b));
    } else {
      var rest := a[1..];
      assert (a + b)[0] == a[0] && (a + b)[1..] == rest + b;
      ReceivedConcat(rest, b);
      ConsConcat(a[0].bytes, Received(rest), Received(b));
    }
  }

  lemma ReceivedPrefix(chunks: seq<Chunk>, i: nat)
    requires i <= |chunks| && forall k :: 0 <= k < i ==> chunks[k].Data?
    ensures Received(chunks) == Received(chunks[..i]) + Received(chunks[i..])
    ensures i < |chunks| && chunks[i].Data? ==>
              Received(chunks[..i + 1]) == Received(chunks[..i]) + [chunks[i].bytes]
  {
    ReceivedConcat(chunks[..i], chunks[i..]);
    assert chunks == chunks[..i] + chunks[i..];
    if i < |chunks| && chunks[i].Data? {
      var one := [chunks[i]];
      ReceivedConcat(chunks[..i], one);
      assert chunks[..i + 1] == chunks[..i] + one;
      assert one[1..] == [] && Received(one) == [chunks[i].bytes];
    }
  }

  /** One more chunk: draining what is left plus its text is draining all the text so far. */
  lemma OneMoreChunk(chunks: seq<Chunk>, i: nat, p: Proxy,
                     usageOf: string -> Option<TokenUsage>, sends: nat)
    requires i < |chunks| && forall k :: 0 <= k <= i ==> chunks[k].Data?
    requires !p.Over() && p == Drain(Start(Text(Received(chunks[..i]))), usageOf, sends)
    ensures Drain(p.(buf := p.buf + Decode(chunks[i].bytes)), usageOf, sends)
            == Drain(Start(Text(Received(chunks[..i + 1]))), usageOf, sends)
  {
    ReceivedPrefix(chunks, i);
    var rs, more := Received(chunks[..i]), Decode(chunks[i].bytes);
    assert (rs + [chunks[i].bytes])[..|rs|] == rs;
    DrainAppend(Start(Text(rs)), more, usageOf, sends);
  }

  /** Once the stream is over, or all of it was read, nothing later changes the outcome. */
  lemma RestIsIgnored(chunks: seq<Chunk>, i: nat, p: Proxy,
                      usageOf: string -> Option<TokenUsage>, sends: nat)
    requires i <= |chunks| && forall k :: 0 <= k < i ==> chunks[k].Data?
    requires p == Drain(Start(Text(Received(chunks[..i]))), usageOf, sends)
    requires p.Over() || i == |chunks| || chunks[i].StreamError?
    ensures p.Outcome() == Framed(Text(Received(chunks)), usageOf, sends)
  {
    ReceivedPrefix(chunks, i);
    var a, b := Received(chunks[..i]), Received(chunks[i..]);
    TextConcat(a, b);
    DrainAppend(Start(Text(a)), Text(b), usageOf, sends);
    if !p.Over() {
      assert b == [] && Text(a) + Text(b) == Text(a);
    }
  }

  /** The inner loop: line after line, until no newline is left or the stream is over. */
  method DrainBuffer(p0: Proxy, usageOf: string -> Option<TokenUsage>, sends: nat) returns (p: Proxy)
    ensures p == Drain(p0, usageOf, sends)
  {
    p := p0;
    while !p.Over()
      invariant Drain(p, usageOf, sends) == Drain(p0, usageOf, sends)
      decreases |p.buf|, !p.Over()
    {
      var nl := NewlineAt(p.buf);
      if nl.None? {
        break;
      }
      p := TakeLine(p, usageOf, sends);
    }
  }

  /**
   The streaming loop. However the upstream bytes are cut, it ends as if the text received
   had been framed at once, and it charges exactly when a complete terminator line was
   read before the client left.
   */
  method RunStream(chunks: seq<Chunk>, usageOf: string -> Option<TokenUsage>, sends: nat,
                   store: Billing.BillingStore, user: Billing.UserId, model: string, kind: string, commits: bool)
    returns (p: Proxy)
    modifies store
    ensures p.Outcome() == Framed(Text(Received(chunks)), usageOf, sends)
    ensures store.Value() ==
            if Chargeable(p) then Billing.ReconcileTx(old(store.Value()), Billing.Reply(user, p.usage, model, kind, commits))
            else old(store.Value())
  {
    p := Proxy([], NO_USAGE, false, false, []);
    var i := 0;
    assert Received(chunks[..0]) == [];
    while i < |chunks| && chunks[i].Data? && !p.Over()
      invariant i <= |chunks| && forall k :: 0 <= k < i ==> chunks[k].Data?
      invariant p == Drain(Start(Text(Received(chunks[..i]))), usageOf, sends)
      invariant store.Value() == old(store.Value())
    {
      OneMoreChunk(chunks, i, p, usageOf, sends);
      p := DrainBuffer(p.(buf := p.buf + Decode(chunks[i].bytes)), usageOf, sends);
      i := i + 1;
    }
    RestIsIgnored(chunks, i, p, usageOf, sends);
    if !p.done || p.gone {
      return;
    }
    store.Reconcile(Billing.Reply(user, p.usage, model, kind, commits));
  }

  // ---- Cutting the stream differently ----

  /** Alike up to the length of non-ASCII runs; usage figures are not compared. */
  ghost predicate Alike(p: Proxy, q: Proxy) {
    && p.done == q.done && p.gone == q.gone && |p.events| == |q.events|
    && forall i :: 0 <= i < |p.events| ==> Skeleton(p.events[i]) == Skeleton(q.events[i])
  }

  function Classes(s: string): seq<nat> {
    if s == [] then [] else [Class(s[0])] + Classes(s[1..])
  }

  predicate Ascii(s: string) { forall i :: 0 <= i < |s| ==> s[i] as int < 128 }

  lemma PrefixStep<T>(p: seq<T>, s: seq<T>)
    requires p != []
    ensures p <= s <==> s != [] && p[0] == s[0] && p[1..] <= s[1..]
  {
  }

  lemma SkeletonHead(s: string)
    requires s != []
    ensures Skeleton(s) != [] && Skeleton(s)[0] == Class(s[0])
    ensures Class(s[0]) != MARK ==> Skeleton(s)[1..] == Skeleton(s[1..])
  {
  }

  lemma {:induction false} AsciiShows(p: string, t: string)
    requires Ascii(p)
    ensures Skeleton(p + t) == Classes(p) + Skeleton(t)
  {
    if p == [] {
      EmptyConcat(t);
      EmptyConcat(Skeleton(t));
    } else {
      var rest := p[1..];
      assert (p + t)[0] == p[0] && (p + t)[1..] == rest + t;
      AsciiShows(rest, t);
      ConsConcat(Class(p[0]), Classes(rest), Skeleton(t));
    }
  }

  /** An ASCII prefix shows in the skeleton, and only it does. */
  lemma {:induction false} AsciiPrefix(p: string, s: string)
    requires Ascii(p)
    ensures |Classes(p)| == |p|
    ensures p <= s <==> Classes(p) <= Skeleton(s)
  {
    if p == [] {
    } else {
      var k := Classes(p);
      PrefixStep(p, s);
      PrefixStep(k, Skeleton(s));
      assert k[1..] == Classes(p[1..]);
      if s == [] {
        AsciiPrefix(p[1..], s);
      } else {
        AsciiPrefix(p[1..], s[1..]);
        SkeletonHead(s);
      }
    }
  }

  lemma SkeletonAtAscii(s: string, i: nat)
    requires i < |s| && s[i] as int < 128
    ensures Skeleton(s) == Skeleton(s[..i]) + [s[i] as int] + Skeleton(s[i + 1..])
  {
    var tail := s[i..];
    assert s == s[..i] + tail;
    assert tail[1..] == s[i + 1..];
    SkeletonConcat(s[..i], tail);
  }

  lemma {:induction false} SkeletonMembers(s: string, c: char)
    requires c as int < 128
    ensures c as int in Skeleton(s) <==> c in s
  {
    if s == [] {
    } else {
      SkeletonMembers(s[1..], c);
      assert s == [s[0]] + s[1..];
    }
  }

  lemma FirstSplitIsUnique(a: seq<nat>, b: seq<nat>, a': seq<nat>, b': seq<nat>, x: nat)
    requires a + [x] + b == a' + [x] + b' && x !in a && x !in a'
    ensures a == a' && b == b'
  {
    var s := a + [x] + b;
    assert s[|a|] == x && s[|a'|] == x;
    assert |a| == |a'|;
    assert s[..|a|] == a && s[..|a'|] == a';
    assert s[|a| + 1..] == b && s[|a'| + 1..] == b';
  }

  lemma AlikeLines(s: string, t: string)
    requires Skeleton(s) == Skeleton(t)
    ensures NewlineAt(s).Some? <==> NewlineAt(t).Some?
    ensures NewlineAt(s).Some? ==>
              var i, j := NewlineAt(s).value, NewlineAt(t).value;
              Skeleton(s[..i]) == Skeleton(t[..j]) && Skeleton(s[i + 1..]) == Skeleton(t[j + 1..])
  {
    SkeletonMembers(s, '\n');
    SkeletonMembers(t, '\n');
    if NewlineAt(s).Some? {
      var i, j := NewlineAt(s).value, NewlineAt(t).value;
      SkeletonAtAscii(s, i);
      SkeletonAtAscii(t, j);
      SkeletonMembers(s[..i], '\n');
      SkeletonMembers(t[..j], '\n');
      FirstSplitIsUnique(Skeleton(s[..i]), Skeleton(s[i + 1..]), Skeleton(t[..j]), Skeleton(t[j + 1..]), 10);
    }
  }

  lemma LastAscii(s: string, c: char)
    requires s != [] && c as int < 128
    ensures Skeleton(s) != []
    ensures s[|s| - 1] == c <==> Skeleton(s)[|Skeleton(s)| - 1] == c as int
    ensures s[|s| - 1] == c ==> Skeleton(s) == Skeleton(s[..|s| - 1]) + [c as int]
  {
    var front, last := s[..|s| - 1], [s[|s| - 1]];
    assert s == front + last;
    assert last[1..] == [];
    SkeletonConcat(front, last);
  }

  lemma {:induction false} AlikeTrim(s: string, t: string)
    requires Skeleton(s) == Skeleton(t)
    ensures Skeleton(TrimCr(s)) == Skeleton(TrimCr(t))
    decreases |s|
  {
    SkeletonConcat(s, []);
    SkeletonConcat(t, []);
    if s == [] {
    } else {
      LastAscii(s, '\r');
      LastAscii(t, '\r');
      if s[|s| - 1] == '\r' {
        var k := Skeleton(s);
        assert k[..|k| - 1] == Skeleton(s[..|s| - 1]) && k[..|k| - 1] == Skeleton(t[..|t| - 1]);
        AlikeTrim(s[..|s| - 1], t[..|t| - 1]);
      }
    }
  }

  lemma AsciiWhole(w: string, s: string)
    requires Ascii(w)
    ensures s == w <==> Skeleton(s) == Classes(w)
  {
    AsciiPrefix(w, s);
    if w <= s {
      AsciiShows(w, s[|w|..]);
      SkeletonConcat(s[|w|..], []);
      assert s == w + s[|w|..];
    }
  }

  lemma AfterData(l: string)
    requires "data: " <= l
    ensures |Skeleton(l)| >= 6 && Skeleton(l)[6..] == Skeleton(l[6..])
  {
    AsciiPrefix("data: ", l);
    AsciiShows("data: ", l[6..]);
    assert l == "data: " + l[6..];
  }

  lemma AlikePayload(s: string, t: string)
    requires Skeleton(s) == Skeleton(t)
    ensures Payload(s).Some? <==> Payload(t).Some?
    ensures Payload(s).Some? ==> Skeleton(Payload(s).value) == Skeleton(Payload(t).value)
    ensures Payload(s) == Some("[DONE]") <==> Payload(t) == Some("[DONE]")
  {
    AlikeTrim(s, t);
    AlikeAfterData(TrimCr(s), TrimCr(t));
  }

  lemma AlikeAfterData(l: string, m: string)
    requires Skeleton(l) == Skeleton(m)
    ensures "data: " <= l <==> "data: " <= m
    ensures "data: " <= l ==> Skeleton(l[6..]) == Skeleton(m[6..]) && (l[6..] == "[DONE]" <==> m[6..] == "[DONE]")
  {
    AsciiPrefix("data: ", l);
    AsciiPrefix("data: ", m);
    if "data: " <= l {
      AfterData(l);
      AfterData(m);
      AsciiWhole("[DONE]", l[6..]);
      AsciiWhole("[DONE]", m[6..]);
    }
  }

  lemma AlikeHandleLine(p: Proxy, q: Proxy, l: string, m: string,
                        usageOf: string -> Option<TokenUsage>, sends: nat)
    requires Alike(p, q) && Skeleton(l) == Skeleton(m)
    ensures Alike(HandleLine(p, l, usageOf, sends), HandleLine(q, m, usageOf, sends))
  {
    AlikePayload(l, m);
  }

  lemma AlikeTakeLine(p: Proxy, q: Proxy, usageOf: string -> Option<TokenUsage>, sends: nat)
    requires Alike(p, q) && Skeleton(p.buf) == Skeleton(q.buf) && NewlineAt(p.buf).Some?
    ensures NewlineAt(q.buf).Some?
    ensures Alike(TakeLine(p, usageOf, sends), TakeLine(q, usageOf, sends))
    ensures Skeleton(TakeLine(p, usageOf, sends).buf) == Skeleton(TakeLine(q, usageOf, sends).buf)
  {
    AlikeLines(p.buf, q.buf);
    var i, j := NewlineAt(p.buf).value, NewlineAt(q.buf).value;
    AlikeHandleLine(p.(buf := p.buf[i + 1..]), q.(buf := q.buf[j + 1..]), p.buf[..i], q.buf[..j], usageOf, sends);
  }

  /** As many lines, each alike. */
  ghost predicate SameLines(a: seq<string>, b: seq<string>) {
    |a| == |b| && forall i :: 0 <= i < |a| ==> Skeleton(a[i]) == Skeleton(b[i])
  }

  lemma SameLinesCons(x: string, xs: seq<string>, y: string, ys: seq<string>)
    requires Skeleton(x) == Skeleton(y) && SameLines(xs, ys)
    ensures SameLines([x] + xs, [y] + ys)
  {
  }

  /** Texts with one skeleton break into as many lines, alike one by one. */
  lemma {:induction false} SameLineBoundaries(s: string, t: string)
    requires Skeleton(s) == Skeleton(t)
    ensures SameLines(Lines(s), Lines(t))
    decreases |s|
  {
    AlikeLines(s, t);
    if NewlineAt(s).None? {
    } else {
      var i, j := NewlineAt(s).value, NewlineAt(t).value;
      SameLineBoundaries(s[i + 1..], t[j + 1..]);
      SameLinesCons(s[..i], Lines(s[i + 1..]), t[..j], Lines(t[j + 1..]));
    }
  }

  lemma {:induction false} AlikeDrain(p: Proxy, q: Proxy, usageOf: string -> Option<TokenUsage>, sends: nat)
    requires Alike(p, q) && Skeleton(p.buf) == Skeleton(q.buf)
    ensures Alike(Drain(p, usageOf, sends), Drain(q, usageOf, sends))
    decreases |p.buf|
  {
    AlikeLines(p.buf, q.buf);
    if !p.Over() && NewlineAt(p.buf).Some? {
      AlikeTakeLine(p, q, usageOf, sends);
      AlikeDrain(TakeLine(p, usageOf, sends), TakeLine(q, usageOf, sends), usageOf, sends);
    }
  }

  /**
   Chunking does not matter: two ways to cut the same bytes give the same lines, the same
   number of forwarded events, alike one by one, and the same decision to charge.
   */
  lemma ChunkingDoesNotMatter(a: seq<seq<Byte>>, b: seq<seq<Byte>>,
                              usageOf: string -> Option<TokenUsage>, sends: nat)
    requires Bytes(a) == Bytes(b)
    ensures SameLines(Lines(Text(a)), Lines(Text(b)))
    ensures Alike(Framed(Text(a), usageOf, sends), Framed(Text(b), usageOf, sends))
    ensures Chargeable(Framed(Text(a), usageOf, sends)) == Chargeable(Framed(Text(b), usageOf, sends))
  {
    ChunkedSkeleton(a);
    ChunkedSkeleton(b);
    SameLineBoundaries(Text(a), Text(b));
    AlikeDrain(Start(Text(a)), Start(Text(b)), usageOf, sends);
  }

  /** Cut on character boundaries, payload texts, usage and the charge agree too. */
  lemma BoundaryChunkingAgrees(a: seq<seq<Byte>>, b: seq<seq<Byte>>,
                               usageOf: string -> Option<TokenUsage>, sends: nat)
    requires Bytes(a) == Bytes(b) && CutOnBoundaries(a) && CutOnBoundaries(b)
    ensures Framed(Text(a), usageOf, sends) == Framed(Text(b), usageOf, sends)
  {
    BoundaryCutsAreInvisible(a);
    BoundaryCutsAreInvisible(b);
  }
}
