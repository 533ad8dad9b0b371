/** Speed limiters: each call asks how long to sleep before sending, and a request sleeps
    for the longest answer of its limiters, which it may list more than once. */
module SpeedLimit {
  import opened Wire

  const IDLE := 5000   // milliseconds after which a limiter forgets the past
  const CAP := 20000   // the longest sleep

  /** The time from which the next send is counted. */
  function Base(time: int, now: int): int {
    if time < now - IDLE then now else time
  }

  /** The time reserved for len bytes, without the cap. */
  function Reserved(limit: int, time: int, len: int, now: int): int {
    if limit <= 0 || len <= 0 then time else Base(time, now) + Cost(limit, len)
  }

  /** The milliseconds that len bytes take. */
  function Cost(limit: int, len: int): int
    requires limit > 0
  {
    len * 1000 / limit
  }

  /** The state of a limiter after a call. */
  function After(limit: int, time: int, len: int, now: int): int {
    var t := Reserved(limit, time, len, now);
    if limit <= 0 || len <= 0 then time else if t > now + CAP then now + CAP else t
  }

  /** ... and after n calls at one time. */
  function Again(limit: int, time: int, len: int, now: int, n: nat): int {
    if n == 0 then time else After(limit, Again(limit, time, len, now, n - 1), len, now)
  }

  lemma CostIsNotNegative(limit: int, len: int)
    requires limit > 0 && len > 0
    ensures Cost(limit, len) >= 0
  {
  }

  /** Where a reservation starts: where the last one ends, unless that is more than five
      seconds ago. */
  function Start(time: int, now: int): int { if now - time > 5000 then now else time }

  /** A call reserves the milliseconds that its bytes need at the limit and no more, rounded
      down, unless that ends more than twenty seconds ahead. */
  lemma ReservesWhatIsNeeded(limit: int, time: int, len: int, now: int)
    requires limit > 0 && len > 0
    ensures var t, end := Start(time, now), After(limit, time, len, now);
            && limit * (end - t) <= 1000 * len && end <= now + 20000
            && (end < now + 20000 ==> 1000 * len < limit * (end - t + 1))
  {
    var t, end, f := Start(time, now), After(limit, time, len, now), Cost(limit, len);
    assert limit * f <= 1000 * len < limit * (f + 1);
    assert end - t <= f && (end < now + 20000 ==> end - t == f);
    Product(limit, end - t, f);
  }

  lemma Product(limit: int, a: int, b: int)
    requires limit > 0 && a <= b
    ensures limit * a <= limit * b
  {
  }

  /** A call reserves near its time, and takes nothing back that is near it. */
  lemma AfterIsNear(limit: int, time: int, len: int, now: int)
    requires limit > 0 && len > 0
    ensures var t := After(limit, time, len, now);
            now - IDLE <= t <= now + CAP && (now - IDLE <= time <= now + CAP ==> time <= t)
  {
    CostIsNotNegative(limit, len);
  }

  /** Calls at one time never take a reservation back. */
  lemma AgainIsLater(limit: int, time: int, len: int, now: int, n: nat)
    requires 1 < n && limit > 0 && len > 0
    ensures Again(limit, time, len, now, n - 1) <= Again(limit, time, len, now, n)
  {
    AfterIsNear(limit, Again(limit, time, len, now, n - 2), len, now);
    AfterIsNear(limit, Again(limit, time, len, now, n - 1), len, now);
  }

  class Limiter {
    var limit: int
    var sendTime: int

    constructor (limit: int)
      ensures this.limit == limit && sendTime == 0
    {
      this.limit, sendTime := limit, 0;
    }

    /** setSpeedLimit. */
    method SetSpeedLimit(limit: int)
      modifies this`limit
      ensures this.limit == limit
    {
      this.limit := limit;
    }

    /** The sleep covers the time that the limiter has reserved. */
    method GetSleep(len: int, now: int) returns (ms: int)
      modifies this`sendTime
      ensures sendTime == After(limit, old(sendTime), len, now)
      ensures 0 <= ms <= CAP
      ensures limit > 0 && len > 0 ==> now + ms >= sendTime && (ms == 0 || now + ms == sendTime)
      ensures limit > 0 && len > 0 ==> limit * (sendTime - Start(old(sendTime), now)) <= 1000 * len
      ensures limit <= 0 || len <= 0 ==> ms == 0
      ensures now <= old(sendTime) <= now + CAP ==> sendTime >= old(sendTime)
    {
      if limit <= 0 || len <= 0 { return 0; }
      ReservesWhatIsNeeded(limit, sendTime, len, now);
      var sleepTime := len * 1000 / limit;
      if sendTime < now - IDLE { sendTime := now; }
      sendTime := sendTime + sleepTime;
      if sendTime > now + CAP { sendTime := now + CAP; }
      sleepTime := sendTime - now;
      if sleepTime <= 0 { return 0; }
      return sleepTime;
    }
  }

  /** How often a limiter is listed. */
  function Times(l: Limiter, ls: seq<Limiter>): nat {
    if ls == [] then 0 else Times(l, ls[..|ls| - 1]) + if ls[|ls| - 1] == l then 1 else 0
  }

  lemma {:induction false} TimesIsZero(l: Limiter, ls: seq<Limiter>)
    ensures Times(l, ls) == 0 <==> l !in ls
  {
    if ls != [] {
      var front := ls[..|ls| - 1];
      TimesIsZero(l, front);
      assert ls == front + [ls[|ls| - 1]];
    }
  }

  lemma TimesPush(l: Limiter, ls: seq<Limiter>, k: nat)
    requires k < |ls|
    ensures Times(l, ls[..k + 1]) == Times(l, ls[..k]) + if ls[k] == l then 1 else 0
  {
    assert ls[..k + 1][..k] == ls[..k];
  }

  /** The limiters of a request. */
  class Request {
    const limiters: seq<Limiter>

    constructor (limiters: seq<Limiter>)
      ensures this.limiters == limiters
    {
      this.limiters := limiters;
    }

    /** ms is the longest answer of the first k limiters, and that of limiter top. */
    ghost predicate Longest(k: nat, ms: int, top: nat, len: int, now: int)
      requires k <= |limiters|
      reads limiters`limit, limiters`sendTime
    {
      && 0 <= ms <= CAP
      && (forall i :: 0 <= i < k && limiters[i].limit > 0 && len > 0 ==> now + ms >= limiters[i].sendTime)
      && (ms > 0 ==> top < k && limiters[top].limit > 0 && len > 0 && now + ms == limiters[top].sendTime)
    }

    /** One turn of the loop. */
    method Ask(k: nat, longest: int, ghost top: nat, len: int, now: int) returns (ms: int, ghost top': nat)
      requires k < |limiters| && Longest(k, longest, top, len, now)
      modifies {limiters[k]}`sendTime
      ensures Longest(k + 1, ms, top', len, now)
      ensures limiters[k].sendTime == After(limiters[k].limit, old(limiters[k].sendTime), len, now)
    {
      ms, top' := longest, top;
      var t := limiters[k].GetSleep(len, now);
      if t > 0 && t >= ms { top' := k; }
      if t > ms { ms := t; }
    }

    /** Every limiter has been asked as often as it is among the first k. */
    twostate predicate AskedUpTo(k: nat, len: int, now: int)
      requires k <= |limiters|
      reads limiters`limit, limiters`sendTime
    {
      forall l <- limiters :: l.sendTime == Again(l.limit, old(l.sendTime), len, now, Times(l, limiters[..k]))
    }

    /** The loop. */
    method AskAll(len: int, now: int) returns (ms: int, ghost top: nat)
      modifies limiters`sendTime
      ensures Longest(|limiters|, ms, top, len, now) && AskedUpTo(|limiters|, len, now)
    {
      ms, top := 0, 0;
      for k := 0 to |limiters|
        invariant Longest(k, ms, top, len, now) && AskedUpTo(k, len, now)
      {
        label before:
        ms, top := Ask(k, ms, top, len, now);
        forall l <- limiters
          ensures l.sendTime == Again(l.limit, old(l.sendTime), len, now, Times(l, limiters[..k + 1]))
        {
          TimesPush(l, limiters, k);
          assert old@before(l.sendTime) == Again(l.limit, old(l.sendTime), len, now, Times(l, limiters[..k]));
          if l != limiters[k] { assert l.sendTime == old@before(l.sendTime); }
        }
      }
    }

    /** The longest answer, so that it covers what every limiter has reserved. */
    method GetSleep(len: int, now: int) returns (ms: int)
      modifies limiters`sendTime
      ensures 0 <= ms <= CAP
      ensures forall l <- limiters :: l.limit > 0 && len > 0 ==> now + ms >= l.sendTime
      ensures forall l <- limiters :: l.sendTime == Again(l.limit, old(l.sendTime), len, now, Times(l, limiters))
      ensures ms > 0 ==> exists l <- limiters :: l.limit > 0 && now + ms == l.sendTime
    {
      ghost var top;
      ms, top := AskAll(len, now);
      assert limiters[..|limiters|] == limiters;
      assert ms > 0 ==> limiters[top] in limiters;
    }
  }

  // ---------------------------------------------------------------- whole runs

  /** One call of a limiter: its limit then, when it was asked, for how much, and when the
      bytes went out. */
  datatype Send = Send(limit: int, now: int, len: int, sent: int)

  /** The state of a limiter after a run of sends. */
  function State(time: int, sends: seq<Send>): int {
    if sends == [] then time
    else
      var last := sends[|sends| - 1];
      After(last.limit, State(time, sends[..|sends| - 1]), last.len, last.now)
  }

  /** Send i found this state. */
  function Found(time: int, sends: seq<Send>, i: nat): int
    requires i <= |sends|
  {
    State(time, sends[..i])
  }

  /** The bytes went out when the time reserved for them had come. */
  predicate Waited(found: int, s: Send) {
    s.limit > 0 && s.len > 0 ==> s.sent >= After(s.limit, found, s.len, s.now)
  }

  /** The reservation was not cut to the cap. */
  predicate Whole(found: int, s: Send) {
    After(s.limit, found, s.len, s.now) == Reserved(s.limit, found, s.len, s.now)
  }

  ghost predicate Waits(time: int, sends: seq<Send>) {
    forall i :: 0 <= i < |sends| ==> Waited(Found(time, sends, i), sends[i])
  }

  /** No reservation is cut from send a to send b. */
  ghost predicate Uncut(time: int, sends: seq<Send>, a: nat, b: nat)
    requires b <= |sends|
  {
    forall i :: a <= i < b ==> Whole(Found(time, sends, i), sends[i])
  }

  lemma WaitsPush(time: int, sends: seq<Send>, x: Send)
    requires Waits(time, sends) && Waited(State(time, sends), x)
    ensures Waits(time, sends + [x])
    ensures State(time, sends + [x]) == After(x.limit, State(time, sends), x.len, x.now)
  {
    var more := sends + [x];
    assert more[..|sends|] == sends && sends[..|sends|] == sends;
    forall i | 0 <= i < |more| ensures Waited(Found(time, more, i), more[i]) {
      assert more[..i] == sends[..i];
      assert i < |sends| ==> Waited(Found(time, sends, i), sends[i]);
    }
  }

  function Copies(x: Send, n: nat): seq<Send> {
    if n == 0 then [] else Copies(x, n - 1) + [x]
  }

  /** A limiter that is listed n times is asked n times for one send. */
  lemma {:induction false} WaitsCopies(time: int, sends: seq<Send>, x: Send, n: nat)
    requires Waits(time, sends)
    requires x.limit > 0 && x.len > 0 && n > 0 ==> x.sent >= Again(x.limit, State(time, sends), x.len, x.now, n)
    ensures Waits(time, sends + Copies(x, n))
    ensures State(time, sends + Copies(x, n)) == Again(x.limit, State(time, sends), x.len, x.now, n)
  {
    if n == 0 {
      assert sends + [] == sends;
    } else {
      var t, front := State(time, sends), sends + Copies(x, n - 1);
      if x.limit > 0 && x.len > 0 && n > 1 { AgainIsLater(x.limit, t, x.len, x.now, n); }
      WaitsCopies(time, sends, x, n - 1);
      AgainWaited(t, x, n);
      WaitsPush(time, front, x);
      Assoc(sends, Copies(x, n - 1), [x]);
    }
  }

  lemma AgainWaited(t: int, x: Send, n: nat)
    requires n > 0 && (x.limit > 0 && x.len > 0 ==> x.sent >= Again(x.limit, t, x.len, x.now, n))
    ensures Waited(Again(x.limit, t, x.len, x.now, n - 1), x)
  {
  }

  // ---------------------------------------------------------------- the bound

  /** The sends lie in a window of time and are limited by at most a limit. */
  ghost predicate Within(sends: seq<Send>, limit: int, start: int, end: int) {
    forall i :: 0 <= i < |sends| ==> 0 < sends[i].limit <= limit && start <= sends[i].now && sends[i].sent <= end
  }

  function Total(sends: seq<Send>): nat {
    if sends == [] then 0 else (if sends[0].len > 0 then sends[0].len else 0) + Total(sends[1..])
  }

  function Later(a: int, b: int): int {
    if a < b then b else a
  }

  /** Bytes take at least their time at the largest limit. */
  lemma CostCovers(limit: int, own: int, len: int)
    requires 0 < own <= limit && len > 0
    ensures 1000 * len <= limit * (Cost(own, len) + 1)
  {
    CostIsNotNegative(own, len);
    assert 1000 * len <= own * (Cost(own, len) + 1);
    Smaller(own, limit, Cost(own, len) + 1);
  }

  lemma Smaller(a: int, b: int, x: int)
    requires a <= b && x >= 0
    ensures a * x <= b * x
  {
  }

  /** One send uses up the time from base to its reservation, f later. */
  lemma OneSend(limit: int, base: int, len: int, f: int, rest: nat, n: nat, end: int, floor: int)
    requires limit > 0 && 1000 * len <= limit * (f + 1) && floor <= base && base + f <= end
    requires rest > 0 ==> 1000 * rest <= limit * (end - (base + f) + n)
    ensures 1000 * (len + rest) <= limit * (end - floor + n + 1)
  {
    if rest > 0 {
      assert limit * (f + 1) + limit * (end - (base + f) + n) == limit * (end - base + n + 1);
    } else {
      Product(limit, f + 1, end - base + n + 1);
    }
    Product(limit, end - base + n + 1, end - floor + n + 1);
  }

  lemma FoundStep(time: int, sends: seq<Send>, a: nat)
    requires a < |sends|
    ensures Found(time, sends, a + 1) == After(sends[a].limit, Found(time, sends, a), sends[a].len, sends[a].now)
  {
    assert sends[..a + 1][..a] == sends[..a];
  }

  lemma TotalStep(sends: seq<Send>, a: nat, b: nat)
    requires a < b <= |sends|
    ensures Total(sends[a..b]) == (if sends[a].len > 0 then sends[a].len else 0) + Total(sends[a + 1..b])
  {
    assert sends[a..b][0] == sends[a] && sends[a..b][1..] == sends[a + 1..b];
  }

  /** From any state, what is sent from a on is covered by the time left in the window. */
  lemma {:induction false} WindowBound(limit: int, time: int, sends: seq<Send>, a: nat, b: nat, start: int, end: int)
    requires limit > 0 && a <= b <= |sends| && Waits(time, sends) && Uncut(time, sends, a, b)
    requires Within(sends[a..b], limit, start, end)
    ensures var found := Later(Found(time, sends, a), start - IDLE);
            Total(sends[a..b]) > 0 ==> 1000 * Total(sends[a..b]) <= limit * (end - found + (b - a))
    decreases b - a
  {
    if a < b {
      WindowBound(limit, time, sends, a + 1, b, start, end);
      assert sends[a..b] == [sends[a]] + sends[a + 1..b];
      FoundStep(time, sends, a);
      TotalStep(sends, a, b);
      assert Waited(Found(time, sends, a), sends[a]) && Whole(Found(time, sends, a), sends[a]);
      assert sends[a..b][0] == sends[a];
      FirstSend(limit, Found(time, sends, a), sends[a], Total(sends[a + 1..b]), b - a - 1, start, end);
    }
  }

  /** One send in front of a window. */
  lemma FirstSend(limit: int, found: int, s: Send, rest: nat, n: nat, start: int, end: int)
    requires 0 < s.limit <= limit && start <= s.now && s.sent <= end && Waited(found, s) && Whole(found, s)
    requires rest > 0 ==> 1000 * rest <= limit * (end - Later(After(s.limit, found, s.len, s.now), start - IDLE) + n)
    ensures var total := rest + if s.len > 0 then s.len else 0;
            total > 0 ==> 1000 * total <= limit * (end - Later(found, start - IDLE) + n + 1)
  {
    var next, floor := After(s.limit, found, s.len, s.now), Later(found, start - IDLE);
    if s.len > 0 {
      if rest > 0 { Product(limit, end - Later(next, start - IDLE) + n, end - next + n); }
      CostCovers(limit, s.limit, s.len);
      OneSend(limit, Base(found, s.now), s.len, Cost(s.limit, s.len), rest, n, end, floor);
    } else if rest > 0 {
      Product(limit, end - floor + n, end - floor + n + 1);
    }
  }

  /** In any window of calls in which no reservation is cut, the bytes sent stay within the
      largest limit of that time, up to the idle allowance and one millisecond for each call. */
  lemma SpeedBound(limit: int, time: int, sends: seq<Send>, a: nat, b: nat, start: int, end: int)
    requires limit > 0 && a <= b <= |sends| && Waits(time, sends) && Uncut(time, sends, a, b)
    requires Within(sends[a..b], limit, start, end) && start <= end
    ensures 1000 * Total(sends[a..b]) <= limit * (end - start + IDLE + (b - a))
  {
    WindowBound(limit, time, sends, a, b, start, end);
    if Total(sends[a..b]) > 0 {
      Product(limit, end - Later(Found(time, sends, a), start - IDLE) + (b - a), end - start + IDLE + (b - a));
    } else {
      Product(limit, 0, end - start + IDLE + (b - a));
    }
  }

  /** Each send from a to b is asked for under one limit, while the limiter still remembers
      the one before it. */
  ghost predicate Busy(limit: int, time: int, sends: seq<Send>, a: int, b: int) {
    limit > 0 && 0 <= a <= b <= |sends| &&
    forall i :: a <= i < b ==> sends[i].limit == limit && sends[i].now - Found(time, sends, i) <= 5000
  }

  /** In a busy stretch no more time is reserved than the bytes asked for need. */
  lemma {:induction false} ReservedIsAsked(limit: int, time: int, sends: seq<Send>, a: nat, b: nat)
    requires Busy(limit, time, sends, a, b)
    ensures limit * (Found(time, sends, b) - Found(time, sends, a)) <= 1000 * Total(sends[a..b])
    decreases b - a
  {
    if a == b {
      assert sends[a..b] == [] && limit * 0 == 0;
    } else {
      var found, end, rest := Found(time, sends, a), Found(time, sends, b), Total(sends[a + 1..b]);
      assert sends[a].limit == limit && sends[a].now - found <= 5000;
      ReservedIsAsked(limit, time, sends, a + 1, b);
      FoundStep(time, sends, a);
      TotalStep(sends, a, b);
      OneReserved(limit, found, sends[a], end, rest);
    }
  }

  /** ... in every such stretch. */
  ghost predicate Thrifty(time: int, sends: seq<Send>) {
    forall limit, a, b :: Busy(limit, time, sends, a, b) ==>
      limit * (Found(time, sends, b) - Found(time, sends, a)) <= 1000 * Total(sends[a..b])
  }

  lemma ReservingIsThrifty(time: int, sends: seq<Send>)
    ensures Thrifty(time, sends)
  {
    forall limit, a, b | Busy(limit, time, sends, a, b)
      ensures limit * (Found(time, sends, b) - Found(time, sends, a)) <= 1000 * Total(sends[a..b])
    {
      ReservedIsAsked(limit, time, sends, a, b);
    }
  }

  lemma OneReserved(limit: int, found: int, s: Send, end: int, rest: nat)
    requires limit > 0 && s.limit == limit && s.now - found <= 5000
    requires limit * (end - After(s.limit, found, s.len, s.now)) <= 1000 * rest
    ensures limit * (end - found) <= 1000 * ((if s.len > 0 then s.len else 0) + rest)
  {
    var next := After(limit, found, s.len, s.now);
    if s.len > 0 { ReservesWhatIsNeeded(limit, found, s.len, s.now); }
    assert limit * (end - found) == limit * (next - found) + limit * (end - next);
  }

  /** The sends from a to b lie in a window of time with limits of at most a limit, and no
      reservation is cut. */
  ghost predicate Window(limit: int, time: int, sends: seq<Send>, a: int, b: int, start: int, end: int) {
    && limit > 0 && 0 <= a <= b <= |sends| && start <= end
    && Uncut(time, sends, a, b) && Within(sends[a..b], limit, start, end)
  }

  /** The bound holds in every such window. */
  ghost predicate Bounded(time: int, sends: seq<Send>) {
    forall limit, a, b, start, end :: Window(limit, time, sends, a, b, start, end) ==>
      1000 * Total(sends[a..b]) <= limit * (end - start + IDLE + (b - a))
  }

  lemma WaitingIsBounded(time: int, sends: seq<Send>)
    requires Waits(time, sends)
    ensures Bounded(time, sends)
  {
    forall limit, a, b, start, end | Window(limit, time, sends, a, b, start, end)
      ensures 1000 * Total(sends[a..b]) <= limit * (end - start + IDLE + (b - a))
    {
      SpeedBound(limit, time, sends, a, b, start, end);
    }
  }

  /** A reservation is cut exactly when it lies more than the cap ahead. */
  lemma CutWhen(found: int, s: Send)
    requires s.limit > 0 && s.len > 0
    ensures !Whole(found, s) <==> Cost(s.limit, s.len) > CAP + s.now - Base(found, s.now)
  {
  }

  /** A limiter that is asked only after its last bytes have gone out, and for no write that
      alone costs more than the cap, cuts no reservation. */
  lemma SequentialIsUncut(time: int, sends: seq<Send>)
    requires Waits(time, sends)
    requires forall s <- sends :: s.limit > 0 && s.len > 0 && Cost(s.limit, s.len) <= CAP && time <= s.now
    requires forall i, j :: 0 <= i < j < |sends| ==> sends[i].sent <= sends[j].now
    ensures Uncut(time, sends, 0, |sends|)
  {
    forall i | 0 <= i < |sends| ensures Whole(Found(time, sends, i), sends[i]) {
      assert sends[i] in sends;
      CutWhen(Found(time, sends, i), sends[i]);
      if i > 0 {
        assert sends[i - 1] in sends;
        assert Waited(Found(time, sends, i - 1), sends[i - 1]);
        assert sends[..i][..i - 1] == sends[..i - 1];
      } else {
        assert sends[..0] == [];
      }
    }
  }

  /** With the cap the bound fails: a million bytes at one byte a second leave after 20 seconds. */
  lemma CapBreaksBound()
    ensures var sends := [Send(1, 0, 1000000, CAP)];
            Waits(0, sends) && Within(sends, 1, 0, CAP) && 1000 * Total(sends) > 1 * (CAP - 0 + IDLE + |sends|)
  {
    var sends := [Send(1, 0, 1000000, CAP)];
    assert sends[..0] == [] && sends[1..] == [];
    assert Cost(1, 1000000) == 1000000000;
    assert Waited(Found(0, sends, 0), sends[0]);
  }

  // ---------------------------------------------------------------- requests that share limiters

  /** A write of a request, which asks at a time, sleeps as long as it is told, and is then
      held up by something else; or a new limit. */
  datatype Event = Write(rq: Request, len: int, now: int, delay: nat) | SetLimit(limiter: Limiter, limit: int)

  /** The limit of l after the events. */
  function LimitOf(l: Limiter, limit: int, events: seq<Event>): int {
    if events == [] then limit
    else
      var last := events[|events| - 1];
      if last.SetLimit? && last.limiter == l then last.limit else LimitOf(l, limit, events[..|events| - 1])
  }

  /** The sends that a limiter was asked for, once for each time it is listed. */
  ghost function SendsOf(l: Limiter, limit: int, events: seq<Event>, times: seq<int>): seq<Send>
    requires |events| == |times|
  {
    if events == [] then []
    else
      var n := |events| - 1;
      SendsOf(l, limit, events[..n], times[..n]) + Asked(l, LimitOf(l, limit, events[..n]), events[n], times[n])
  }

  ghost function Asked(l: Limiter, limit: int, e: Event, time: int): seq<Send> {
    if e.Write? then Copies(Send(limit, e.now, e.len, time), Times(l, e.rq.limiters)) else []
  }

  /** What the limiter has reserved follows from its sends, which have all waited for it. */
  ghost predicate Paced(l: Limiter, limit: int, time: int, events: seq<Event>, times: seq<int>)
    requires |events| == |times|
    reads l
  {
    && l.limit == LimitOf(l, limit, events)
    && Waits(time, SendsOf(l, limit, events, times))
    && l.sendTime == State(time, SendsOf(l, limit, events, times))
  }

  /** One event, and when its bytes went out. */
  method Happen(e: Event, ghost all: set<Limiter>) returns (time: int)
    requires if e.Write? then forall l <- e.rq.limiters :: l in all else e.limiter in all
    modifies all`sendTime, all`limit
    ensures forall l <- all :: l.limit == if e.SetLimit? && e.limiter == l then e.limit else old(l.limit)
    ensures forall l <- all ::
      var n := if e.Write? then Times(l, e.rq.limiters) else 0;
      && l.sendTime == (if e.Write? then Again(old(l.limit), old(l.sendTime), e.len, e.now, n) else old(l.sendTime))
      && (n > 0 && l.limit > 0 && e.len > 0 ==> time >= l.sendTime)
  {
    match e
    case Write(rq, len, now, delay) =>
      forall l <- all { TimesIsZero(l, rq.limiters); }
      var ms := rq.GetSleep(len, now);
      time := now + ms + delay;
    case SetLimit(l, limit) =>
      l.SetSpeedLimit(limit);
      time := 0;
  }

  /** However the writes of requests that share limiters and the changes of limits come after
      each other, every limiter sees sends that wait for what it reserved, and so keeps its
      bound in every window; and it reserves no more than was asked for. */
  method Run(events: seq<Event>, ghost all: set<Limiter>) returns (times: seq<int>)
    requires forall e <- events :: if e.Write? then forall l <- e.rq.limiters :: l in all else e.limiter in all
    modifies all`sendTime, all`limit
    ensures |times| == |events|
    ensures forall l <- all ::
      && Paced(l, old(l.limit), old(l.sendTime), events, times)
      && Bounded(old(l.sendTime), SendsOf(l, old(l.limit), events, times))
      && Thrifty(old(l.sendTime), SendsOf(l, old(l.limit), events, times))
  {
    times := [];
    for k := 0 to |events|
      invariant |times| == k
      invariant forall l <- all :: Paced(l, old(l.limit), old(l.sendTime), events[..k], times)
    {
      assert events[k] in events;
      ghost var was := map l | l in all :: (l.limit, l.sendTime);
      var time := Happen(events[k], all);
      forall l <- all ensures Paced(l, old(l.limit), old(l.sendTime), events[..k + 1], times + [time]) {
        PacedPush(l, old(l.limit), old(l.sendTime), events, k, times, time, was[l].0, was[l].1);
      }
      times := times + [time];
    }
    assert events[..|events|] == events;
    forall l <- all
      ensures Bounded(old(l.sendTime), SendsOf(l, old(l.limit), events, times))
      ensures Thrifty(old(l.sendTime), SendsOf(l, old(l.limit), events, times))
    {
      WaitingIsBounded(old(l.sendTime), SendsOf(l, old(l.limit), events, times));
      ReservingIsThrifty(old(l.sendTime), SendsOf(l, old(l.limit), events, times));
    }
  }

  /** One more event: limit and time are those of l before it. */
  lemma PacedPush(l: Limiter, first: int, start: int, events: seq<Event>, k: nat, times: seq<int>, t: int,
                  limit: int, time: int)
    requires k < |events| && |times| == k
    requires limit == LimitOf(l, first, events[..k]) && time == State(start, SendsOf(l, first, events[..k], times))
    requires Waits(start, SendsOf(l, first, events[..k], times))
    requires l.limit == if events[k].SetLimit? && events[k].limiter == l then events[k].limit else limit
    requires
      var e := events[k];
      var n := if e.Write? then Times(l, e.rq.limiters) else 0;
      && l.sendTime == (if e.Write? then Again(limit, time, e.len, e.now, n) else time)
      && (n > 0 && l.limit > 0 && e.len > 0 ==> t >= l.sendTime)
    ensures Paced(l, first, start, events[..k + 1], times + [t])
  {
    var e, mine, more := events[k], SendsOf(l, first, events[..k], times), times + [t];
    assert events[..k + 1][..k] == events[..k] && more[..k] == times;
    assert SendsOf(l, first, events[..k + 1], more) == mine + Asked(l, limit, e, t);
    if e.Write? {
      WaitsCopies(start, mine, Send(limit, e.now, e.len, t), Times(l, e.rq.limiters));
    } else {
      assert mine + [] == mine;
    }
  }
}
