/** The content sources of a request, opened in turn by two loops until one has answered
    or has touched the request in a way that cannot be undone. */
module Sources {

  /** What a source can do to the request while it is open. */
  datatype Event = SendHeader | OpenNext | OpenBody | ReadBody | ReplayReady | ReplayConsuming

  /** A source: whether it stands before the cache, what it does, and whether it returns
      "next". */
  datatype Source = Source(beforeCache: bool, events: seq<Event>, next: bool)

  datatype Flags = Flags(headerSent: bool, nextCalled: bool, inBody: bool, readPost: bool, replayable: bool) {
    /** The flags after an event; a replay is accepted as ready only for a body that was read. */
    function Do(e: Event): Flags {
      match e
      case SendHeader => this.(headerSent := true)
      case OpenNext => this.(nextCalled := true)
      case OpenBody => this.(inBody := true)
      case ReadBody => this.(readPost := true)
      case ReplayReady => if inBody && readPost then this.(replayable := true) else this
      case ReplayConsuming => this.(replayable := false)
    }

    /** continue_next_source. */
    predicate Continue(next: bool) {
      !(headerSent || nextCalled || (readPost && !replayable)) && next
    }
  }

  const FRESH := Flags(false, false, false, false, false)

  // ---------------------------------------------------------------- what the flags mean

  /** What request_body_replayable records: a replay became ready after a read, and has not
      been consumed since. */
  ghost predicate Marked(h: seq<Event>) {
    exists k :: 0 <= k < |h| && ReadyAt(h, k)
  }

  ghost predicate ReadyAt(h: seq<Event>, k: nat)
    requires k < |h|
  {
    h[k] == ReplayReady && OpenBody in h[..k] && ReadBody in h[..k] && ReplayConsuming !in h[k..]
  }

  /** What continue_next_source asks for. */
  ghost predicate Untouched(h: seq<Event>) {
    SendHeader !in h && OpenNext !in h && (ReadBody in h ==> Marked(h))
  }

  ghost predicate Mean(f: Flags, h: seq<Event>) {
    && f.headerSent == (SendHeader in h) && f.nextCalled == (OpenNext in h)
    && f.inBody == (OpenBody in h) && f.readPost == (ReadBody in h) && f.replayable == Marked(h)
  }

  lemma MarkedStep(h: seq<Event>, e: Event)
    ensures Marked(h + [e]) <==>
            (e == ReplayReady && OpenBody in h && ReadBody in h) || (e != ReplayConsuming && Marked(h))
  {
    var g := h + [e];
    if e == ReplayReady && OpenBody in h && ReadBody in h { ReadyAtLast(h, e); }
    if e != ReplayConsuming && Marked(h) {
      var k :| 0 <= k < |h| && ReadyAt(h, k);
      ReadyBefore(h, e, k);
    }
    if Marked(g) {
      var k :| 0 <= k < |g| && ReadyAt(g, k);
      if k < |h| { ReadyBefore(h, e, k); } else { ReadyAtLast(h, e); }
    }
  }

  lemma ReadyBefore(h: seq<Event>, e: Event, k: nat)
    requires k < |h|
    ensures ReadyAt(h + [e], k) <==> ReadyAt(h, k) && e != ReplayConsuming
  {
    var g := h + [e];
    assert g[..k] == h[..k] && g[k..] == h[k..] + [e];
  }

  lemma ReadyAtLast(h: seq<Event>, e: Event)
    ensures ReadyAt(h + [e], |h|) <==> e == ReplayReady && OpenBody in h && ReadBody in h
  {
    var g := h + [e];
    assert g[..|h|] == h && g[|h|..] == [e];
  }

  lemma FlagsMeanHistory(f: Flags, h: seq<Event>, e: Event)
    requires Mean(f, h)
    ensures Mean(f.Do(e), h + [e])
  {
    MarkedStep(h, e);
  }

  // ---------------------------------------------------------------- what the flags should mean

  /** Every byte that was read can be read again: a replay became ready after the last read,
      and has not been consumed since. */
  ghost predicate Replayable(h: seq<Event>) {
    exists k :: 0 <= k < |h| && ReadyAt(h, k) && ReadBody !in h[k..]
  }

  /** Another source can be opened as if none had been. */
  ghost predicate Intact(h: seq<Event>) {
    SendHeader !in h && OpenNext !in h && (ReadBody in h ==> Replayable(h))
  }

  /** Bytes were read after the body was last marked ready, and no replay was announced. */
  ghost predicate LateRead(h: seq<Event>) {
    exists r, j :: LateReadAt(h, r, j)
  }

  ghost predicate LateReadAt(h: seq<Event>, r: int, j: int) {
    0 <= r < j < |h| && ReadyAt(h, r) && h[j] == ReadBody && ReplayReady !in h[j..]
  }

  /** The mark is right exactly if there was no late read. */
  lemma MarkIsRight(h: seq<Event>)
    ensures Marked(h) == Replayable(h) <==> !LateRead(h)
  {
    if r, j :| LateReadAt(h, r, j) {
      forall k | 0 <= k < |h| && ReadyAt(h, k) ensures ReadBody in h[k..] { LateReadStays(h, r, j, k); }
    } else if Marked(h) {
      var r :| 0 <= r < |h| && ReadyAt(h, r);
      LastReady(h, r);
    }
  }

  lemma LateReadStays(h: seq<Event>, r: nat, j: nat, k: nat)
    requires LateReadAt(h, r, j) && k < |h| && ReadyAt(h, k)
    ensures ReadBody in h[k..]
  {
    assert forall x | j <= x < |h| :: h[x] in h[j..];
    assert h[k..][j - k] == h[j];
  }

  /** Without a late read, the last of the marks is one that covers every read. */
  lemma LastReady(h: seq<Event>, r: nat)
    requires r < |h| && ReadyAt(h, r) && !LateRead(h)
    ensures Replayable(h)
    decreases |h| - r
  {
    if ReplayReady in h[r + 1..] {
      var k :| r + 1 <= k < |h| && h[k] == ReplayReady;
      assert h[..r] <= h[..k] && forall e <- h[..r] :: e in h[..k];
      assert forall e <- h[k..] :: e in h[r..];
      LastReady(h, k);
    } else {
      forall j | r < j < |h| ensures h[j] != ReadBody {
        assert !LateReadAt(h, r, j);
        assert forall e <- h[j..] :: e in h[r + 1..];
      }
    }
  }

  /** So the request is as the flags say exactly if there was no late read. */
  lemma UntouchedIsIntact(h: seq<Event>)
    requires Untouched(h)
    ensures Intact(h) <==> !LateRead(h)
  {
    MarkIsRight(h);
    if r, j :| LateReadAt(h, r, j) { assert h[j] in h; }
  }

  lemma IntactIsUntouched(h: seq<Event>)
    requires Intact(h)
    ensures Untouched(h)
  {
  }

  /** A module that announces every replay before bytes are read again makes no late read. */
  ghost predicate Disciplined(h: seq<Event>) {
    forall r, j :: 0 <= r < j < |h| && h[r] == ReplayReady && h[j] == ReadBody ==> ReplayConsuming in h[r..j]
  }

  lemma DisciplineSuffices(h: seq<Event>)
    requires Disciplined(h)
    ensures !LateRead(h)
  {
    forall r, j ensures !LateReadAt(h, r, j) {
      if 0 <= r < j < |h| && h[r] == ReplayReady && h[j] == ReadBody {
        var x :| r <= x < j && h[x] == ReplayConsuming;
        assert h[x] in h[r..];
      }
    }
  }

  /** A late read that the flags do not see. */
  lemma LateReadIsMarked()
    ensures var h := [OpenBody, ReadBody, ReplayReady, ReadBody]; Untouched(h) && !Intact(h)
  {
    var h := [OpenBody, ReadBody, ReplayReady, ReadBody];
    assert h[..2] == [OpenBody, ReadBody] && h[2..] == [ReplayReady, ReadBody] && h[3..] == [ReadBody];
    assert ReadyAt(h, 2) && LateReadAt(h, 2, 3);
    assert SendHeader !in h && OpenNext !in h;
    UntouchedIsIntact(h);
  }

  // ---------------------------------------------------------------- the two loops

  function EventsTo(sources: seq<Source>, n: nat): seq<Event>
    requires n <= |sources|
  {
    if n == 0 then [] else EventsTo(sources, n - 1) + sources[n - 1].events
  }

  /** Source i has returned "next", and nothing done so far stands in the way of another. */
  ghost predicate Passes(sources: seq<Source>, i: nat)
    requires i < |sources|
  {
    sources[i].next && Untouched(EventsTo(sources, i + 1))
  }

  ghost predicate AllPass(sources: seq<Source>, n: nat)
    requires n <= |sources|
  {
    forall i :: 0 <= i < n ==> Passes(sources, i)
  }

  /** Every source before n returned "next" and left the request intact. */
  ghost predicate AllLeaveIntact(sources: seq<Source>, n: nat)
    requires n <= |sources|
  {
    forall i :: 0 <= i < n ==> sources[i].next && Intact(EventsTo(sources, i + 1))
  }

  ghost predicate NoLateRead(sources: seq<Source>) {
    forall n :: 0 < n <= |sources| ==> !LateRead(EventsTo(sources, n))
  }

  lemma PassIsIntact(sources: seq<Source>, n: nat)
    requires n <= |sources| && NoLateRead(sources)
    ensures AllPass(sources, n) <==> AllLeaveIntact(sources, n)
  {
    forall i | 0 <= i < n
      ensures Passes(sources, i) <==> sources[i].next && Intact(EventsTo(sources, i + 1))
    {
      var h := EventsTo(sources, i + 1);
      if Untouched(h) { UntouchedIsIntact(h); }
      if Intact(h) { IntactIsUntouched(h); }
    }
  }

  ghost predicate AllEarly(sources: seq<Source>, n: nat)
    requires n <= |sources|
  {
    forall i :: 0 <= i < n ==> sources[i].beforeCache
  }

  /** What two loops open that stop at the first source which does not pass, the first one of
      them also at one that is not before the cache. */
  lemma OpenedInTurn(sources: seq<Source>, early: nat, count: nat, more: bool, cached: bool, k: nat)
    requires early <= count <= |sources| && k < |sources| && AllEarly(sources, early)
    requires count > 0 ==> AllPass(sources, count - 1)
    requires if early > 0 then more == Passes(sources, early - 1) else more
    requires more && early < |sources| ==> !sources[early].beforeCache
    requires if !more || cached then count == early
             else count < |sources| ==> count > 0 && !Passes(sources, count - 1)
    ensures k < count <==> AllPass(sources, k) && (cached ==> AllEarly(sources, k + 1))
  {
    if k >= count {
      if count > 0 && !Passes(sources, count - 1) {
        assert !AllPass(sources, k);
      } else {
        assert !AllEarly(sources, k + 1);
      }
    }
  }

  class Request {
    const sources: seq<Source>
    var flags: Flags
    var count: nat

    constructor (sources: seq<Source>)
      ensures this.sources == sources && count == 0 && Valid()
    {
      this.sources, flags, count := sources, FRESH, 0;
    }

    /** The sources opened are the first ones, each because all before it have passed. */
    ghost predicate Valid()
      reads this
    {
      && count <= |sources| && Mean(flags, EventsTo(sources, count))
      && (count > 0 ==> AllPass(sources, count - 1))
    }

    method Open() returns (more: bool)
      requires Valid() && count < |sources| && (count > 0 ==> Passes(sources, count - 1))
      modifies this
      ensures Valid() && count == old(count) + 1 && more == Passes(sources, count - 1)
    {
      var events := sources[count].events;
      ghost var before := EventsTo(sources, count);
      assert before + events[..0] == before;
      for k := 0 to |events|
        invariant count == old(count)
        invariant Mean(flags, before + events[..k])
      {
        FlagsMeanHistory(flags, before + events[..k], events[k]);
        assert before + events[..k] + [events[k]] == before + events[..k + 1];
        flags := flags.Do(events[k]);
      }
      assert events[..|events|] == events;
      count := count + 1;
      more := flags.Continue(sources[count - 1].next);
    }

    /** The loop of start_request_fiber over the sources before the cache. */
    method BeforeCache() returns (more: bool)
      requires Valid() && count == 0
      modifies this
      ensures Valid() && (count > 0 ==> more == Passes(sources, count - 1)) && (count == 0 ==> more)
      ensures AllEarly(sources, count) && (more && count < |sources| ==> !sources[count].beforeCache)
    {
      more := true;
      while more && count < |sources| && sources[count].beforeCache
        invariant Valid() && (count > 0 ==> more == Passes(sources, count - 1)) && (count == 0 ==> more)
        invariant AllEarly(sources, count)
        decreases |sources| - count
      {
        more := Open();
      }
    }

    /** The loop of process_request_stream over the others. */
    method Stream()
      requires Valid() && (count > 0 ==> Passes(sources, count - 1))
      modifies this
      ensures Valid() && count >= old(count)
      ensures count < |sources| ==> count > 0 && !Passes(sources, count - 1)
    {
      var more := true;
      while more && count < |sources|
        invariant Valid() && count >= old(count)
        invariant count > 0 ==> more == Passes(sources, count - 1)
        invariant count == 0 ==> more
        decreases |sources| - count
      {
        more := Open();
      }
    }

    /** A whole request: source k is opened exactly if every source before it has passed,
        unless the cache has answered first. What a source finds is intact exactly if no late
        read came before it, and without late reads it is opened exactly if every source
        before it has left the request intact. */
    method Serve(cached: bool)
      requires Valid() && count == 0
      modifies this
      ensures Valid()
      ensures forall k :: 0 <= k < |sources| ==>
                (k < count <==> AllPass(sources, k) && (cached ==> AllEarly(sources, k + 1)))
      ensures forall k :: 0 < k < count ==> (Intact(EventsTo(sources, k)) <==> !LateRead(EventsTo(sources, k)))
      ensures NoLateRead(sources) ==> forall k :: 0 <= k < |sources| ==>
                (k < count <==> AllLeaveIntact(sources, k) && (cached ==> AllEarly(sources, k + 1)))
    {
      var more := BeforeCache();
      ghost var early := count;
      if more && !cached { Stream(); }
      forall k | 0 <= k < |sources|
        ensures k < count <==> AllPass(sources, k) && (cached ==> AllEarly(sources, k + 1))
      {
        OpenedInTurn(sources, early, count, more, cached, k);
      }
      forall k | 0 < k < count ensures Intact(EventsTo(sources, k)) <==> !LateRead(EventsTo(sources, k)) {
        assert Passes(sources, k - 1);
        UntouchedIsIntact(EventsTo(sources, k));
      }
      if NoLateRead(sources) {
        forall k | 0 <= k < |sources| ensures AllPass(sources, k) <==> AllLeaveIntact(sources, k) {
          PassIsIntact(sources, k);
        }
      }
    }
  }
}
