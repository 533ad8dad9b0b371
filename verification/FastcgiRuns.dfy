/** Runs of reads and map-path calls on one stream: what they hand out, over every sequence of
    them. */
module FastcgiRuns {
  import opened Wire
  import opened FastcgiRecords
  import opened FastcgiReader

  /** The wait for a map-path reply: STDIN contents that come before it are kept. */
  function Awaited(r: Reader): (Option<Bytes>, Reader)
    decreases |r.inp|
  {
    match Next(r.inp)
    case None => (None, Reader([], r.pending, r.ended || CutEnd(r.inp)))
    case Some((record, rest)) =>
      if record.kind == MAP_PATH_RESULT then (Some(record.content), Reader(rest, r.pending, r.ended))
      else Awaited(PassedOver(r, record, rest))
  }

  function PassedOver(r: Reader, record: Record, rest: Bytes): Reader {
    Reader(rest, if record.kind == STDIN then r.pending + record.content else r.pending, r.ended || EndsBody(record))
  }

  /** It returns the first reply, and takes it from those that are to come. */
  lemma {:induction false} AwaitedReply(r: Reader)
    ensures var (file, next) := Awaited(r);
            && file == Reply(r.inp)
            && Replies(r.inp) == (if file.Some? then [file.value] else []) + Replies(next.inp)
            && (file.None? ==> Replies(next.inp) == [])
    decreases |r.inp|
  {
    RepliesStep(r.inp);
    RepliesStep([]);
    match Next(r.inp)
    case None =>
    case Some((record, rest)) =>
      if record.kind != MAP_PATH_RESULT {
        AwaitedReply(PassedOver(r, record, rest));
        assert [] + Replies(rest) == Replies(rest);
      }
  }

  lemma {:induction false} AwaitedKeeps(r: Reader)
    ensures Awaited(r).1.Remaining() == Kept(r.pending, r.inp, r.ended)
    decreases |r.inp|
  {
    KeptStep(r.pending, r.inp, r.ended);
    match Next(r.inp)
    case None => assert r.pending + [] == r.pending;
    case Some((record, rest)) => if record.kind != MAP_PATH_RESULT { AwaitedKeeps(PassedOver(r, record, rest)); }
  }

  lemma {:induction false} AwaitedIsOnward(r: Reader)
    ensures Onward(r, Awaited(r).1)
    decreases |r.inp|
  {
    match Next(r.inp)
    case None => RecordIsOnward(r, r.pending);
    case Some((record, rest)) =>
      if record.kind == MAP_PATH_RESULT {
        RecordIsOnward(r, r.pending);
      } else {
        var next := PassedOver(r, record, rest);
        RecordIsOnward(r, next.pending);
        AwaitedIsOnward(next);
        OnwardOn(r, next, Awaited(next).1);
      }
  }

  lemma OnwardOn(a: Reader, b: Reader, c: Reader)
    requires Onward(a, b) && Onward(b, c)
    ensures Onward(a, c)
  {
  }

  // ---------------------------------------------------------------- calls

  datatype Call = ReadCall(len: int) | MapCall(url: Bytes)

  datatype Result = Got(n: int, data: Bytes) | Mapped(file: Option<Bytes>) {
    function Taken(): Bytes { if Got? then data else [] }

    function File(): seq<Bytes> { if Mapped? && file.Some? then [file.value] else [] }
  }

  /** The bytes that the reads have returned. */
  ghost function Delivered(results: seq<Result>): Bytes {
    if results == [] then []
    else Delivered(results[..|results| - 1]) + results[|results| - 1].Taken()
  }

  lemma DeliveredPush(results: seq<Result>, result: Result)
    ensures Delivered(results + [result]) == Delivered(results) + result.Taken()
  {
    assert (results + [result])[..|results|] == results;
  }

  /** The files that the map-path calls have returned. */
  ghost function Files(results: seq<Result>): seq<Bytes> {
    if results == [] then [] else Files(results[..|results| - 1]) + results[|results| - 1].File()
  }

  /** a is what is left of b when some of it is dropped. */
  ghost predicate Picked<T(!new)>(a: seq<T>, b: seq<T>) {
    exists at: seq<nat> :: PickedAt(at, a, b)
  }

  ghost predicate PickedAt<T>(at: seq<nat>, a: seq<T>, b: seq<T>) {
    && |at| == |a| && (forall i :: 0 <= i < |at| ==> at[i] < |b| && a[i] == b[at[i]])
    && forall i, j :: 0 <= i < j < |at| ==> at[i] < at[j]
  }

  lemma AllPicked<T(!new)>(a: seq<T>)
    ensures Picked(a, a)
  {
    assert PickedAt(seq(|a|, i requires 0 <= i < |a| => i), a, a);
  }

  /** Dropping the front of the rest keeps the order. */
  lemma PickedTail<T(!new)>(a: seq<T>, rest: seq<T>, tail: seq<T>, b: seq<T>)
    requires Picked(a + rest, b) && IsTail(tail, rest)
    ensures Picked(a + tail, b)
  {
    var at :| PickedAt(at, a + rest, b);
    var d := |rest| - |tail|;
    var at' := at[..|a|] + at[|a| + d..];
    forall i | 0 <= i < |at'| ensures at'[i] < |b| && (a + tail)[i] == b[at'[i]] {
      if i >= |a| { assert (a + tail)[i] == rest[d..][i - |a|] == (a + rest)[i + d]; }
    }
    assert PickedAt(at', a + tail, b);
  }

  /** One more call: a read may drop replies, a map-path call takes the next one. */
  lemma FilesPush(results: seq<Result>, result: Result, before: seq<Bytes>, after: seq<Bytes>, all: seq<Bytes>)
    requires Picked(Files(results) + before, all)
    requires if result.Got? then IsTail(after, before) else before == result.File() + after
    ensures Picked(Files(results + [result]) + after, all)
    ensures result.Mapped? ==> Files(results + [result]) + after == Files(results) + before
  {
    var more := results + [result];
    assert more[..|results|] == results;
    var files := Files(results);
    if result.Got? {
      assert files + [] == files;
      PickedTail(files, before, after, all);
    } else {
      Assoc(files, result.File(), after);
    }
  }

  /** The result of a read is one it may have when that is left of the body. */
  ghost predicate Suits(call: Call, result: Result, left: Bytes, strict: bool) {
    call.ReadCall? && result.Got? && Answers(call.len, result.n, result.data, left, strict)
  }

  /** Every read is answered from what those before it have left of the body. */
  ghost predicate Served(calls: seq<Call>, results: seq<Result>, body: Bytes, strict: bool) {
    && |results| <= |calls|
    && forall k :: 0 <= k < |results| && calls[k].ReadCall? ==> ServedAt(calls, results, body, strict, k)
  }

  ghost predicate ServedAt(calls: seq<Call>, results: seq<Result>, body: Bytes, strict: bool, k: nat)
    requires k < |results| <= |calls|
  {
    var before := |Delivered(results[..k])|;
    before <= |body| && Suits(calls[k], results[k], body[before..], strict)
  }

  lemma ServedPush(calls: seq<Call>, results: seq<Result>, result: Result, body: Bytes, left: Bytes, strict: bool)
    requires |results| < |calls| && Served(calls, results, body, strict) && Delivered(results) + left == body
    requires calls[|results|].ReadCall? ==> Suits(calls[|results|], result, left, strict)
    ensures Served(calls, results + [result], body, strict)
  {
    var more := results + [result];
    forall k | 0 <= k < |more| && calls[k].ReadCall? ensures ServedAt(calls, more, body, strict, k) {
      assert more[..k] == results[..k];
      if k == |results| {
        assert results[..k] == results && body[|Delivered(results)|..] == left;
      } else {
        assert ServedAt(calls, results, body, strict, k);
      }
    }
  }

  /** One call. */
  function Made(r: Reader, call: Call): (Result, Reader) {
    match call
    case ReadCall(len) => var o := Reads(r, len); (Got(o.n, o.out), o.next)
    case MapCall(_) => var (file, next) := Awaited(r); (Mapped(file), next)
  }

  /** What a reader has before it after some calls, and what they have returned. */
  ghost function After(r: Reader, calls: seq<Call>): Reader {
    if calls == [] then r else Made(After(r, calls[..|calls| - 1]), calls[|calls| - 1]).1
  }

  ghost function Results(r: Reader, calls: seq<Call>): seq<Result> {
    if calls == [] then []
    else
      var front := calls[..|calls| - 1];
      Results(r, front) + [Made(After(r, front), calls[|calls| - 1]).0]
  }

  lemma RunPush(r: Reader, calls: seq<Call>, c: Call)
    ensures After(r, calls + [c]) == Made(After(r, calls), c).1
    ensures Results(r, calls + [c]) == Results(r, calls) + [Made(After(r, calls), c).0]
  {
    assert (calls + [c])[..|calls|] == calls;
  }

  /** One call keeps what the stream promises, and takes nothing from the body but what a read
      returns, if it is a read or the stream is properly sent. */
  lemma MadeIsFair(r: Reader, call: Call)
    ensures var (result, next) := Made(r, call);
            && Onward(r, next) && (result.Got? <==> call.ReadCall?)
            && (call.ReadCall? || Proper(r.inp, r.ended) ==> r.Remaining() == result.Taken() + next.Remaining())
            && forall strict :: r.Ready(strict) && call.ReadCall? ==> Suits(call, result, r.Remaining(), strict)
  {
    match call
    case ReadCall(len) =>
      ReadConserves(r, len);
      ReadIsOnward(r, len);
    case MapCall(_) =>
      AwaitedIsOnward(r);
      var next := Awaited(r).1;
      assert [] + next.Remaining() == next.Remaining();
      if Proper(r.inp, r.ended) { ProperWait(r); }
  }

  /** The wait on a properly sent stream leaves the body as it is. */
  lemma ProperWait(r: Reader)
    requires Proper(r.inp, r.ended)
    ensures Awaited(r).1.Remaining() == r.Remaining()
  {
    AwaitedKeeps(r);
    ProperIsEarly(r.inp, r.ended);
    BodySplits(r.inp, r.ended);
  }

  ghost predicate AllReads(calls: seq<Call>) { forall c <- calls :: c.ReadCall? }

  ghost predicate AllMaps(calls: seq<Call>) { forall c <- calls :: c.MapCall? }

  lemma {:induction false} RunIsOnward(r: Reader, calls: seq<Call>)
    ensures Onward(r, After(r, calls))
  {
    if calls != [] {
      var front, last := calls[..|calls| - 1], calls[|calls| - 1];
      RunIsOnward(r, front);
      MadeIsFair(After(r, front), last);
      OnwardOn(r, After(r, front), After(r, calls));
    }
  }

  lemma {:induction false} RunShape(r: Reader, calls: seq<Call>)
    ensures |Results(r, calls)| == |calls|
    ensures forall k :: 0 <= k < |calls| ==> (Results(r, calls)[k].Got? <==> calls[k].ReadCall?)
  {
    if calls != [] {
      var front, last := calls[..|calls| - 1], calls[|calls| - 1];
      RunShape(r, front);
      MadeShape(After(r, front), last);
    }
  }

  lemma MadeShape(r: Reader, call: Call)
    ensures Made(r, call).0.Got? <==> call.ReadCall?
  {
  }

  /** Any sequence of calls hands out a prefix of the body, in order and once: reads do so on
      every stream, map-path calls in between on every one that is properly sent. */
  lemma {:induction false} RunConserves(r: Reader, calls: seq<Call>)
    requires Proper(r.inp, r.ended) || AllReads(calls)
    ensures Delivered(Results(r, calls)) + After(r, calls).Remaining() == r.Remaining()
  {
    if calls == [] {
      assert [] + r.Remaining() == r.Remaining();
    } else {
      var front, last := calls[..|calls| - 1], calls[|calls| - 1];
      assert last in calls && forall c <- front :: c in calls;
      RunConserves(r, front);
      RunIsOnward(r, front);
      RunPush(r, front, last);
      assert calls == front + [last];
      var (result, next) := Made(After(r, front), last);
      MadeIsFair(After(r, front), last);
      DeliveredPush(Results(r, front), result);
      Assoc(Delivered(Results(r, front)), result.Taken(), next.Remaining());
    }
  }

  /** On a stream that is ready a read gets bytes exactly while there are any, and if it is so
      strictly, 0 for good from then on. */
  lemma {:induction false} RunServes(r: Reader, calls: seq<Call>, strict: bool)
    requires (Proper(r.inp, r.ended) || AllReads(calls)) && r.Ready(strict)
    ensures Served(calls, Results(r, calls), r.Remaining(), strict)
  {
    if calls != [] {
      var front, last := calls[..|calls| - 1], calls[|calls| - 1];
      assert calls == front + [last] && forall c <- front :: c in calls;
      RunServes(r, front, strict);
      RunConserves(r, front);
      RunShape(r, front);
      StillReady(r, front, strict);
      var now := After(r, front);
      if last.ReadCall? { MadeIsSuited(now, last, strict); }
      RunPush(r, front, last);
      OneMoreServed(front, last, Results(r, front), Made(now, last).0, r.Remaining(), now.Remaining(), strict);
    }
  }

  lemma StillReady(r: Reader, calls: seq<Call>, strict: bool)
    requires r.Ready(strict)
    ensures After(r, calls).Ready(strict)
  {
    RunIsOnward(r, calls);
  }

  lemma OneMoreServed(front: seq<Call>, last: Call, results: seq<Result>, result: Result,
                      body: Bytes, left: Bytes, strict: bool)
    requires |results| == |front| && Served(front, results, body, strict) && Delivered(results) + left == body
    requires last.ReadCall? ==> Suits(last, result, left, strict)
    ensures Served(front + [last], results + [result], body, strict)
  {
    ServedMore(front, last, results, body, strict);
    ServedPush(front + [last], results, result, body, left, strict);
  }

  lemma MadeIsSuited(r: Reader, call: Call, strict: bool)
    requires r.Ready(strict) && call.ReadCall?
    ensures Suits(call, Made(r, call).0, r.Remaining(), strict)
  {
    MadeIsFair(r, call);
  }

  lemma ServedMore(front: seq<Call>, last: Call, results: seq<Result>, body: Bytes, strict: bool)
    requires Served(front, results, body, strict) && |results| == |front|
    ensures Served(front + [last], results, body, strict)
  {
    forall k | 0 <= k < |results| && front[k].ReadCall? ensures ServedAt(front + [last], results, body, strict, k) {
      assert ServedAt(front, results, body, strict, k);
    }
  }

  /** The files that map-path calls return are replies of the stream, each once and in order;
      without reads in between, which may pass over replies, they are the first ones. */
  lemma {:induction false} RunReplies(r: Reader, calls: seq<Call>)
    ensures var files := Files(Results(r, calls)) + Replies(After(r, calls).inp);
            Picked(files, Replies(r.inp)) && (AllMaps(calls) ==> files == Replies(r.inp))
  {
    if calls == [] {
      assert [] + Replies(r.inp) == Replies(r.inp);
      AllPicked(Replies(r.inp));
    } else {
      var front, last := calls[..|calls| - 1], calls[|calls| - 1];
      assert last in calls && forall c <- front :: c in calls;
      RunReplies(r, front);
      var now := After(r, front);
      var (result, next) := Made(now, last);
      MadeReplies(now, last);
      FilesPush(Results(r, front), result, Replies(now.inp), Replies(next.inp), Replies(r.inp));
    }
  }

  lemma MadeReplies(r: Reader, call: Call)
    ensures var (result, next) := Made(r, call);
            && (result.Got? <==> call.ReadCall?)
            && if result.Got? then IsTail(Replies(next.inp), Replies(r.inp))
               else Replies(r.inp) == result.File() + Replies(next.inp)
  {
    match call
    case ReadCall(len) => ReadTail(r, len);
    case MapCall(_) => AwaitedReply(r);
  }
}
