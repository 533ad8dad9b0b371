/** What a reader makes of a stream of records: the wait for a map-path reply, which passes
    over body records, and the reads, over every run of them. */
module FastcgiReader {
  import opened Wire
  import opened FastcgiRecords

  /** The content of the first map-path reply in a stream. */
  function Reply(b: Bytes): Option<Bytes>
    decreases |b|
  {
    match Next(b)
    case None => None
    case Some((r, rest)) => if r.kind == MAP_PATH_RESULT then Some(r.content) else Reply(rest)
  }

  lemma {:induction false} ReplyIsFirst(b: Bytes)
    ensures Reply(b) == if Replies(b) == [] then None else Some(Replies(b)[0])
    decreases |b|
  {
    RepliesStep(b);
    if Next(b).Some? { ReplyIsFirst(Next(b).value.1); }
  }

  /** Behind any records that are no replies, the content of the first reply is found. */
  lemma ReplyOfFrames(before: seq<Record>, file: Bytes, rest: Bytes)
    requires Fit(before) && (forall r <- before :: r.kind != MAP_PATH_RESULT) && |file| <= 65535
    ensures Reply(Frames(before) + (Frame(MAP_PATH_RESULT, file) + rest)) == Some(file)
    ensures Reply(Frames(before)) == None
  {
    var behind := Frame(MAP_PATH_RESULT, file) + rest;
    var b := Frames(before) + behind;
    FramesAreRecords(before, behind);
    FrameIsNext(MAP_PATH_RESULT, file, rest);
    RepliesStep(behind);
    NoReplies(before);
    RepliesAppend(before, Records(behind));
    assert Replies(b) == [] + ([file] + Replies(rest)) == [file] + Replies(rest);
    ReplyIsFirst(b);
    FramesAreRecords(before, []);
    assert Frames(before) + [] == Frames(before) && before + [] == before;
    ReplyIsFirst(Frames(before));
  }

  /** The STDIN contents before that reply. */
  ghost function Early(b: Bytes): Bytes
    decreases |b|
  {
    match Next(b)
    case None => []
    case Some((r, rest)) =>
      if r.kind == MAP_PATH_RESULT then [] else (if r.kind == STDIN then r.content else []) + Early(rest)
  }

  /** The part of the body before it ... */
  ghost function Before(b: Bytes, ended: bool): Bytes
    decreases |b|
  {
    match Next(b)
    case None => []
    case Some((r, rest)) =>
      if r.kind == MAP_PATH_RESULT then []
      else (if !ended && IsData(r.kind) then r.content else []) + Before(rest, ended || EndsBody(r))
  }

  /** ... and behind it. */
  ghost function Behind(b: Bytes, ended: bool): Bytes
    decreases |b|
  {
    match Next(b)
    case None => []
    case Some((r, rest)) =>
      if r.kind == MAP_PATH_RESULT then BodyAt(rest, ended) else Behind(rest, ended || EndsBody(r))
  }

  /** What read() will return once the reply has come. */
  ghost function Kept(pending: Bytes, b: Bytes, ended: bool): Bytes {
    pending + (Early(b) + Behind(b, ended))
  }

  /** One record of the wait for the reply. */
  lemma KeptStep(pending: Bytes, b: Bytes, ended: bool)
    ensures
      match Next(b)
      case None => Kept(pending, b, ended) == pending
      case Some((r, rest)) =>
        Kept(pending, b, ended) ==
        if r.kind == MAP_PATH_RESULT then pending + BodyAt(rest, ended)
        else Kept(if r.kind == STDIN then pending + r.content else pending, rest, ended || EndsBody(r))
  {
    match Next(b)
    case None => assert pending + [] == pending;
    case Some((r, rest)) =>
      if r.kind == MAP_PATH_RESULT {
        assert [] + BodyAt(rest, ended) == BodyAt(rest, ended);
      } else {
        var early, behind := Early(rest), Behind(rest, ended || EndsBody(r));
        if r.kind == STDIN {
          Assoc(r.content, early, behind);
          Assoc(pending, r.content, early + behind);
        } else {
          assert [] + early == early;
        }
      }
  }

  lemma {:induction false} BodySplits(b: Bytes, ended: bool)
    ensures BodyAt(b, ended) == Before(b, ended) + Behind(b, ended)
    decreases |b|
  {
    match Next(b)
    case None =>
    case Some((r, rest)) =>
      if r.kind != MAP_PATH_RESULT {
        BodySplits(rest, ended || EndsBody(r));
        var first := if !ended && IsData(r.kind) then r.content else [];
        Assoc(first, Before(rest, ended || EndsBody(r)), Behind(rest, ended || EndsBody(r)));
        assert [] + BodyAt(rest, ended) == BodyAt(rest, ended);
      }
  }

  /** Every byte of the body that comes before the reply is in a STDIN record, and no STDIN
      byte comes between the end of the body and the reply. */
  ghost predicate ProperToReply(b: Bytes, ended: bool)
    decreases |b|
  {
    match Next(b)
    case None => true
    case Some((r, rest)) =>
      || r.kind == MAP_PATH_RESULT
      || (&& (r.kind == STDOUT && !ended ==> r.content == []) && (r.kind == STDIN && ended ==> r.content == [])
          && ProperToReply(rest, ended || EndsBody(r)))
  }

  /** How many bytes of the body the wait for the reply drops: those in STDOUT records ... */
  ghost function Lost(b: Bytes, ended: bool): nat
    decreases |b|
  {
    match Next(b)
    case None => 0
    case Some((r, rest)) =>
      if r.kind == MAP_PATH_RESULT then 0
      else (if r.kind == STDOUT && !ended then |r.content| else 0) + Lost(rest, ended || EndsBody(r))
  }

  /** ... and how many it adds: those in STDIN records behind the end. */
  ghost function Late(b: Bytes, ended: bool): nat
    decreases |b|
  {
    match Next(b)
    case None => 0
    case Some((r, rest)) =>
      if r.kind == MAP_PATH_RESULT then 0
      else (if r.kind == STDIN && ended then |r.content| else 0) + Late(rest, ended || EndsBody(r))
  }

  /** The wait keeps the body if it drops and adds nothing, and only if it drops as many
      bytes as it adds. */
  lemma {:induction false} WaitBalance(b: Bytes, ended: bool)
    ensures ProperToReply(b, ended) <==> Lost(b, ended) == 0 && Late(b, ended) == 0
    ensures |Early(b)| + Lost(b, ended) == |Before(b, ended)| + Late(b, ended)
    ensures ProperToReply(b, ended) ==> Early(b) == Before(b, ended)
    decreases |b|
  {
    if Next(b).Some? && Next(b).value.0.kind != MAP_PATH_RESULT {
      var (r, rest) := Next(b).value;
      WaitBalance(rest, ended || EndsBody(r));
    }
  }

  /** A properly sent stream is proper up to the reply. */
  lemma {:induction false} ProperIsEarly(b: Bytes, ended: bool)
    requires Proper(b, ended)
    ensures ProperToReply(b, ended) && Early(b) == Before(b, ended)
    decreases |b|
  {
    WaitBalance(b, ended);
    match Next(b)
    case None =>
    case Some((r, rest)) => if r.kind != MAP_PATH_RESULT { ProperIsEarly(rest, ended || EndsBody(r)); }
  }

  /** Two bodies with a common front and a common end. */
  lemma SameMiddle(front: Bytes, a: Bytes, b: Bytes, end: Bytes)
    ensures front + (a + end) == front + (b + end) <==> a == b
  {
    if front + (a + end) == front + (b + end) {
      assert a + end == (front + (a + end))[|front|..] == (front + (b + end))[|front|..] == b + end;
      assert |a + end| == |b + end|;
      assert a == (a + end)[..|a|] == (b + end)[..|b|] == b;
    }
  }

  // ---------------------------------------------------------------- reads

  /** A record that the private read does not pass over. */
  predicate IsStop(kind: byte) { IsData(kind) || kind == END_REQUEST || kind == ABORT_REQUEST }

  /** The stream from the first such record on, or from where it breaks off. */
  function Skip(b: Bytes): Bytes
    decreases |b|
  {
    if Next(b).None? || IsStop(Next(b).value.0.kind) then b else Skip(Next(b).value.1)
  }

  lemma {:induction false} SkipIsSmaller(b: Bytes)
    ensures |Skip(b)| <= |b| && (Next(Skip(b)).Some? ==> IsStop(Next(Skip(b)).value.0.kind))
    decreases |b|
  {
    if Next(b).Some? && !IsStop(Next(b).value.0.kind) { SkipIsSmaller(Next(b).value.1); }
  }

  /** The stream breaks off in an empty data record. */
  predicate CutEnd(b: Bytes) { |b| >= HEADER_LEN && IsData(b[1]) && ContentLength(b) == 0 }

  /** What the private read yields: an error, data, or the length of an END_REQUEST without
      its content. */
  datatype Fetch = Failed | Data(content: Bytes) | Hollow

  /** What a reader has before it. */
  datatype Reader = Reader(inp: Bytes, pending: Bytes, ended: bool) {
    ghost function Remaining(): Bytes { pending + BodyAt(inp, ended) }

    /** A positive read is answered with bytes exactly while there are any, in every run of
        reads, and if strict with 0 and no error from then on. */
    ghost predicate Ready(strict: bool) { ended || Ordered(inp, false, strict) }

    /** The body is ended by its own record, or the stream breaks off. */
    ghost predicate Complete() { ended || BodyEndsFirst(inp) }
  }

  function Fetched(b: Bytes): (Fetch, Bytes, bool) {
    var s := Skip(b);
    match Next(s)
    case None => (Failed, [], CutEnd(s))
    case Some((r, rest)) =>
      if IsData(r.kind) then (Data(r.content), rest, r.content == [])
      else if r.kind == ABORT_REQUEST then (Failed, rest, false)
      else (if r.content == [] then Data([]) else Hollow, rest, false)
  }

  /** The result of a read: its count, its bytes and what the reader then has before it. */
  datatype Outcome = Outcome(n: int, out: Bytes, next: Reader)

  function Take(pending: Bytes, inp: Bytes, ended: bool, len: nat): Outcome {
    var n := if len > |pending| then |pending| else len;
    Outcome(n, pending[..n], Reader(inp, pending[n..], ended))
  }

  /** read(): one fetch, and a second one if the first was hollow; what the second brings
      is kept for the next read. */
  function Reads(r: Reader, len: int): Outcome {
    if len <= 0 then Outcome(if len < 0 then -1 else 0, [], r)
    else if r.pending != [] then Take(r.pending, r.inp, r.ended, len)
    else if r.ended then Outcome(0, [], r)
    else
      var (f, rest, e) := Fetched(r.inp);
      match f
      case Failed => Outcome(-1, [], Reader(rest, [], e))
      case Data(d) => if d == [] then Outcome(0, [], Reader(rest, [], e)) else Take(d, rest, e, len)
      case Hollow => ReadsAgain(rest)
  }

  function ReadsAgain(b: Bytes): Outcome {
    var (f, rest, e) := Fetched(b);
    match f
    case Data(d) => Outcome(if d == [] then 0 else -1, [], Reader(rest, d, e))
    case _ => Outcome(-1, [], Reader(rest, [], e))
  }

  /** No END_REQUEST or ABORT_REQUEST comes before the end record of the body while bytes
      are still to come. If strict, the end record comes, no ABORT_REQUEST is before it, and
      no two hollow END_REQUESTs stand one behind the other. */
  ghost predicate Ordered(b: Bytes, hollow: bool, strict: bool)
    decreases |b|
  {
    match Next(b)
    case None => !strict
    case Some((r, rest)) =>
      if EndsBody(r) then true
      else if r.kind == ABORT_REQUEST then !strict && Owed(rest) == [] && Ordered(rest, false, strict)
      else if r.kind == END_REQUEST then
        && !(strict && hollow && r.content != [])
        && Owed(rest) == [] && Ordered(rest, r.content != [], strict)
      else Ordered(rest, hollow, strict)
  }

  /** The body is ended by its own empty record, not by END_REQUEST or ABORT_REQUEST. */
  ghost predicate BodyEndsFirst(b: Bytes)
    decreases |b|
  {
    match Next(b)
    case None => true
    case Some((r, rest)) =>
      || EndsBody(r)
      || (r.kind != END_REQUEST && r.kind != ABORT_REQUEST && BodyEndsFirst(rest))
  }

  lemma {:induction false} SkipKeeps(b: Bytes, hollow: bool, strict: bool)
    ensures Owed(Skip(b)) == Owed(b) && BodyEndsFirst(Skip(b)) == BodyEndsFirst(b)
    ensures Ordered(Skip(b), hollow, strict) == Ordered(b, hollow, strict)
    decreases |b|
  {
    if Next(b).Some? && !IsStop(Next(b).value.0.kind) { SkipKeeps(Next(b).value.1, hollow, strict); }
  }

  /** A hollow END_REQUEST matters only to the strict order. */
  lemma {:induction false} HollowIsStrict(b: Bytes, strict: bool)
    ensures Ordered(b, true, strict) ==> Ordered(b, false, strict)
    ensures !strict ==> Ordered(b, true, strict) == Ordered(b, false, strict)
    decreases |b|
  {
    if Next(b).Some? { HollowIsStrict(Next(b).value.1, strict); }
  }

  lemma {:induction false} CompleteIsOrdered(b: Bytes)
    requires BodyEndsFirst(b)
    ensures Ordered(b, false, false)
    decreases |b|
  {
    if Next(b).Some? && !EndsBody(Next(b).value.0) { CompleteIsOrdered(Next(b).value.1); }
  }

  lemma {:induction false} SkipIsProper(b: Bytes)
    requires Proper(b, false)
    ensures Proper(Skip(b), false)
    decreases |b|
  {
    if Next(b).Some? && !IsStop(Next(b).value.0.kind) { SkipIsProper(Next(b).value.1); }
  }

  lemma FetchIsProper(b: Bytes)
    requires Proper(b, false)
    ensures var (f, rest, e) := Fetched(b); Proper(rest, e)
  {
    SkipIsProper(b);
    SkipIsSmaller(b);
  }

  /** If the body is ended by its own record, a fetch without data has met it, and one that
      fails has used up the stream. */
  lemma FetchIsComplete(b: Bytes)
    requires BodyEndsFirst(b)
    ensures var (f, rest, e) := Fetched(b);
            && (e || BodyEndsFirst(rest)) && !f.Hollow?
            && (f == Data([]) ==> e) && (f.Failed? ==> rest == [])
  {
    SkipKeeps(b, false, false);
    SkipIsSmaller(b);
  }

  /** A fetch takes its data out of the body and nothing else. */
  lemma FetchConserves(b: Bytes)
    ensures var (f, rest, e) := Fetched(b);
            Owed(b) == (if f.Data? then f.content else []) + BodyAt(rest, e)
  {
    SkipKeeps(b, false, false);
    var (f, rest, e) := Fetched(b);
    assert [] + BodyAt(rest, e) == BodyAt(rest, e);
  }

  lemma TakeConserves(pending: Bytes, inp: Bytes, ended: bool, len: nat)
    ensures var o := Take(pending, inp, ended, len);
            pending + BodyAt(inp, ended) == o.out + o.next.Remaining() && o.n == |o.out| <= len
  {
    var o := Take(pending, inp, ended, len);
    assert pending == o.out + o.next.pending;
    Assoc(o.out, o.next.pending, BodyAt(inp, ended));
  }

  /** The bytes a read returns leave the body in order and nothing else does. */
  lemma ReadConserves(r: Reader, len: int)
    ensures var o := Reads(r, len);
            && r.Remaining() == o.out + o.next.Remaining()
            && (o.n > 0 ==> o.n == |o.out| <= len) && (o.n <= 0 ==> o.out == [])
  {
    var o := Reads(r, len);
    assert [] + o.next.Remaining() == o.next.Remaining();
    if len > 0 && r.pending != [] {
      TakeConserves(r.pending, r.inp, r.ended, len);
    } else if len > 0 && !r.ended {
      var (f, rest, e) := Fetched(r.inp);
      FetchConserves(r.inp);
      assert r.Remaining() == Owed(r.inp);
      if f.Hollow? {
        assert !e;
        FetchConserves(rest);
      } else if f.Data? && f.content != [] {
        TakeConserves(f.content, rest, e, len);
      }
    }
  }

  lemma ReadIsProper(r: Reader, len: int)
    requires Proper(r.inp, r.ended)
    ensures var o := Reads(r, len); Proper(o.next.inp, o.next.ended)
  {
    if len > 0 && r.pending == [] && !r.ended {
      var (f, rest, e) := Fetched(r.inp);
      FetchIsProper(r.inp);
      if f.Hollow? { FetchIsProper(rest); }
    }
  }

  lemma ReadIsComplete(r: Reader, len: int)
    requires r.Complete()
    ensures var o := Reads(r, len);
            && o.next.Complete()
            && (len > 0 && o.n == 0 ==> o.next.Remaining() == [] && o.next.ended)
            && (len > 0 && o.n < 0 ==> o.next.Remaining() == [] && o.next.inp == [])
  {
    if len > 0 && r.pending == [] && !r.ended {
      FetchIsComplete(r.inp);
      FetchConserves(r.inp);
    }
  }

  ghost predicate IsTail<T>(tail: seq<T>, all: seq<T>) { |tail| <= |all| && all[|all| - |tail|..] == tail }

  lemma {:induction false} SkipTail(b: Bytes)
    ensures IsTail(Replies(Skip(b)), Replies(b))
    decreases |b|
  {
    RepliesStep(b);
    if Next(b).Some? && !IsStop(Next(b).value.0.kind) { SkipTail(Next(b).value.1); }
  }

  /** A fetch may pass over replies, and does not reorder them. */
  lemma FetchTail(b: Bytes)
    ensures IsTail(Replies(Fetched(b).1), Replies(b))
  {
    SkipTail(b);
    RepliesStep(Skip(b));
    RepliesStep([]);
  }

  lemma ReadTail(r: Reader, len: int)
    ensures IsTail(Replies(Reads(r, len).next.inp), Replies(r.inp))
  {
    if len > 0 && r.pending == [] && !r.ended {
      var (f, rest, e) := Fetched(r.inp);
      FetchTail(r.inp);
      if f.Hollow? {
        FetchTail(rest);
        TailOfTail(Replies(Fetched(rest).1), Replies(rest), Replies(r.inp));
      }
    }
  }

  lemma TailOfTail<T>(a: seq<T>, b: seq<T>, c: seq<T>)
    requires IsTail(a, b) && IsTail(b, c)
    ensures IsTail(a, c)
  {
    assert c[|c| - |a|..] == c[|c| - |b|..][|b| - |a|..];
  }

  /** What a read may answer when that is left of the body. */
  ghost predicate Answers(len: int, n: int, data: Bytes, left: Bytes, strict: bool) {
    if len < 0 then n == -1 && data == []
    else if len == 0 then n == 0 && data == []
    else if left != [] then 0 < n <= len && n <= |left| && data == left[..n]
    else n <= 0 && data == [] && (strict ==> n == 0)
  }

  ghost predicate ReadsAnswer(r: Reader, lens: seq<int>, strict: bool)
    decreases |lens|
  {
    lens == [] ||
    var o := Reads(r, lens[0]);
    Answers(lens[0], o.n, o.out, r.Remaining(), strict) && ReadsAnswer(o.next, lens[1..], strict)
  }

  /** What the stream ahead promised, it still promises. */
  ghost predicate Onward(r: Reader, next: Reader) {
    && (r.ended ==> next.ended) && (Proper(r.inp, r.ended) ==> Proper(next.inp, next.ended))
    && (r.Complete() ==> next.Complete())
    && (r.Ready(false) ==> next.Ready(false)) && (r.Ready(true) ==> next.Ready(true))
  }

  /** A record that is passed over keeps every promise. */
  lemma RecordIsOnward(r: Reader, pending: Bytes)
    ensures
      match Next(r.inp)
      case None => Onward(r, Reader([], pending, r.ended || CutEnd(r.inp)))
      case Some((record, rest)) => Onward(r, Reader(rest, pending, r.ended || EndsBody(record)))
  {
    if Ordered(r.inp, false, true) { OrderedStep(r.inp, true); }
    if Ordered(r.inp, false, false) { OrderedStep(r.inp, false); }
  }

  /** What is left for the second fetch after a hollow one. */
  lemma AgainIsReady(b: Bytes, strict: bool)
    requires Owed(b) == [] && Ordered(b, true, strict)
    ensures var o := ReadsAgain(b); o.next.Ready(strict) && o.n <= 0 && (strict ==> o.n == 0)
  {
    SkipKeeps(b, true, strict);
    SkipIsSmaller(b);
    var s := Skip(b);
    if Next(s).Some? { HollowIsStrict(Next(s).value.1, strict); }
  }

  lemma {:induction false} OrderedStep(b: Bytes, strict: bool)
    requires Ordered(b, false, strict)
    ensures
      match Next(b)
      case None => Ordered([], false, strict)
      case Some((r, rest)) => EndsBody(r) || Ordered(rest, false, strict)
  {
    if Next(b).Some? { HollowIsStrict(Next(b).value.1, strict); }
  }

  /** An ordered reader answers as it should, and stays ordered. */
  lemma ReadyStays(r: Reader, len: int, strict: bool)
    requires r.Ready(strict)
    ensures var o := Reads(r, len);
            o.next.Ready(strict) && Answers(len, o.n, o.out, r.Remaining(), strict)
  {
    ReadConserves(r, len);
    var o := Reads(r, len);
    Front(o.out, o.next.Remaining());
    if len > 0 && r.pending == [] && !r.ended {
      SkipKeeps(r.inp, false, strict);
      SkipIsSmaller(r.inp);
      var (f, rest, e) := Fetched(r.inp);
      if f.Hollow? { AgainIsReady(rest, strict); }
    }
  }

  lemma Front(a: Bytes, b: Bytes)
    ensures (a + b)[..|a|] == a
  {
  }

  lemma ReadIsOnward(r: Reader, len: int)
    ensures var o := Reads(r, len);
            && Onward(r, o.next)
            && (r.Complete() && len > 0 && o.n == 0 ==> o.next.Remaining() == [] && o.next.ended)
            && (r.Complete() && len > 0 && o.n < 0 ==> o.next.Remaining() == [] && o.next.inp == [])
            && forall strict :: r.Ready(strict) ==> Answers(len, o.n, o.out, r.Remaining(), strict)
  {
    if r.Ready(false) { ReadyStays(r, len, false); }
    if r.Ready(true) { ReadyStays(r, len, true); }
    if r.Complete() { ReadIsComplete(r, len); }
    if Proper(r.inp, r.ended) { ReadIsProper(r, len); }
  }

  lemma {:induction false} ReadyAnswers(r: Reader, lens: seq<int>, strict: bool)
    requires r.Ready(strict)
    ensures ReadsAnswer(r, lens, strict)
    decreases |lens|
  {
    if lens != [] {
      ReadyStays(r, lens[0], strict);
      ReadyAnswers(Reads(r, lens[0]).next, lens[1..], strict);
    }
  }

  /** One read of a reader that is not ordered: the answer is wrong, or less is left of the
      stream and it is still not ordered. */
  lemma StaysUnready(r: Reader, strict: bool)
    requires !r.Ready(strict) && r.pending == []
    ensures var len := |r.inp| + 1;
            var o := Reads(r, len);
            !Answers(len, o.n, o.out, r.Remaining(), strict) || (!o.next.Ready(strict) && |o.next.inp| < |r.inp|)
  {
    var s := Skip(r.inp);
    SkipKeeps(r.inp, false, strict);
    SkipIsSmaller(r.inp);
    var (f, rest, e) := Fetched(r.inp);
    if f.Hollow? && Owed(rest) == [] { AgainStaysUnready(rest, strict); }
  }

  lemma AgainStaysUnready(b: Bytes, strict: bool)
    requires Owed(b) == [] && !Ordered(b, true, strict)
    ensures var o := ReadsAgain(b);
            (strict && o.n != 0) || (!o.next.Ready(strict) && |o.next.inp| < |b|)
  {
    SkipKeeps(b, true, strict);
    SkipIsSmaller(b);
    var s := Skip(b);
    if Next(s).Some? { HollowIsStrict(Next(s).value.1, strict); }
  }

  lemma {:induction false} UnreadyFails(r: Reader, strict: bool) returns (lens: seq<int>)
    requires !r.Ready(strict)
    ensures !ReadsAnswer(r, lens, strict)
    decreases |r.inp|, |r.pending|
  {
    var len := if r.pending == [] then |r.inp| + 1 else |r.pending|;
    var o := Reads(r, len);
    if r.pending == [] { StaysUnready(r, strict); }
    if Answers(len, o.n, o.out, r.Remaining(), strict) {
      var more := UnreadyFails(o.next, strict);
      lens := [len] + more;
      assert lens[1..] == more;
    } else {
      lens := [len];
    }
  }

  /** In every run of reads each one that asks for bytes gets some exactly while there are
      any, if and only if the stream is ordered; and those that come later are answered with
      0 for good, if and only if it is strictly so. */
  lemma ReadsToTheEnd(r: Reader, strict: bool)
    ensures (forall lens :: ReadsAnswer(r, lens, strict)) <==> r.Ready(strict)
  {
    if r.Ready(strict) {
      forall lens ensures ReadsAnswer(r, lens, strict) { ReadyAnswers(r, lens, strict); }
    } else {
      var lens := UnreadyFails(r, strict);
    }
  }

  /** An END_REQUEST in front of the body is taken for its end. */
  lemma EndRequestIsNotTheEnd()
    ensures var first := Reads(Reader(Frame(END_REQUEST, []) + Frame(STDIN, [1]), [], false), 1);
            first.n == 0 && Reads(first.next, 1).n == 1
  {
    var body := Frame(STDIN, [1]);
    FetchedFrame(END_REQUEST, [], body);
    FetchedFrame(STDIN, [1], []);
    assert body + [] == body;
  }

  lemma FetchedFrame(kind: byte, content: Bytes, rest: Bytes)
    requires (kind == STDIN && content != []) || (kind == END_REQUEST && content == [])
    requires |content| <= 65535
    ensures Fetched(Frame(kind, content) + rest) == (Data(content), rest, false)
  {
    FrameIsNext(kind, content, rest);
  }
}
