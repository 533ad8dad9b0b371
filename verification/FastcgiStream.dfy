/** The FastCGI stream of an extension: the chunking writer, and the reader whose body reads
    may be interleaved with out-of-band map-path replies. */
module FastcgiStream {
  import opened Wire
  import opened FastcgiRecords
  import opened FastcgiReader
  import opened FastcgiRuns

  class Stream {
    var inp: Bytes      // what the peer sends, from here on
    var output: Bytes   // what was sent to the peer
    var pending: Bytes  // received body bytes that read() has not returned
    var ended: bool     // an empty data record has arrived

    ghost function State(): Reader reads this { Reader(inp, pending, ended) }

    /** The body bytes that read() has still to return. */
    ghost function Remaining(): Bytes reads this { State().Remaining() }

    ghost predicate Complete() reads this { State().Complete() }

    ghost predicate Ready(strict: bool) reads this { State().Ready(strict) }

    constructor (inp: Bytes)
      ensures this.inp == inp && output == [] && pending == [] && !ended
    {
      this.inp, output, pending, ended := inp, [], [], false;
    }

    method WriteData(kind: byte, buf: Bytes)
      modifies `output
      ensures output == old(output) + Chunks(kind, buf)
    {
      if buf == [] {
        output := output + Header(kind, 0);
        return;
      }
      var left := buf;
      ghost var done: Bytes := [];
      while left != []
        invariant output == old(output) + done
        invariant done + Rest(kind, left) == Chunks(kind, buf)
        decreases |left|
      {
        var n := if |left| < MAX_CHUNK then |left| else MAX_CHUNK;
        RestStep(kind, left, n);
        Assoc(done, Frame(kind, left[..n]), Rest(kind, left[n..]));
        Assoc(old(output), done, Frame(kind, left[..n]));
        Assoc(output, Header(kind, n), left[..n]);
        done := done + Frame(kind, left[..n]);
        output := output + Header(kind, n);
        output := output + left[..n];
        left := left[n..];
      }
    }

    /** read_all: a short stream is used up without filling the buffer. */
    method ReadAll(n: nat) returns (ok: bool, data: Bytes)
      modifies `inp
      ensures ok <==> n <= |old(inp)|
      ensures ok ==> data == old(inp)[..n] && inp == old(inp)[n..]
      ensures !ok ==> inp == []
    {
      if n <= |inp| {
        ok, data, inp := true, inp[..n], inp[n..];
      } else {
        ok, data, inp := false, [], [];
      }
    }

    /** read_package: one record, whatever its kind. */
    method ReadPackage() returns (ok: bool, kind: byte, content: Bytes)
      modifies `inp, `ended
      ensures ok <==> Next(old(inp)).Some?
      ensures ok ==> Next(old(inp)) == Some((Record(kind, content), inp))
      ensures ok ==> ended == (old(ended) || EndsBody(Record(kind, content)))
      ensures !ok ==> inp == [] && ended == (old(ended) || CutEnd(old(inp)))
    {
      kind, content := 0, [];
      var header;
      ok, header := ReadAll(HEADER_LEN);
      if !ok { return; }
      kind := header[1];
      var len := ContentLength(header);
      assert len == ContentLength(old(inp));
      if len > 0 {
        ok, content := ReadAll(len);
        if !ok { return; }
      } else if IsData(kind) {
        ended := true;
      }
      assert content == old(inp)[HEADER_LEN..HEADER_LEN + len];
      if header[6] != 0 {
        var padding;
        ok, padding := ReadAll(header[6] as nat);
      }
    }

    /** The private read: skips other records up to the next data record. */
    method ReadData() returns (f: Fetch)
      modifies `inp, `ended
      ensures old(ended) ==> f == Data([]) && inp == old(inp) && ended
      ensures !old(ended) ==> (f, inp, ended) == Fetched(old(inp))
      ensures BodyAt(old(inp), old(ended)) == (if f.Data? then f.content else []) + BodyAt(inp, ended)
      ensures old(Complete()) ==> Complete() && !f.Hollow? && (f == Data([]) ==> ended) && (f.Failed? ==> inp == [])
      ensures old(Proper(inp, ended)) ==> Proper(inp, ended)
    {
      if ended { return Data([]); }
      FetchConserves(inp);
      if BodyEndsFirst(inp) { FetchIsComplete(inp); }
      if Proper(inp, false) { FetchIsProper(inp); }
      while true
        invariant !ended && Skip(inp) == Skip(old(inp))
        decreases |inp|
      {
        var ok, kind, content := ReadPackage();
        if !ok { return Failed; }
        if IsData(kind) { return Data(content); }
        if kind == END_REQUEST { return if content == [] then Data([]) else Hollow; }
        if kind == ABORT_REQUEST { return Failed; }
      }
    }

    /** The two turns of read(). */
    method ReadTurns(len: nat) returns (n: int, out: Bytes)
      requires len > 0
      modifies `inp, `pending, `ended
      ensures Outcome(n, out, State()) == Reads(old(State()), len)
    {
      out := [];
      var i := 0;
      while i < 2
        invariant 0 <= i <= 2
        invariant i == 0 ==> State() == old(State())
        invariant i == 1 && pending != [] ==> Take(pending, inp, ended, len) == Reads(old(State()), len)
        invariant i == 1 && pending == [] ==> !ended && ReadsAgain(inp) == Reads(old(State()), len)
        invariant i == 2 ==> Outcome(-1, [], State()) == Reads(old(State()), len)
      {
        if pending != [] {
          n := if len > |pending| then |pending| else len;
          out := pending[..n];
          pending := pending[n..];
          return;
        }
        var f := ReadData();
        if f.Failed? { return -1, []; }
        if f == Data([]) { return 0, []; }
        if f.Data? { pending := f.content; }
        i := i + 1;
      }
      n := -1;
    }

    /** read: the bytes it returns leave the body in order and nothing else does. A reader
        that is ready gets bytes exactly while there are any, and stays ready. */
    method Read(len: int) returns (n: int, out: Bytes)
      modifies `inp, `pending, `ended
      ensures Outcome(n, out, State()) == Reads(old(State()), len)
      ensures old(Remaining()) == out + Remaining() && (n > 0 ==> n == |out| <= len) && (n <= 0 ==> out == [])
      ensures Onward(old(State()), State()) && IsTail(Replies(inp), Replies(old(inp)))
      ensures forall strict :: old(State()).Ready(strict) ==> Answers(len, n, out, old(Remaining()), strict)
      ensures len > 0 && n == 0 && old(Complete()) ==> Remaining() == [] && ended
      ensures len > 0 && n < 0 && old(Complete()) ==> Remaining() == [] && inp == []
    {
      ReadConserves(State(), len);
      ReadIsOnward(State(), len);
      ReadTail(State(), len);
      out := [];
      if len < 0 { return -1, []; }
      if len == 0 { return 0, []; }
      n, out := ReadTurns(len);
    }

    /** The end of start: reads until there is nothing left, unless the end of the body has
        arrived. On a stream that is ready nothing of the body is left behind. */
    method Drain() returns (got: Bytes)
      modifies `inp, `pending, `ended
      ensures got + Remaining() == old(Remaining()) && Onward(old(State()), State())
      ensures old(ended) ==> State() == old(State())
      ensures !old(ended) && old(Ready(false)) ==> Remaining() == []
    {
      got := [];
      assert [] + Remaining() == Remaining();
      if ended { return; }
      var n := 1;
      while n > 0
        invariant got + Remaining() == old(Remaining()) && Onward(old(State()), State())
        invariant n <= 0 && old(Ready(false)) ==> Remaining() == []
        decreases |Remaining()|, n
      {
        ghost var left := Remaining();
        var out;
        n, out := Read(512);
        Assoc(got, out, Remaining());
        assert |left| == |out| + |Remaining()|;
        got := got + out;
      }
    }

    /** push_read_data. */
    method PushReadData(buf: Bytes)
      modifies `pending
      ensures pending == old(pending) + buf
    {
      if buf == [] { return; }
      pending := if pending == [] then buf else pending + buf;
    }

    /** The loop of map_url_path: STDIN contents that arrive before the reply are kept. */
    method AwaitReply() returns (ok: bool, file: Bytes)
      modifies `inp, `pending, `ended
      ensures (if ok then Some(file) else None, State()) == Awaited(old(State()))
    {
      file := [];
      while true
        invariant Awaited(State()) == Awaited(old(State()))
        decreases |inp|
      {
        var kind, content;
        ok, kind, content := ReadPackage();
        if !ok { return; }
        if kind == MAP_PATH_RESULT {
          return true, content;
        }
        assert pending + [] == pending;
        if kind == STDIN && content != [] {
          PushReadData(content);
        }
      }
    }

    /** map_url_path: asks the peer for a file name. The body stays the same exactly if the
        STDIN contents that come before the reply are all of the body that does. */
    method MapUrlPath(url: Bytes) returns (ok: bool, file: Bytes)
      modifies this
      ensures output == old(output) + Chunks(MAP_PATH, url)
      ensures (if ok then Some(file) else None) == Reply(old(inp))
      ensures Replies(old(inp)) == (if ok then [file] else []) + Replies(inp) && (!ok ==> Replies(inp) == [])
      ensures (if ok then Some(file) else None, State()) == Awaited(old(State()))
      ensures Remaining() == old(pending) + (Early(old(inp)) + Behind(old(inp), old(ended)))
      ensures Remaining() == old(Remaining()) <==> Early(old(inp)) == Before(old(inp), old(ended))
      ensures ProperToReply(old(inp), old(ended)) ==> Remaining() == old(Remaining())
      ensures Remaining() == old(Remaining()) ==> Lost(old(inp), old(ended)) == Late(old(inp), old(ended))
      ensures Onward(old(State()), State())
    {
      WaitBalance(inp, ended);
      BodySplits(inp, ended);
      SameMiddle(pending, Early(inp), Before(inp, ended), Behind(inp, ended));
      AwaitedReply(State());
      AwaitedKeeps(State());
      AwaitedIsOnward(State());
      WriteData(MAP_PATH, url);
      ok, file := AwaitReply();
    }

    /** write_end: the empty data record, then the end of the request. */
    method WriteEnd(dataType: byte, close: bool)
      modifies `output
      ensures output == old(output) + Chunks(dataType, []) + Frame(if close then ABORT_REQUEST else END_REQUEST, [])
    {
      WriteData(dataType, []);
      output := output + Header(if close then ABORT_REQUEST else END_REQUEST, 0);
    }

    /** One call. */
    method Make(call: Call) returns (result: Result)
      modifies this
      ensures (result, State()) == Made(old(State()), call)
    {
      match call
      case ReadCall(len) =>
        var n, out := Read(len);
        result := Got(n, out);
      case MapCall(url) =>
        var ok, file := MapUrlPath(url);
        result := Mapped(if ok then Some(file) else None);
    }

    /** Any sequence of calls hands out a prefix of the body, in order and once: reads do so
        on every stream, map-path calls in between on every one that is properly sent. On a
        stream that is ready, a read gets bytes exactly while there are any, and if it is so
        strictly, 0 for good from then on. The files that map-path calls return are the
        replies of the stream, in order, up to those that a read has passed over. */
    method Run(calls: seq<Call>) returns (results: seq<Result>)
      modifies this
      ensures |results| == |calls| && forall k :: 0 <= k < |calls| ==> (results[k].Got? <==> calls[k].ReadCall?)
      ensures old(Proper(inp, ended)) || AllReads(calls) ==>
                && Delivered(results) + Remaining() == old(Remaining())
                && forall strict :: old(State()).Ready(strict) ==> Served(calls, results, old(Remaining()), strict)
      ensures Onward(old(State()), State())
      ensures Picked(Files(results) + Replies(inp), Replies(old(inp)))
      ensures AllMaps(calls) ==> Files(results) + Replies(inp) == Replies(old(inp))
    {
      results := [];
      ghost var start := State();
      for i := 0 to |calls|
        invariant State() == After(start, calls[..i]) && results == Results(start, calls[..i])
      {
        assert calls[..i + 1] == calls[..i] + [calls[i]];
        RunPush(start, calls[..i], calls[i]);
        var result := Make(calls[i]);
        results := results + [result];
      }
      assert calls[..|calls|] == calls;
      RunIsOnward(start, calls);
      RunShape(start, calls);
      RunReplies(start, calls);
      if Proper(start.inp, start.ended) || AllReads(calls) {
        RunConserves(start, calls);
        if start.Ready(true) { RunServes(start, calls, true); }
        if start.Ready(false) { RunServes(start, calls, false); }
      }
    }
  }

  /** A body byte in a STDOUT record is lost while a map-path call waits for its reply. */
  method MapUrlPathLosesBody() returns (st: Stream, before: Bytes)
    ensures before == [1] && st.Remaining() == []
  {
    var reply := Frame(MAP_PATH_RESULT, []);
    var inp := Frame(STDOUT, [1]) + reply;
    FrameIsNext(STDOUT, [1], reply);
    FrameIsNext(MAP_PATH_RESULT, [], []);
    assert reply + [] == reply;
    st := new Stream(inp);
    assert Owed(reply) == [] && Owed([]) == [];
    before := Owed(inp);
    var ok, file := st.MapUrlPath([]);
  }

  /** What a web server sends: body writes and other records, then the end. */
  function Sent(ws: seq<Record>): Bytes {
    if ws == [] then Chunks(STDIN, []) + Frame(END_REQUEST, [])
    else Chunks(ws[0].kind, ws[0].content) + Sent(ws[1..])
  }

  function Body(ws: seq<Record>): Bytes {
    if ws == [] then []
    else (if ws[0].kind == STDIN then ws[0].content else []) + Body(ws[1..])
  }

  ghost predicate ServerWrites(ws: seq<Record>) {
    forall w <- ws ::
      && w.kind != STDOUT && w.kind != END_REQUEST && w.kind != ABORT_REQUEST
      && (w.kind == STDIN ==> w.content != [])
  }

  lemma {:induction false} ChunksAreProper(kind: byte, buf: Bytes, rest: Bytes)
    requires kind != STDOUT && kind != END_REQUEST && kind != ABORT_REQUEST && (kind == STDIN ==> buf != [])
    requires Proper(rest, false) && BodyEndsFirst(rest) && Ordered(rest, false, true)
    ensures var b := Chunks(kind, buf) + rest; Proper(b, false) && BodyEndsFirst(b) && Ordered(b, false, true)
  {
    if |buf| <= MAX_CHUNK {
      FrameIsNext(kind, buf, rest);
    } else {
      var first, last := buf[..MAX_CHUNK], buf[MAX_CHUNK..];
      ChunksAreProper(kind, last, rest);
      FrameIsNext(kind, first, Chunks(kind, last) + rest);
      Assoc(Frame(kind, first), Chunks(kind, last), rest);
    }
  }

  lemma WriteInFront(w: Record, rest: Bytes)
    requires ServerWrites([w]) && Proper(rest, false) && BodyEndsFirst(rest) && Ordered(rest, false, true)
    ensures var b := Chunks(w.kind, w.content) + rest;
            && Owed(b) == (if w.kind == STDIN then w.content + Owed(rest) else Owed(rest))
            && Proper(b, false) && BodyEndsFirst(b) && Ordered(b, false, true)
  {
    assert w in [w];
    ChunksAreOwed(w.kind, w.content, rest);
    ChunksAreProper(w.kind, w.content, rest);
  }

  lemma EndIsProper()
    ensures var b := Sent([]); Owed(b) == [] && Proper(b, false) && BodyEndsFirst(b) && Ordered(b, false, true)
  {
    var last := Frame(END_REQUEST, []);
    FrameIsNext(STDIN, [], last);
    FrameIsNext(END_REQUEST, [], []);
    assert last + [] == last;
    assert Proper([], true);
  }

  /** A reader of such a stream has exactly the written body in front of it, so Read and
      Run deliver it for every split into writes, records and reads. */
  lemma {:induction false} SentBodyIsOwed(ws: seq<Record>)
    requires ServerWrites(ws)
    ensures Owed(Sent(ws)) == Body(ws)
    ensures Proper(Sent(ws), false) && BodyEndsFirst(Sent(ws)) && Ordered(Sent(ws), false, true)
  {
    if ws == [] {
      EndIsProper();
    } else {
      assert ws[0] in ws && forall w <- ws[1..] :: w in ws;
      SentBodyIsOwed(ws[1..]);
      WriteInFront(ws[0], Sent(ws[1..]));
      assert [] + Body(ws[1..]) == Body(ws[1..]);
    }
  }
}
