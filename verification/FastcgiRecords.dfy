/** FastCGI records over a byte stream, and the body that a stream of them carries. */
module FastcgiRecords {
  import opened Wire

  const ABORT_REQUEST: byte := 2
  const END_REQUEST: byte := 3
  const PARAMS: byte := 4
  const STDIN: byte := 5
  const STDOUT: byte := 6
  const MAP_PATH: byte := 108
  const MAP_PATH_RESULT: byte := 154

  const HEADER_LEN := 8
  const MAX_CHUNK := 32767

  datatype Record = Record(kind: byte, content: Bytes)

  /** A header as sendRecordHeader writes it: version 1, request 1, no padding. */
  function Header(kind: byte, len: nat): Bytes
    requires len <= 65535
  {
    [1, kind, 0, 1, (len / 256) as byte, (len % 256) as byte, 0, 0]
  }

  function Frame(kind: byte, content: Bytes): Bytes
    requires |content| <= 65535
  {
    Header(kind, |content|) + content
  }

  function ContentLength(header: Bytes): nat
    requires |header| >= HEADER_LEN
  {
    header[4] as nat * 256 + header[5] as nat
  }

  /** A header as section 3.3 of the FastCGI Specification lays it out: the version, the type,
      the request and the length in network order, and the padding. */
  lemma HeaderOnTheWire(kind: byte, len: nat)
    requires len <= 65535
    ensures var h := Header(kind, len);
            && |h| == 8 && h[0] == 1 && h[1] == kind && Number(h[2..4]) == 1
            && Number(h[4..6]) == len == ContentLength(h) && h[6] == 0
  {
    var h := Header(kind, len);
    LengthOnTheWire(h);
    assert h[2..4] == [0, 1];
    NumberOfTwo(0, 1);
  }

  lemma LengthOnTheWire(header: Bytes)
    requires |header| >= HEADER_LEN
    ensures ContentLength(header) == Number(header[4..6])
  {
    assert header[4..6] == [header[4], header[5]];
    NumberOfTwo(header[4], header[5]);
  }

  /** The first record of a byte stream and what follows it, if it is complete. */
  function Next(b: Bytes): Option<(Record, Bytes)> {
    if |b| < HEADER_LEN then None
    else
      var end := HEADER_LEN + ContentLength(b);
      if |b| < end + b[6] as nat then None
      else Some((Record(b[1], b[HEADER_LEN..end]), b[end + b[6] as nat..]))
  }

  predicate IsData(kind: byte) { kind == STDIN || kind == STDOUT }

  /** An empty data record ends the body. */
  predicate EndsBody(r: Record) { IsData(r.kind) && r.content == [] }

  /** The body that a byte stream still carries: the contents of its data records up to the
      first empty one. */
  function Owed(b: Bytes): Bytes
    decreases |b|
  {
    match Next(b)
    case None => []
    case Some((r, rest)) =>
      if EndsBody(r) then []
      else if IsData(r.kind) then r.content + Owed(rest)
      else Owed(rest)
  }

  ghost function BodyAt(b: Bytes, ended: bool): Bytes { if ended then [] else Owed(b) }

  /** A stream is properly sent when the body is in STDIN records and nothing of it comes
      after its end. */
  ghost predicate Proper(b: Bytes, ended: bool)
    decreases |b|
  {
    match Next(b)
    case None => true
    case Some((r, rest)) =>
      && (IsData(r.kind) && r.content != [] ==> r.kind == STDIN && !ended)
      && Proper(rest, ended || EndsBody(r))
  }

  lemma FrameIsNext(kind: byte, content: Bytes, rest: Bytes)
    requires |content| <= 65535
    ensures Next(Frame(kind, content) + rest) == Some((Record(kind, content), rest))
  {
    var b := Frame(kind, content) + rest;
    assert b[4] == Header(kind, |content|)[4] && b[5] == Header(kind, |content|)[5];
    assert ContentLength(b) == |content|;
    assert b[HEADER_LEN..HEADER_LEN + |content|] == content;
    assert b[HEADER_LEN + |content|..] == rest;
  }

  /** The complete records of a byte stream. */
  ghost function Records(b: Bytes): seq<Record>
    decreases |b|
  {
    match Next(b)
    case None => []
    case Some((r, rest)) => [r] + Records(rest)
  }

  ghost predicate Fit(rs: seq<Record>) { forall r <- rs :: |r.content| <= 65535 }

  /** Records as they are sent. */
  ghost function Frames(rs: seq<Record>): Bytes
    requires Fit(rs)
  {
    if rs == [] then []
    else
      assert rs[0] in rs && forall r <- rs[1..] :: r in rs;
      Frame(rs[0].kind, rs[0].content) + Frames(rs[1..])
  }

  /** The records of a stream are those that were sent. */
  lemma {:induction false} FramesAreRecords(rs: seq<Record>, rest: Bytes)
    requires Fit(rs)
    ensures Records(Frames(rs) + rest) == rs + Records(rest)
  {
    if rs == [] {
      assert Frames(rs) + rest == rest;
    } else {
      var r, more := rs[0], rs[1..];
      assert r in rs && forall x <- more :: x in rs;
      FramesAreRecords(more, rest);
      Assoc(Frame(r.kind, r.content), Frames(more), rest);
      FrameIsNext(r.kind, r.content, Frames(more) + rest);
      Assoc([r], more, Records(rest));
      assert [r] + more == rs;
    }
  }

  /** The contents of the map-path replies among records. */
  ghost function RepliesIn(rs: seq<Record>): seq<Bytes> {
    if rs == [] then []
    else (if rs[0].kind == MAP_PATH_RESULT then [rs[0].content] else []) + RepliesIn(rs[1..])
  }

  ghost function Replies(b: Bytes): seq<Bytes> { RepliesIn(Records(b)) }

  lemma RepliesStep(b: Bytes)
    ensures
      match Next(b)
      case None => Replies(b) == []
      case Some((r, rest)) =>
        Replies(b) == (if r.kind == MAP_PATH_RESULT then [r.content] else []) + Replies(rest)
  {
    if Next(b).Some? { assert ([Next(b).value.0] + Records(Next(b).value.1))[1..] == Records(Next(b).value.1); }
  }

  lemma {:induction false} NoReplies(rs: seq<Record>)
    requires forall r <- rs :: r.kind != MAP_PATH_RESULT
    ensures RepliesIn(rs) == []
  {
    if rs != [] {
      assert rs[0] in rs && forall r <- rs[1..] :: r in rs;
      NoReplies(rs[1..]);
    }
  }

  lemma {:induction false} RepliesAppend(a: seq<Record>, b: seq<Record>)
    ensures RepliesIn(a + b) == RepliesIn(a) + RepliesIn(b)
  {
    if a == [] {
      assert a + b == b;
    } else {
      assert (a + b)[1..] == a[1..] + b;
      RepliesAppend(a[1..], b);
      Assoc(if a[0].kind == MAP_PATH_RESULT then [a[0].content] else [], RepliesIn(a[1..]), RepliesIn(b));
    }
  }

  /** What write_data sends: one empty record, or chunks of at most 32767 bytes. */
  function Chunks(kind: byte, buf: Bytes): Bytes {
    if |buf| <= MAX_CHUNK then Frame(kind, buf)
    else Frame(kind, buf[..MAX_CHUNK]) + Chunks(kind, buf[MAX_CHUNK..])
  }

  function Rest(kind: byte, left: Bytes): Bytes {
    if left == [] then [] else Chunks(kind, left)
  }

  lemma RestStep(kind: byte, left: Bytes, n: nat)
    requires left != [] && n == if |left| < MAX_CHUNK then |left| else MAX_CHUNK
    ensures Rest(kind, left) == Frame(kind, left[..n]) + Rest(kind, left[n..])
  {
    if |left| <= MAX_CHUNK {
      assert left[..n] == left && left[n..] == [];
    }
  }

  /** One record in front of a stream. */
  lemma OwedFrame(kind: byte, content: Bytes, rest: Bytes)
    requires |content| <= 65535
    ensures Owed(Frame(kind, content) + rest) ==
      if !IsData(kind) then Owed(rest) else if content == [] then [] else content + Owed(rest)
  {
    FrameIsNext(kind, content, rest);
  }

  /** The writer puts exactly its body in front of what is owed, and no other record
      changes what is owed. */
  lemma {:induction false} ChunksAreOwed(kind: byte, buf: Bytes, rest: Bytes)
    requires IsData(kind) ==> buf != []
    ensures Owed(Chunks(kind, buf) + rest) == if IsData(kind) then buf + Owed(rest) else Owed(rest)
  {
    if |buf| <= MAX_CHUNK {
      OwedFrame(kind, buf, rest);
    } else {
      var first, last := buf[..MAX_CHUNK], buf[MAX_CHUNK..];
      ChunksAreOwed(kind, last, rest);
      OwedFrame(kind, first, Chunks(kind, last) + rest);
      Assoc(Frame(kind, first), Chunks(kind, last), rest);
      Assoc(first, last, Owed(rest));
      assert first + last == buf;
    }
  }
}
