/** AJP/1.3 packets: the bounded builder that fails for good, the packet parser that
    resumes in the middle of a packet, and the getters. */
module Ajp {
  import opened Wire

  const AJP_PACKAGE := 8192
  const MAX_BODY := AJP_PACKAGE - 4

  datatype Item = ByteItem(b: byte) | ShortItem(n: nat) | IntItem(n: nat) | StringItem(s: Bytes)

  ghost predicate WellTyped(i: Item) {
    (i.ShortItem? ==> i.n < 0x10000) && (i.IntItem? ==> i.n < 0x1_0000_0000)
  }

  function Short(n: nat): Bytes { [((n / 0x100) % 0x100) as byte, (n % 0x100) as byte] }

  function Enc(i: Item): Bytes {
    match i
    case ByteItem(b) => [b]
    case ShortItem(n) => Short(n)
    case IntItem(n) => Short(n / 0x10000) + Short(n)
    case StringItem(s) => Short(|s|) + s + [0]
  }

  function EncAll(items: seq<Item>): Bytes {
    if items == [] then [] else EncAll(items[..|items| - 1]) + Enc(items[|items| - 1])
  }

  function Packet(body: Bytes): Bytes { [0x12, 0x34] + Short(|body|) + body }

  class Message {
    const buf: array<byte>
    var pos: int
    var valid: bool
    var sent: Bytes  // what was written to the stream

    ghost predicate Valid() reads this {
      buf.Length == AJP_PACKAGE && 4 <= pos <= AJP_PACKAGE
    }

    /** The body of the packet under construction. */
    ghost function Body(): Bytes reads this, buf requires Valid() { buf[4..pos] }

    constructor ()
      ensures Valid() && valid && Body() == [] && sent == [] && fresh(buf)
    {
      buf := new byte[AJP_PACKAGE];
      pos, valid, sent := 4, true, [];
    }

    predicate CheckSend(len: int) reads this {
      valid && len >= 0 && len <= AJP_PACKAGE - 4 && pos <= AJP_PACKAGE - len
    }

    /** buf[pos++] = b, for each byte of s. */
    method Append(s: Bytes)
      requires Valid() && pos + |s| <= AJP_PACKAGE
      modifies `pos, buf
      ensures Valid() && Body() == old(Body()) + s
    {
      for i := 0 to |s|
        invariant Valid() && pos == old(pos) + i
        invariant buf[4..pos] == old(buf[4..pos]) + s[..i]
      {
        buf[pos] := s[i];
        pos := pos + 1;
        assert buf[4..pos] == buf[4..pos - 1] + [s[i]];
      }
      assert s[..|s|] == s;
    }

    /** putByte, putShort, putInt and putString: an item that does not fit, or that comes
        after one that did not, is dropped and spoils the message. */
    method Put(i: Item) returns (ok: bool)
      requires Valid()
      modifies `pos, `valid, buf
      ensures Valid() && ok == valid
      ensures ok == (old(valid) && |old(Body())| + |Enc(i)| <= MAX_BODY)
      ensures Body() == old(Body()) + if ok then Enc(i) else []
    {
      match i {
        case ByteItem(b) => ok := CheckSend(1);
        case ShortItem(n) => ok := CheckSend(2);
        case IntItem(n) => ok := CheckSend(4);
        case StringItem(s) => ok := |s| < 0xffff && CheckSend(|s| + 3);
      }
      if !ok {
        valid := false;
        return;
      }
      Append(Enc(i));
    }

    /** end: a sound message goes out as one packet, a spoilt or empty one not at all. */
    method End() returns (ok: bool)
      requires Valid()
      modifies `pos, `sent, buf
      ensures Valid() && ok == valid
      ensures sent == old(sent) + if ok && old(Body()) != [] then Packet(old(Body())) else []
      ensures Body() == if ok then [] else old(Body())
    {
      if !valid { return false; }
      if pos > 4 {
        var len := pos - 4;
        buf[0], buf[1] := 0x12, 0x34;
        buf[2], buf[3] := ((len / 0x100) % 0x100) as byte, (len % 0x100) as byte;
        assert buf[..pos] == buf[..4] + buf[4..pos];
        assert buf[..4] == [0x12, 0x34] + Short(len);
        sent := sent + buf[..pos];
        pos := 4;
      }
      return true;
    }

    /** A whole message: it is sent exactly when all of it fits one packet. */
    method Send(items: seq<Item>) returns (ok: bool)
      requires Valid() && valid && Body() == []
      modifies `pos, `valid, `sent, buf
      ensures Valid() && ok == valid == (|EncAll(items)| <= MAX_BODY) && (ok ==> Body() == [])
      ensures sent == old(sent) + if ok && EncAll(items) != [] then Packet(EncAll(items)) else []
    {
      for i := 0 to |items|
        invariant Valid() && sent == old(sent)
        invariant valid == (|EncAll(items[..i])| <= MAX_BODY)
        invariant valid ==> Body() == EncAll(items[..i])
      {
        assert items[..i + 1][..i] == items[..i];
        var put := Put(items[i]);
      }
      assert items[..|items|] == items;
      ok := End();
    }

    /** Messages built one after the other, up to the first that spoils the builder. */
    method SendAll(messages: seq<seq<Item>>)
      requires Valid() && valid && Body() == []
      modifies `pos, `valid, `sent, buf
      ensures Valid() && sent == old(sent) + Packets(Sendable(messages))
    {
      var i := 0;
      assert messages[0..] == messages;
      while i < |messages| && valid
        invariant i <= |messages| && Valid() && (valid ==> Body() == [])
        invariant old(sent) + Packets(Sendable(messages)) ==
                  if valid then sent + Packets(Sendable(messages[i..])) else sent
      {
        SendStep(messages, i, sent);
        var ok := Send(messages[i]);
        i := i + 1;
      }
      assert valid ==> sent + [] == sent;
    }
  }

  /** The messages that leave the builder: those before the first that does not fit a
      packet, without the empty ones. */
  ghost function Sendable(messages: seq<seq<Item>>): (r: seq<seq<Item>>) {
    if messages == [] || |EncAll(messages[0])| > MAX_BODY then []
    else if EncAll(messages[0]) == [] then Sendable(messages[1..])
    else [messages[0]] + Sendable(messages[1..])
  }

  ghost function Packets(messages: seq<seq<Item>>): Bytes {
    if messages == [] then [] else Packet(EncAll(messages[0])) + Packets(messages[1..])
  }

  lemma SendStep(messages: seq<seq<Item>>, i: nat, sent: Bytes)
    requires i < |messages|
    ensures var body := EncAll(messages[i]);
            sent + Packets(Sendable(messages[i..])) ==
            if |body| > MAX_BODY then sent + []
            else (sent + if body != [] then Packet(body) else []) + Packets(Sendable(messages[i + 1..]))
  {
    var rest := messages[i..];
    assert rest[1..] == messages[i + 1..];
    var body, more := EncAll(rest[0]), Sendable(rest[1..]);
    if 0 < |body| <= MAX_BODY {
      assert ([rest[0]] + more)[1..] == more;
      Assoc(sent, Packet(body), Packets(more));
    } else {
      assert sent + [] == sent;
    }
  }

  /** What a stream starts with: a whole packet, the start of one, or no packet. */
  datatype First = Whole(body: Bytes, rest: Bytes) | Partial | Bad

  function FirstOf(b: Bytes): First {
    if |b| < 4 then Partial
    else if !((b[0] == 0x41 && b[1] == 0x42) || (b[0] == 0x12 && b[1] == 0x34)) then Bad
    else
      var n := b[2] as nat * 0x100 + b[3] as nat;
      if n > MAX_BODY then Bad
      else if |b| - 4 < n then Partial
      else Whole(b[4..4 + n], b[4 + n..])
  }

  /** The bodies of the complete packets of a stream, and what follows them. */
  function Msgs(b: Bytes): seq<Bytes>
    decreases |b|
  {
    match FirstOf(b)
    case Whole(m, rest) => [m] + Msgs(rest)
    case _ => []
  }

  function Left(b: Bytes): (r: Bytes)
    ensures !FirstOf(r).Whole?
    decreases |b|
  {
    match FirstOf(b)
    case Whole(m, rest) => Left(rest)
    case _ => b
  }

  lemma FirstAppend(a: Bytes, b: Bytes)
    ensures FirstOf(a).Whole? ==> FirstOf(a + b) == Whole(FirstOf(a).body, FirstOf(a).rest + b)
    ensures FirstOf(a).Bad? ==> FirstOf(a + b).Bad?
  {
    if |a| >= 4 {
      assert forall i | 0 <= i < 4 :: (a + b)[i] == a[i];
      if FirstOf(a).Whole? {
        var n := |FirstOf(a).body|;
        assert (a + b)[4..4 + n] == a[4..4 + n] && (a + b)[4 + n..] == a[4 + n..] + b;
      }
    }
  }

  lemma MsgsStep(b: Bytes)
    ensures var first := FirstOf(b);
            if first.Whole? then Msgs(b) == [first.body] + Msgs(first.rest) && Left(b) == Left(first.rest)
            else Msgs(b) == [] && Left(b) == b
  {
  }

  /** More bytes only continue from what was left over. */
  lemma {:induction false} MsgsAppend(a: Bytes, b: Bytes)
    ensures Msgs(a + b) == Msgs(a) + Msgs(Left(a) + b)
    ensures Left(a + b) == Left(Left(a) + b)
    ensures FirstOf(Left(a)).Bad? ==> FirstOf(Left(a + b)).Bad? && Msgs(a + b) == Msgs(a)
    decreases |a|
  {
    FirstAppend(a, b);
    MsgsStep(a);
    MsgsStep(a + b);
    if FirstOf(a).Whole? {
      var m, rest := FirstOf(a).body, FirstOf(a).rest;
      MsgsAppend(rest, b);
      Assoc([m], Msgs(rest), Msgs(Left(rest) + b));
    }
  }

  /** A packet of End is read back whole. */
  lemma PacketRoundTrip(body: Bytes, rest: Bytes)
    requires |body| <= MAX_BODY
    ensures FirstOf(Packet(body) + rest) == Whole(body, rest)
    ensures Msgs(Packet(body) + rest) == [body] + Msgs(rest)
  {
    var b := Packet(body) + rest;
    assert b[0] == 0x12 && b[1] == 0x34 && b[2] == Short(|body|)[0] && b[3] == Short(|body|)[1];
    assert b[4..4 + |body|] == body && b[4 + |body|..] == rest;
  }

  datatype ParseResult = Continue | Success(msg: Bytes) | Error

  class Parser {
    var bodyLen: nat      // length of the packet whose header was consumed, or 0
    var buffer: Bytes     // received and not consumed
    ghost var taken: Bytes  // that header

    ghost predicate Valid() reads this {
      if bodyLen == 0 then taken == []
      else Header(taken, bodyLen)
    }

    /** The unread stream, with the header put back. */
    ghost function Unread(): Bytes reads this { taken + buffer }

    constructor ()
      ensures Valid() && Unread() == []
    {
      bodyLen, buffer, taken := 0, [], [];
    }

    /** parse: consumes a header as soon as it is there and a body when it is complete. */
    method Parse() returns (r: ParseResult)
      requires Valid()
      modifies this
      ensures r.Error? || Valid()
      ensures match FirstOf(old(Unread()))
              case Whole(m, rest) => r == Success(m) && Unread() == rest
              case Partial => r == Continue && Unread() == old(Unread())
              case Bad => r == Error
    {
      if bodyLen == 0 {
        if |buffer| < 4 { return Continue; }
        if !((buffer[0] == 0x41 && buffer[1] == 0x42) || (buffer[0] == 0x12 && buffer[1] == 0x34)) {
          return Error;
        }
        bodyLen := buffer[2] as nat * 0x100 + buffer[3] as nat;
        if bodyLen > MAX_BODY { return Error; }
        taken, buffer := buffer[..4], buffer[4..];
        assert taken + buffer == old(buffer) == [] + old(buffer);
      }
      HeaderFirst(taken, bodyLen, buffer);
      assert old(Unread()) == taken + buffer;
      if |buffer| < bodyLen { return Continue; }
      r := Success(buffer[..bodyLen]);
      buffer := buffer[bodyLen..];
      bodyLen, taken := 0, [];
      assert taken + buffer == buffer;
    }

    /** The loop of ParseBody over one read: all packets completed by it. */
    method Feed(chunk: Bytes) returns (msgs: seq<Bytes>, bad: bool)
      requires Valid()
      modifies this
      ensures msgs == Msgs(old(Unread()) + chunk)
      ensures bad == FirstOf(Left(old(Unread()) + chunk)).Bad?
      ensures !bad ==> Valid() && Unread() == Left(old(Unread()) + chunk)
    {
      ghost var all := old(Unread()) + chunk;
      buffer := buffer + chunk;
      Assoc(taken, old(buffer), chunk);
      msgs := [];
      while |buffer| > 0
        invariant Valid() && Msgs(all) == msgs + Msgs(Unread()) && Left(all) == Left(Unread())
        decreases |buffer|
      {
        var r := Parse();
        match r
        case Continue => return msgs, false;
        case Error => return msgs, true;
        case Success(m) =>
          Assoc(msgs, [m], Msgs(Unread()));
          msgs := msgs + [m];
      }
      if bodyLen > 0 { HeaderFirst(taken, bodyLen, []); }
      return msgs, false;
    }

    /** However a stream is cut into reads, its packets come out once each, in order,
        until something that is no packet stops the parser. */
    method Run(chunks: seq<Bytes>) returns (msgs: seq<Bytes>, bad: bool)
      requires Valid() && Unread() == []
      modifies this
      ensures msgs == Msgs(Flatten(chunks))
      ensures bad == FirstOf(Left(Flatten(chunks))).Bad?
    {
      msgs, bad := [], false;
      for i := 0 to |chunks|
        invariant Valid() && !bad && !FirstOf(Unread()).Bad?
        invariant msgs == Msgs(Flatten(chunks[..i])) && Unread() == Left(Flatten(chunks[..i]))
      {
        var more;
        RunStep(chunks, i);
        more, bad := Feed(chunks[i]);
        msgs := msgs + more;
        if bad {
          BadIsLast(chunks, i + 1);
          return;
        }
      }
      assert chunks[..|chunks|] == chunks;
    }
  }

  function Flatten(chunks: seq<Bytes>): Bytes {
    if chunks == [] then [] else chunks[0] + Flatten(chunks[1..])
  }

  lemma {:induction false} FlattenAppend(a: seq<Bytes>, b: seq<Bytes>)
    ensures Flatten(a + b) == Flatten(a) + Flatten(b)
  {
    if a == [] {
      assert a + b == b;
    } else {
      assert (a + b)[1..] == a[1..] + b;
      FlattenAppend(a[1..], b);
      Assoc(a[0], Flatten(a[1..]), Flatten(b));
    }
  }

  /** One read more. */
  lemma RunStep(chunks: seq<Bytes>, i: nat)
    requires i < |chunks|
    ensures var left := Left(Flatten(chunks[..i])) + chunks[i];
            && Msgs(Flatten(chunks[..i + 1])) == Msgs(Flatten(chunks[..i])) + Msgs(left)
            && Left(Flatten(chunks[..i + 1])) == Left(left)
  {
    FlattenStep(chunks, i);
    MsgsAppend(Flatten(chunks[..i]), chunks[i]);
  }

  /** Nothing is read behind something that is no packet. */
  lemma BadIsLast(chunks: seq<Bytes>, i: nat)
    requires i <= |chunks| && FirstOf(Left(Flatten(chunks[..i]))).Bad?
    ensures Msgs(Flatten(chunks)) == Msgs(Flatten(chunks[..i])) && FirstOf(Left(Flatten(chunks))).Bad?
  {
    assert chunks == chunks[..i] + chunks[i..];
    FlattenAppend(chunks[..i], chunks[i..]);
    MsgsAppend(Flatten(chunks[..i]), Flatten(chunks[i..]));
  }

  lemma FlattenStep(chunks: seq<Bytes>, i: nat)
    requires i < |chunks|
    ensures Flatten(chunks[..i + 1]) == Flatten(chunks[..i]) + chunks[i]
  {
    assert chunks[..i + 1] == chunks[..i] + [chunks[i]];
    FlattenAppend(chunks[..i], [chunks[i]]);
    assert Flatten([chunks[i]]) == chunks[i] + [];
  }

  /** What follows a good header with body length n. */
  function Body(b: Bytes, n: nat): First {
    if |b| < n then Partial else Whole(b[..n], b[n..])
  }

  /** A packet header that announces n bytes. */
  ghost predicate Header(h: Bytes, n: nat) {
    && |h| == 4 && ((h[0] == 0x41 && h[1] == 0x42) || (h[0] == 0x12 && h[1] == 0x34))
    && n == h[2] as nat * 0x100 + h[3] as nat <= MAX_BODY
  }

  lemma HeaderFirst(h: Bytes, n: nat, b: Bytes)
    requires Header(h, n)
    ensures FirstOf(h + b) == Body(b, n)
  {
    var s := h + b;
    assert s[0] == h[0] && s[1] == h[1] && s[2] == h[2] && s[3] == h[3];
    if n <= |b| {
      assert s[4..4 + n] == b[..n];
      assert s[4 + n..] == b[n..];
    }
  }

  /** A container's reader: it takes packets of a web server only, with their length in
      network order. */
  ghost function ContainerReads(b: Bytes): Option<(Bytes, Bytes)> {
    if |b| < 4 || b[..2] != [0x12, 0x34] || |b| - 4 < Number(b[2..4]) then None
    else Some((b[4..4 + Number(b[2..4])], b[4 + Number(b[2..4])..]))
  }

  /** What the builder sends is a packet for a container. */
  lemma ContainerGetsPacket(body: Bytes, rest: Bytes)
    requires |body| < 0x10000
    ensures ContainerReads(Packet(body) + rest) == Some((body, rest))
  {
    var b, n := Packet(body) + rest, |body|;
    assert b[..2] == [0x12, 0x34] && b[2..4] == Short(n) && b[4..] == body + rest;
    ShortIsNumber(n);
    assert b[4..4 + n] == body && b[4 + n..] == rest;
  }

  /** The bodies that a container reads from a stream. */
  ghost function ContainerBodies(b: Bytes): seq<Bytes>
    decreases |b|
  {
    match ContainerReads(b)
    case None => []
    case Some((body, rest)) => [body] + ContainerBodies(rest)
  }

  lemma {:induction false} ContainerGetsAll(messages: seq<seq<Item>>)
    requires forall m <- messages :: |EncAll(m)| <= MAX_BODY
    ensures |ContainerBodies(Packets(messages))| == |messages|
    ensures forall k :: 0 <= k < |messages| ==> ContainerBodies(Packets(messages))[k] == EncAll(messages[k])
  {
    if messages != [] {
      assert messages[0] in messages && forall m <- messages[1..] :: m in messages;
      ContainerGetsAll(messages[1..]);
      ContainerGetsPacket(EncAll(messages[0]), Packets(messages[1..]));
      var more := ContainerBodies(Packets(messages[1..]));
      assert ContainerBodies(Packets(messages)) == [EncAll(messages[0])] + more;
      forall k | 0 < k < |messages|
        ensures ([EncAll(messages[0])] + more)[k] == EncAll(messages[k])
      {
        assert messages[1..][k - 1] == messages[k];
      }
    }
  }

  /** ... and what a container sends is read by the parser. */
  lemma ContainerPacketIsRead(body: Bytes, rest: Bytes)
    requires |body| <= MAX_BODY
    ensures FirstOf([0x41, 0x42] + Short(|body|) + body + rest) == Whole(body, rest)
  {
    var b, n := [0x41, 0x42] + Short(|body|) + body + rest, |body|;
    assert b[0] == 0x41 && b[1] == 0x42 && b[2] == Short(n)[0] && b[3] == Short(n)[1];
    assert b[4..4 + n] == body && b[4 + n..] == rest;
  }

  lemma ShortIsNumber(n: nat)
    ensures |Short(n)| == 2 && Number(Short(n)) == n % 0x10000
  {
    NumberOfTwo(Short(n)[0], Short(n)[1]);
    ShortValue(n);
    assert Short(n) == [Short(n)[0], Short(n)[1]];
  }

  /** The items as AJP/1.3 lays them out: numbers in network order, strings behind their
      length and in front of a NUL. */
  lemma ItemsOnTheWire(i: Item)
    requires WellTyped(i) && (i.StringItem? ==> |i.s| < 0xffff)
    ensures match i
            case ByteItem(b) => Enc(i) == [b]
            case ShortItem(n) => |Enc(i)| == 2 && Number(Enc(i)) == n
            case IntItem(n) => |Enc(i)| == 4 && Number(Enc(i)) == n
            case StringItem(s) => |Enc(i)| == |s| + 3 && Number(Enc(i)[..2]) == |s| && Enc(i)[2..] == s + [0]
  {
    match i
    case ByteItem(b) =>
    case ShortItem(n) => ShortIsNumber(n);
    case IntItem(n) => IntIsNumber(n);
    case StringItem(s) =>
      ShortIsNumber(|s|);
      Assoc(Short(|s|), s, [0]);
      assert Enc(i)[..2] == Short(|s|) && Enc(i)[2..] == s + [0];
  }

  lemma IntIsNumber(n: nat)
    requires n < 0x1_0000_0000
    ensures |Enc(IntItem(n))| == 4 && Number(Enc(IntItem(n))) == n
  {
    var hi, lo := Short(n / 0x10000), Short(n);
    var e := Enc(IntItem(n));
    assert e == [hi[0], hi[1], lo[0], lo[1]];
    NumberOfFour(hi[0], hi[1], lo[0], lo[1]);
    ShortValue(n / 0x10000);
    ShortValue(n);
  }

  /** The getters on what is left of a message: the value and the position after it. */
  function GetByte(b: Bytes): Option<(byte, Bytes)> {
    if |b| < 1 then None else Some((b[0], b[1..]))
  }

  function GetShort(b: Bytes): Option<(nat, Bytes)> {
    if |b| < 2 then None else Some((b[0] as nat * 0x100 + b[1] as nat, b[2..]))
  }

  function GetString(b: Bytes): Option<(Bytes, Bytes)> {
    match GetShort(b)
    case None => None
    case Some((n, rest)) =>
      if n == 0xffff || |rest| < n + 1 || rest[n] != 0 then None
      else Some((rest[..n], rest[n + 1..]))
  }

  class MessageParser {
    const buf: Bytes
    var pos: nat

    ghost predicate Valid() reads this { pos <= |buf| }
    ghost function Rest(): Bytes reads this requires Valid() { buf[pos..] }

    constructor (msg: Bytes)
      ensures Valid() && Rest() == msg
    {
      buf, pos := msg, 0;
    }

    method TakeByte() returns (ok: bool, v: byte)
      requires Valid()
      modifies this
      ensures Valid()
      ensures GetByte(old(Rest())) == if ok then Some((v, Rest())) else None
      ensures !ok ==> pos == old(pos)
    {
      if |buf| - pos <= 0 { return false, 0; }
      ok, v, pos := true, buf[pos], pos + 1;
    }

    method TakeShort() returns (ok: bool, v: nat)
      requires Valid()
      modifies this
      ensures Valid()
      ensures GetShort(old(Rest())) == if ok then Some((v, Rest())) else None
      ensures !ok ==> pos == old(pos)
    {
      if |buf| - pos < 2 { return false, 0; }
      ok, v, pos := true, buf[pos] as nat * 0x100 + buf[pos + 1] as nat, pos + 2;
    }

    method TakeString() returns (ok: bool, v: Bytes)
      requires Valid()
      modifies this
      ensures Valid()
      ensures GetString(old(Rest())) == if ok then Some((v, Rest())) else None
    {
      var n;
      v := [];
      ok, n := TakeShort();
      if !ok { return; }
      if n == 0xffff || |buf| - pos < n + 1 || buf[pos + n] != 0 { return false, []; }
      v := buf[pos..pos + n];
      assert Rest()[..n] == v && Rest()[n + 1..] == buf[pos + n + 1..];
      pos := pos + n + 1;
    }
  }

  /** Reads an item of the same kind as like; an int is read as two shorts. */
  function Get(like: Item, b: Bytes): Option<(Item, Bytes)> {
    match like
    case ByteItem(_) =>
      (match GetByte(b) case None => None case Some((v, rest)) => Some((ByteItem(v), rest)))
    case ShortItem(_) =>
      (match GetShort(b) case None => None case Some((n, rest)) => Some((ShortItem(n), rest)))
    case IntItem(_) =>
      (match GetShort(b)
       case None => None
       case Some((hi, b1)) =>
         match GetShort(b1)
         case None => None
         case Some((lo, rest)) => Some((IntItem(hi * 0x10000 + lo), rest)))
    case StringItem(_) =>
      (match GetString(b) case None => None case Some((s, rest)) => Some((StringItem(s), rest)))
  }

  function GetAll(likes: seq<Item>, b: Bytes): Option<(seq<Item>, Bytes)> {
    if likes == [] then Some(([], b))
    else
      match Get(likes[0], b)
      case None => None
      case Some((i, b1)) =>
        match GetAll(likes[1..], b1)
        case None => None
        case Some((more, rest)) => Some(([i] + more, rest))
  }

  lemma ShortRoundTrip(n: nat, rest: Bytes)
    ensures GetShort(Short(n) + rest) == Some((n % 0x10000, rest))
  {
    var b := Short(n) + rest;
    ShortValue(n);
    assert b[0] == Short(n)[0] && b[1] == Short(n)[1] && b[2..] == rest;
  }

  lemma ShortValue(n: nat)
    ensures ((n / 0x100) % 0x100) * 0x100 + n % 0x100 == n % 0x10000
  {
  }

  lemma StringRoundTrip(s: Bytes, rest: Bytes)
    requires |s| < 0xffff
    ensures GetString(Enc(StringItem(s)) + rest) == Some((s, rest))
  {
    var tail := s + ([0] + rest);
    Assoc(Short(|s|) + s, [0], rest);
    Assoc(Short(|s|), s, [0] + rest);
    ShortRoundTrip(|s|, tail);
    Cut(s, [0] + rest);
    StringAfter(Short(|s|) + tail, |s|, tail);
    assert ([0] + rest)[1..] == rest;
  }

  lemma StringAfter(b: Bytes, n: nat, tail: Bytes)
    requires GetShort(b) == Some((n, tail)) && n < 0xffff && n < |tail| && tail[n] == 0
    ensures GetString(b) == Some((tail[..n], tail[n + 1..]))
  {
  }

  /** Cutting a concatenation where it was joined. */
  lemma Cut(a: Bytes, b: Bytes)
    requires b != []
    ensures (a + b)[..|a|] == a && (a + b)[|a|] == b[0] && (a + b)[|a| + 1..] == b[1..]
  {
  }

  lemma IntRoundTrip(n: nat, rest: Bytes)
    requires n < 0x1_0000_0000
    ensures Get(IntItem(n), Enc(IntItem(n)) + rest) == Some((IntItem(n), rest))
  {
    Assoc(Short(n / 0x10000), Short(n), rest);
    ShortRoundTrip(n / 0x10000, Short(n) + rest);
    ShortRoundTrip(n, rest);
  }

  /** A getter returns what the matching put wrote and stops right behind it. */
  lemma GetPut(i: Item, rest: Bytes)
    requires WellTyped(i) && (i.StringItem? ==> |i.s| < 0xffff)
    ensures Get(i, Enc(i) + rest) == Some((i, rest))
  {
    match i
    case ByteItem(b) => assert ([b] + rest)[1..] == rest;
    case ShortItem(n) => ShortRoundTrip(n, rest);
    case IntItem(n) => IntRoundTrip(n, rest);
    case StringItem(s) => StringRoundTrip(s, rest);
  }

  lemma {:induction false} EncFront(items: seq<Item>)
    requires items != []
    ensures EncAll(items) == Enc(items[0]) + EncAll(items[1..])
  {
    var n := |items| - 1;
    if n > 0 {
      EncFront(items[..n]);
      assert items[..n][1..] == items[1..][..n - 1];
      Assoc(Enc(items[0]), EncAll(items[1..][..n - 1]), Enc(items[n]));
    } else {
      assert items[..0] == [] && items[1..] == [];
      assert [] + Enc(items[0]) == Enc(items[0]) + [];
    }
  }

  /** The getters return a whole message as it was put. */
  lemma {:induction false} MessageRoundTrip(items: seq<Item>, rest: Bytes)
    requires forall i <- items :: WellTyped(i) && (i.StringItem? ==> |i.s| < 0xffff)
    ensures GetAll(items, EncAll(items) + rest) == Some((items, rest))
  {
    if items == [] {
      assert EncAll(items) + rest == rest;
    } else {
      EncFront(items);
      Assoc(Enc(items[0]), EncAll(items[1..]), rest);
      GetPut(items[0], EncAll(items[1..]) + rest);
      MessageRoundTrip(items[1..], rest);
      assert [items[0]] + items[1..] == items;
    }
  }

  lemma {:induction false} ItemFits(items: seq<Item>, k: nat)
    requires k < |items|
    ensures |Enc(items[k])| <= |EncAll(items)|
    decreases |items|
  {
    EncFront(items);
    if k > 0 { ItemFits(items[1..], k - 1); }
  }

  lemma {:induction false} SendableFits(messages: seq<seq<Item>>)
    ensures forall m <- Sendable(messages) :: m in messages && |EncAll(m)| <= MAX_BODY
  {
    if messages != [] && |EncAll(messages[0])| <= MAX_BODY { SendableFits(messages[1..]); }
  }

  /** A stream of packets is read as the bodies put into it, and nothing is left over. */
  lemma {:induction false} PacketsRoundTrip(messages: seq<seq<Item>>)
    requires forall m <- messages :: |EncAll(m)| <= MAX_BODY
    ensures Left(Packets(messages)) == [] && |Msgs(Packets(messages))| == |messages|
    ensures forall k :: 0 <= k < |messages| ==> Msgs(Packets(messages))[k] == EncAll(messages[k])
  {
    if messages != [] {
      PacketsRoundTrip(messages[1..]);
      PacketRoundTrip(EncAll(messages[0]), Packets(messages[1..]));
    }
  }

  /** The items put into a packet are the items read from its body. */
  lemma BodyRoundTrip(items: seq<Item>)
    requires |EncAll(items)| <= MAX_BODY && forall i <- items :: WellTyped(i)
    ensures GetAll(items, EncAll(items)) == Some((items, []))
  {
    forall k | 0 <= k < |items| ensures items[k].StringItem? ==> |items[k].s| < 0xffff { ItemFits(items, k); }
    MessageRoundTrip(items, []);
    assert EncAll(items) + [] == EncAll(items);
  }

  /** What is put is what is got: however the stream is cut into reads, the parser hands
      out one body for every message that leaves the builder, and the getters read its
      items from it. */
  method Exchange(m: Message, p: Parser, messages: seq<seq<Item>>, cut: Bytes -> seq<Bytes>)
    returns (bodies: seq<Bytes>, bad: bool)
    requires m.Valid() && m.valid && m.Body() == [] && m.sent == [] && p.Valid() && p.Unread() == []
    requires forall b :: Flatten(cut(b)) == b
    requires forall items <- messages :: forall i <- items :: WellTyped(i)
    modifies m`pos, m`valid, m`sent, m.buf, p
    ensures var sent := Sendable(messages);
            && !bad && |bodies| == |sent|
            && forall k :: 0 <= k < |sent| ==> GetAll(sent[k], bodies[k]) == Some((sent[k], []))
  {
    m.SendAll(messages);
    bodies, bad := p.Run(cut(m.sent));
    ghost var sent := Sendable(messages);
    assert m.sent == Packets(sent);
    SendableFits(messages);
    PacketsRoundTrip(sent);
    forall k | 0 <= k < |sent| ensures GetAll(sent[k], bodies[k]) == Some((sent[k], [])) {
      BodyRoundTrip(sent[k]);
    }
  }
}
