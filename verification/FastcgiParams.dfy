/** FastCGI name-value pairs: the buffering writer and the two decoders. */
module FastcgiParams {
  import opened Wire
  import opened FastcgiRecords
  import opened FastcgiStream

  datatype Pair = Pair(name: Bytes, val: Bytes)

  /** addLen: one byte, or four with the top bit set. */
  function EncLen(n: nat): Bytes
    requires n <= 65535
  {
    if n > 127 then [0x80, 0, (n / 256) as byte, (n % 256) as byte] else [n as byte]
  }

  function EncPair(p: Pair): Bytes
    requires |p.name| <= 65535 && |p.val| <= 65535
  {
    EncLen(|p.name|) + EncLen(|p.val|) + p.name + p.val
  }

  /** parse_len. */
  function DecLen(b: Bytes): Option<(nat, Bytes)> {
    if |b| < 1 then None
    else if b[0] < 0x80 then Some((b[0] as nat, b[1..]))
    else if |b| < 4 then None
    else Some((Quad(b), b[4..]))
  }

  function Quad(b: Bytes): nat
    requires |b| >= 4 && b[0] >= 0x80
  {
    (b[0] as nat - 0x80) * 0x1000000 + b[1] as nat * 0x10000 + b[2] as nat * 0x100 + b[3] as nat
  }

  /** Lengths as section 3.4 of the FastCGI Specification lays them out: one byte up to 127,
      else four in network order with the top bit set. */
  lemma LengthsOnTheWire(n: nat)
    requires n <= 65535
    ensures if n <= 127 then |EncLen(n)| == 1 && Number(EncLen(n)) == n
            else |EncLen(n)| == 4 && Number(EncLen(n)) == 0x8000_0000 + n
  {
    if n <= 127 {
      assert EncLen(n)[..0] == [];
    } else {
      NumberOfFour(0x80, 0, (n / 256) as byte, (n % 256) as byte);
    }
  }

  lemma QuadOnTheWire(b: Bytes)
    requires |b| >= 4 && b[0] >= 0x80
    ensures Quad(b) == Number(b[..4]) - 0x8000_0000
  {
    assert b[..4] == [b[0], b[1], b[2], b[3]];
    NumberOfFour(b[0], b[1], b[2], b[3]);
  }

  /** Whether a payload was accepted, and the pairs handed out before it was not. */
  datatype Parsed = Parsed(ok: bool, pairs: seq<Pair>) {
    function Before(p: Pair): Parsed { Parsed(ok, [p] + pairs) }

    function After(ps: seq<Pair>): Parsed { Parsed(ok, ps + pairs) }
  }

  lemma AfterNone(p: Parsed)
    ensures p.After([]) == p
  {
    assert [] + p.pairs == p.pairs;
  }

  lemma AfterPush(ps: seq<Pair>, p: Pair, rest: Parsed)
    ensures rest.Before(p).After(ps) == rest.After(ps + [p])
  {
    Assoc(ps, [p], rest.pairs);
  }

  /** Both lengths of the first pair and the bytes after them, if the pair fits. */
  function Lens(b: Bytes): Option<(nat, nat, Bytes)> {
    match DecLen(b)
    case None => None
    case Some((n, b1)) =>
      match DecLen(b1)
      case None => None
      case Some((v, b2)) => if n + v > |b2| then None else Some((n, v, b2))
  }

  /** The first pair and the bytes behind it. */
  function FirstPair(b: Bytes): (r: Option<(Pair, Bytes)>)
    ensures r.Some? ==> |r.value.1| < |b|
  {
    match Lens(b)
    case None => None
    case Some((n, v, c)) => Some((Pair(c[..n], c[n..n + v]), c[n + v..]))
  }

  /** The pairs of a payload, as section 3.4 of the FastCGI Specification lays them out. */
  function PairsOf(b: Bytes): Parsed
    decreases |b|
  {
    if b == [] then Parsed(true, [])
    else
      match FirstPair(b)
      case None => Parsed(false, [])
      case Some((p, rest)) => PairsOf(rest).Before(p)
  }

  /** The pairs up to the first that is not accepted, which refuses the payload. */
  function CutAt(p: Parsed, accepts: Pair -> bool): Parsed
    decreases |p.pairs|
  {
    if p.pairs == [] then p
    else if !accepts(p.pairs[0]) then Parsed(false, [])
    else CutAt(Parsed(p.ok, p.pairs[1..]), accepts).Before(p.pairs[0])
  }

  lemma {:induction false} NothingIsCut(p: Parsed, accepts: Pair -> bool)
    requires forall q <- p.pairs :: accepts(q)
    ensures CutAt(p, accepts) == p
    decreases |p.pairs|
  {
    if p.pairs != [] { NothingIsCut(Parsed(p.ok, p.pairs[1..]), accepts); }
  }

  /** What an environment gets of a payload. */
  function Accepted(b: Bytes, accepts: Pair -> bool): Parsed { CutAt(PairsOf(b), accepts) }

  lemma AcceptedStep(b: Bytes, accepts: Pair -> bool)
    requires b != []
    ensures
      match FirstPair(b)
      case None => Accepted(b, accepts) == Parsed(false, [])
      case Some((p, rest)) =>
        Accepted(b, accepts) == if accepts(p) then Accepted(rest, accepts).Before(p) else Parsed(false, [])
  {
    if FirstPair(b).Some? {
      assert PairsOf(b).pairs[1..] == PairsOf(FirstPair(b).value.1).pairs;
    }
  }

  /** A turn of a decoder: the pair joins those before it, or the payload is refused. */
  lemma AcceptedTurn(full: Parsed, b: Bytes, pairs: seq<Pair>, accepts: Pair -> bool)
    requires b != [] && full == Accepted(b, accepts).After(pairs)
    ensures
      match FirstPair(b)
      case None => full == Parsed(false, pairs)
      case Some((p, rest)) =>
        full == if accepts(p) then Accepted(rest, accepts).After(pairs + [p]) else Parsed(false, pairs)
  {
    AcceptedStep(b, accepts);
    assert pairs + [] == pairs;
    if FirstPair(b).Some? { AfterPush(pairs, FirstPair(b).value.0, Accepted(FirstPair(b).value.1, accepts)); }
  }

  /** One pair of parse_param. */
  method ParsePair(b: Bytes) returns (first: Option<(Pair, Bytes)>)
    ensures first == FirstPair(b)
  {
    var d := DecLen(b);
    if d.None? { return None; }
    var e := DecLen(d.value.1);
    if e.None? { return None; }
    var n, v, c := d.value.0, e.value.0, e.value.1;
    if n > |c| || v > |c| - n { return None; }
    return Some((Pair(c[..n], c[n..n + v]), c[n + v..]));
  }

  /** parse_param, for an environment that accepts some pairs. */
  method ParseParam(buf: Bytes, accepts: Pair -> bool) returns (ok: bool, pairs: seq<Pair>)
    ensures Parsed(ok, pairs) == Accepted(buf, accepts)
  {
    ok, pairs := true, [];
    var rest := buf;
    AfterNone(Accepted(buf, accepts));
    while rest != []
      invariant Accepted(buf, accepts) == Accepted(rest, accepts).After(pairs)
      decreases |rest|
    {
      AcceptedTurn(Accepted(buf, accepts), rest, pairs, accepts);
      var first := ParsePair(rest);
      if first.None? { return false, pairs; }
      if !accepts(first.value.0) { return false, pairs; }
      pairs := pairs + [first.value.0];
      rest := first.value.1;
    }
    assert pairs + [] == pairs;
  }

  /** The stream decoder also refuses empty names. */
  function Named(accepts: Pair -> bool): Pair -> bool { (q: Pair) => q.name != [] && accepts(q) }

  /** Without empty names both decoders accept the same payloads with the same pairs. */
  lemma {:induction false} NoEmptyNames(p: Parsed, accepts: Pair -> bool)
    requires forall q <- p.pairs :: q.name != []
    ensures CutAt(p, Named(accepts)) == CutAt(p, accepts)
    decreases |p.pairs|
  {
    if p.pairs != [] { NoEmptyNames(Parsed(p.ok, p.pairs[1..]), accepts); }
  }

  lemma Head(b: Bytes, z: Bytes, n: nat)
    requires n <= |b|
    ensures (b + z)[..n] == b[..n] && (b + z)[n..] == b[n..] + z
  {
  }

  /** readLen: reads a length from the stream, within what is left of the record. If the
      record is whole, its rest is b and z comes behind it. */
  method ReadLen(st: Stream, left: nat, ghost whole: bool, ghost b: Bytes, ghost z: Bytes)
    returns (len: Option<nat>, left': nat)
    requires whole ==> |b| == left && st.inp == b + z
    modifies st`inp
    ensures len.Some? ==> left' < left && |old(st.inp)| - |st.inp| == left - left'
    ensures whole ==>
      match DecLen(b)
      case None => len == None
      case Some((n, rest)) => len == Some(n) && left' == |rest| && st.inp == rest + z
  {
    left' := left;
    if left < 1 { return None, left'; }
    if whole { Head(b, z, 1); }
    var ok, first := st.ReadAll(1);
    if !ok { return None, left'; }
    left' := left - 1;
    if first[0] < 0x80 { return Some(first[0] as nat), left'; }
    if left' < 3 { return None, left'; }
    if whole { Head(b[1..], z, 3); }
    var more;
    ok, more := st.ReadAll(3);
    if !ok { return None, left'; }
    left' := left' - 3;
    assert whole ==> b[1..][3..] == b[4..];
    return Some(Quad(first + more)), left';
  }

  /** Reading the second length within what the name leaves decides the same as reading
      it first and checking the sum. */
  lemma SecondLength(c: Bytes, name: Bytes)
    ensures
      match DecLen(c)
      case None => DecLen(c + name).None? || |DecLen(c + name).value.1| < |name|
      case Some((v, r)) => DecLen(c + name) == Some((v, r + name))
  {
    if DecLen(c).Some? { Head(c, name, |c| - |DecLen(c).value.1|); }
  }

  /** The lengths of a pair in readParamsPackage: the name must fit before the second
      length is read. */
  method ReadLens(st: Stream, left: nat, ghost whole: bool, ghost b: Bytes, ghost z: Bytes)
    returns (lens: Option<(nat, nat)>, left': nat)
    requires whole ==> |b| == left && st.inp == b + z
    modifies st`inp
    ensures lens.Some? ==> left' < left && |old(st.inp)| - |st.inp| == left - left'
    ensures lens.Some? ==> lens.value.0 + lens.value.1 <= left'
    ensures whole ==>
      var l := Lens(b);
      if l.None? || l.value.0 == 0 then lens == None
      else lens == Some((l.value.0, l.value.1)) && left' == |l.value.2| && st.inp == l.value.2 + z
  {
    lens := None;
    var n;
    n, left' := ReadLen(st, left, whole, b, z);
    if n.None? || n.value == 0 { return; }
    if n.value > left' { return; }
    ghost var c: Bytes, name: Bytes := [], [];
    if whole {
      ghost var rest := DecLen(b).value.1;
      c, name := rest[..left' - n.value], rest[left' - n.value..];
      assert rest == c + name;
      Assoc(c, name, z);
      SecondLength(c, name);
    }
    var v;
    v, left' := ReadLen(st, left' - n.value, whole, c, name + z);
    if v.None? || v.value > left' { return; }
    left' := left' + n.value;
    lens := Some((n.value, v.value));
    if whole { Assoc(DecLen(c).value.1, name, z); }
  }

  lemma PairParts(c: Bytes, z: Bytes, n: nat, v: nat)
    requires n + v <= |c|
    ensures (c + z)[..n] == c[..n] && (c + z)[n..][..v] == c[n..n + v] && (c + z)[n..][v..] == c[n + v..] + z
  {
  }

  /** One pair of readParamsPackage. */
  method ReadPair(st: Stream, left: nat, ghost whole: bool, ghost b: Bytes, ghost z: Bytes)
    returns (pair: Option<Pair>, left': nat)
    requires whole ==> |b| == left && st.inp == b + z
    modifies st`inp
    ensures pair.Some? ==> left' < left && |old(st.inp)| - |st.inp| == left - left'
    ensures whole ==>
      match FirstPair(b)
      case None => pair == None
      case Some((p, rest)) =>
        if p.name == [] then pair == None else pair == Some(p) && left' == |rest| && st.inp == rest + z
  {
    pair := None;
    var lens;
    lens, left' := ReadLens(st, left, whole, b, z);
    if lens.None? { return; }
    var (n, v) := lens.value;
    ghost var c: Bytes := if whole then Lens(b).value.2 else [];
    if whole { PairParts(c, z, n, v); }
    var ok, name := st.ReadAll(n);
    if !ok { return; }
    var val: Bytes := [];
    if v > 0 {
      ok, val := st.ReadAll(v);
      if !ok { return; }
    }
    left' := left' - n - v;
    pair := Some(Pair(name, val));
    assert v == 0 ==> st.inp[..0] == [] && st.inp[0..] == st.inp;
  }

  function Package(b: Bytes, accepts: Pair -> bool): Parsed { Accepted(b, Named(accepts)) }

  /** readParamsPackage: decodes one record's payload straight from the stream. */
  method ReadParamsPackage(st: Stream, len: nat, accepts: Pair -> bool) returns (ok: bool, pairs: seq<Pair>)
    modifies st`inp
    ensures len <= |old(st.inp)| ==> Parsed(ok, pairs) == Package(old(st.inp)[..len], accepts)
    ensures ok ==> len <= |old(st.inp)| && st.inp == old(st.inp)[len..]
  {
    ok, pairs := true, [];
    var left: nat := len;
    ghost var whole := len <= |st.inp|;
    ghost var b, z := if whole then st.inp[..len] else [], if whole then st.inp[len..] else [];
    ghost var full := b;
    AfterNone(Package(b, accepts));
    while left > 0
      invariant left <= len && |old(st.inp)| - |st.inp| == len - left
      invariant whole ==> |b| == left && st.inp == b + z
      invariant whole ==> Package(full, accepts) == Package(b, accepts).After(pairs)
    {
      if whole { AcceptedTurn(Package(full, accepts), b, pairs, Named(accepts)); }
      var pair;
      pair, left := ReadPair(st, left, whole, b, z);
      if pair.None? { return false, pairs; }
      if !accepts(pair.value) { return false, pairs; }
      if whole {
        b := FirstPair(b).value.1;
      }
      pairs := pairs + [pair.value];
    }
    assert pairs + [] == pairs && (whole ==> b + z == z);
  }

  /** How a decoded pair reaches the environment: HTTP_ names as request headers, with
      the prefix removed. */
  datatype Delivery = Env(pair: Pair) | HttpHeader(pair: Pair)

  const HTTP: Bytes := [72, 84, 84, 80, 95]

  function Deliver(p: Pair): Delivery {
    if |p.name| > 5 && HTTP <= p.name then HttpHeader(Pair(p.name[5..], p.val)) else Env(p)
  }

  function DeliverAll(ps: seq<Pair>): seq<Delivery> {
    seq(|ps|, i requires 0 <= i < |ps| => Deliver(ps[i]))
  }

  lemma DeliverAppend(a: seq<Pair>, b: seq<Pair>)
    ensures DeliverAll(a + b) == DeliverAll(a) + DeliverAll(b)
  {
  }

  /** One record of a PARAMS stream: its pairs, whether it ends the stream, the rest. */
  function OneParams(b: Bytes, accepts: Pair -> bool): Option<(seq<Pair>, bool, Bytes)> {
    match Next(b)
    case None => None
    case Some((r, rest)) =>
      if b[0] != 1 || b[2] != 0 || b[3] != 1 || r.kind != PARAMS then None
      else if r.content == [] then Some(([], true, rest))
      else
        var p := Package(r.content, accepts);
        if p.ok then Some((p.pairs, false, rest)) else None
  }

  /** The pairs of a PARAMS stream up to its empty record, and what follows it. */
  function ParamsOf(b: Bytes, accepts: Pair -> bool): Option<(seq<Pair>, Bytes)>
    decreases |b|
  {
    match OneParams(b, accepts)
    case None => None
    case Some((ps, true, rest)) => Some((ps, rest))
    case Some((ps, false, rest)) =>
      match ParamsOf(rest, accepts)
      case None => None
      case Some((more, end)) => Some((ps + more, end))
  }

  /** A record as its header, its content and its padding are read in turn. */
  lemma RecordParts(b: Bytes)
    requires |b| >= HEADER_LEN
    ensures var len, rest := ContentLength(b), b[HEADER_LEN..];
            Next(b) == if |rest| < len + b[6] as nat then None
                       else Some((Record(b[1], rest[..len]), rest[len..][b[6] as nat..]))
  {
    var len, pad, rest := ContentLength(b), b[6] as nat, b[HEADER_LEN..];
    if |rest| >= len + pad {
      assert rest[..len] == b[HEADER_LEN..HEADER_LEN + len];
      assert rest[len..][pad..] == b[HEADER_LEN + len + pad..];
    }
  }

  /** One turn of the loop in readParams. */
  method ReadParamsRecord(st: Stream, accepts: Pair -> bool) returns (ok: bool, done: bool, pairs: seq<Pair>)
    modifies st`inp
    ensures ok <==> OneParams(old(st.inp), accepts).Some?
    ensures ok ==> OneParams(old(st.inp), accepts) == Some((pairs, done, st.inp))
  {
    done, pairs := false, [];
    ghost var b := st.inp;
    var header, padding;
    ok, header := st.ReadAll(HEADER_LEN);
    if !ok { return; }
    RecordParts(b);
    if header[0] != 1 || header[2] != 0 || header[3] != 1 || header[1] != PARAMS {
      return false, false, [];
    }
    var len := ContentLength(header);
    assert len == ContentLength(b);
    done := len == 0;
    if !done {
      ok, pairs := ReadParamsPackage(st, len, accepts);
      if !ok { return; }
    }
    ok, padding := st.ReadAll(header[6] as nat);
  }

  /** readParams. */
  method ReadParams(st: Stream, accepts: Pair -> bool) returns (ok: bool, env: seq<Delivery>)
    modifies st`inp
    ensures ok <==> ParamsOf(old(st.inp), accepts).Some?
    ensures ok ==>
      var (pairs, rest) := ParamsOf(old(st.inp), accepts).value;
      env == DeliverAll(pairs) && st.inp == rest
  {
    env := [];
    ghost var start := st.inp;
    ghost var got: seq<Pair> := [];
    assert ParamsOf(start, accepts).Some? ==> [] + ParamsOf(start, accepts).value.0 == ParamsOf(start, accepts).value.0;
    while true
      invariant env == DeliverAll(got)
      invariant ParamsOf(start, accepts).Some? <==> ParamsOf(st.inp, accepts).Some?
      invariant ParamsOf(start, accepts).Some? ==>
                  ParamsOf(start, accepts).value.0 == got + ParamsOf(st.inp, accepts).value.0
      invariant ParamsOf(start, accepts).Some? ==> ParamsOf(start, accepts).value.1 == ParamsOf(st.inp, accepts).value.1
      decreases |st.inp|
    {
      var done, pairs;
      ok, done, pairs := ReadParamsRecord(st, accepts);
      if !ok { return; }
      DeliverAppend(got, pairs);
      env := env + DeliverAll(pairs);
      if ParamsOf(start, accepts).Some? && !done {
        Assoc(got, pairs, ParamsOf(st.inp, accepts).value.0);
      }
      got := got + pairs;
      if done { return; }
    }
  }

  predicate Fits(p: Pair) {
    && 0 < |p.name| <= 65535 && |p.val| <= 65535
    && |EncPair(p)| <= 65535
  }

  ghost predicate AllFit(ps: seq<Pair>) { forall i | 0 <= i < |ps| :: Fits(ps[i]) }

  function EncAll(ps: seq<Pair>): Bytes
    requires AllFit(ps)
  {
    if ps == [] then [] else EncPair(ps[0]) + EncAll(ps[1..])
  }

  ghost predicate Batch(ps: seq<Pair>) { AllFit(ps) && |EncAll(ps)| <= 65535 }

  ghost predicate Batches(records: seq<seq<Pair>>) {
    forall i | 0 <= i < |records| :: records[i] != [] && Batch(records[i])
  }

  /** PARAMS records, each holding whole pairs. */
  ghost function Framed(records: seq<seq<Pair>>): Bytes
    requires Batches(records)
  {
    if records == [] then [] else Frame(PARAMS, EncAll(records[0])) + Framed(records[1..])
  }

  function Concat(records: seq<seq<Pair>>): seq<Pair> {
    if records == [] then [] else records[0] + Concat(records[1..])
  }

  class ParamsWriter {
    var buff: Bytes
    var output: Bytes
    ghost var records: seq<seq<Pair>>  // what each record sent so far holds
    ghost var current: seq<Pair>       // what the buffer holds

    ghost predicate Valid() reads this {
      && Batch(current) && buff == EncAll(current)
      && Batches(records) && output == Framed(records)
    }

    ghost function Accepted(): seq<Pair> reads this { Concat(records) + current }

    constructor ()
      ensures Valid() && Accepted() == []
    {
      buff, output, records, current := [], [], [], [];
    }

    method SendParams()
      requires Valid()
      modifies this
      ensures Valid() && Accepted() == old(Accepted()) && current == []
    {
      if |buff| > 0 {
        output := output + Header(PARAMS, |buff|);
        output := output + buff;
        FramedPush(records, current);
        ConcatPush(records, current);
        Assoc(old(output), Header(PARAMS, |buff|), buff);
        records := records + [current];
        buff, current := [], [];
      }
    }

    /** add_env: a pair that fits a record joins the buffer, which is sent first when it
        has no room. */
    method AddEnv(p: Pair) returns (ok: bool)
      requires Valid()
      modifies this
      ensures Valid() && ok == Fits(p)
      ensures Accepted() == old(Accepted()) + if ok then [p] else []
    {
      if |p.name| == 0 || |p.name| > 65535 || |p.val| > 65535 { return false; }
      var len := |p.name| + |p.val| + (if |p.name| > 127 then 4 else 1) + (if |p.val| > 127 then 4 else 1);
      assert len == |EncPair(p)|;
      if len > 65535 { return false; }
      if |buff| > 65535 - len { SendParams(); }
      EncPush(current, p);
      ghost var a, b := EncLen(|p.name|), EncLen(|p.val|);
      Assoc(buff, a, b);
      Assoc(buff, a + b, p.name);
      Assoc(buff, a + b + p.name, p.val);
      buff := buff + EncLen(|p.name|);
      buff := buff + EncLen(|p.val|);
      buff := buff + p.name;
      buff := buff + p.val;
      Assoc(Concat(records), current, [p]);
      current := current + [p];
      return true;
    }

    /** addEnvEnd: everything accepted is sent, then the empty record. */
    method AddEnvEnd()
      requires Valid()
      modifies this
      ensures Concat(records) == old(Accepted())
      ensures Batches(records)
      ensures output == Framed(records) + Frame(PARAMS, [])
    {
      SendParams();
      output := output + Header(PARAMS, 0);
      assert Concat(records) + [] == Concat(records);
    }
  }

  lemma {:induction false} EncPush(ps: seq<Pair>, p: Pair)
    requires AllFit(ps) && Fits(p)
    ensures AllFit(ps + [p])
    ensures EncAll(ps + [p]) == EncAll(ps) + EncPair(p)
  {
    if ps == [] {
      assert ps + [p] == [p];
      assert EncAll([p]) == EncPair(p) + [];
    } else {
      assert (ps + [p])[1..] == ps[1..] + [p];
      EncPush(ps[1..], p);
      Assoc(EncPair(ps[0]), EncAll(ps[1..]), EncPair(p));
    }
  }

  lemma {:induction false} FramedPush(records: seq<seq<Pair>>, ps: seq<Pair>)
    requires Batches(records) && Batch(ps) && ps != []
    ensures Batches(records + [ps])
    ensures Framed(records + [ps]) == Framed(records) + Frame(PARAMS, EncAll(ps))
  {
    if records == [] {
      assert records + [ps] == [ps];
      assert Framed([ps]) == Frame(PARAMS, EncAll(ps)) + [];
    } else {
      assert (records + [ps])[1..] == records[1..] + [ps];
      FramedPush(records[1..], ps);
      Assoc(Frame(PARAMS, EncAll(records[0])), Framed(records[1..]), Frame(PARAMS, EncAll(ps)));
    }
  }

  lemma {:induction false} ConcatPush(records: seq<seq<Pair>>, ps: seq<Pair>)
    ensures Concat(records + [ps]) == Concat(records) + ps
  {
    if records == [] {
      assert records + [ps] == [ps];
      assert Concat([ps]) == ps + [];
    } else {
      assert (records + [ps])[1..] == records[1..] + [ps];
      ConcatPush(records[1..], ps);
      Assoc(records[0], Concat(records[1..]), ps);
    }
  }

  lemma LenRoundTrip(n: nat, rest: Bytes)
    requires n <= 65535
    ensures DecLen(EncLen(n) + rest) == Some((n, rest))
  {
    var b := EncLen(n) + rest;
    assert b[|EncLen(n)|..] == rest;
    if n > 127 {
      assert b[0] == 0x80 && b[1] == 0 && b[2] == EncLen(n)[2] && b[3] == EncLen(n)[3];
    }
  }

  lemma PairRoundTrip(p: Pair, rest: Bytes)
    requires Fits(p)
    ensures FirstPair(EncPair(p) + rest) == Some((p, rest))
  {
    var a, b, c := EncLen(|p.name|), EncLen(|p.val|), p.name + p.val + rest;
    assert EncPair(p) + rest == a + (b + c);
    LenRoundTrip(|p.name|, b + c);
    LenRoundTrip(|p.val|, c);
    assert c[..|p.name|] == p.name && c[|p.name|..|p.name| + |p.val|] == p.val;
    assert c[|p.name| + |p.val|..] == rest;
  }

  /** A payload of whole pairs decodes to those pairs, in either decoder. */
  lemma PayloadRoundTrip(ps: seq<Pair>, accepts: Pair -> bool)
    requires AllFit(ps) && forall p <- ps :: accepts(p)
    ensures Accepted(EncAll(ps), accepts) == Parsed(true, ps) == Package(EncAll(ps), accepts)
  {
    PairsRoundTrip(ps);
    forall p <- ps ensures Named(accepts)(p) {
      var i :| 0 <= i < |ps| && ps[i] == p;
      assert Fits(ps[i]);
    }
    NothingIsCut(Parsed(true, ps), accepts);
    NothingIsCut(Parsed(true, ps), Named(accepts));
  }

  lemma {:induction false} PairsRoundTrip(ps: seq<Pair>)
    requires AllFit(ps)
    ensures PairsOf(EncAll(ps)) == Parsed(true, ps)
  {
    if ps != [] {
      var p, rest := ps[0], EncAll(ps[1..]);
      PairRoundTrip(p, rest);
      PairsRoundTrip(ps[1..]);
      assert [p] + ps[1..] == ps;
    }
  }

  lemma OneParamsFrame(ps: seq<Pair>, rest: Bytes, accepts: Pair -> bool)
    requires Batch(ps) && forall p <- ps :: accepts(p)
    ensures OneParams(Frame(PARAMS, EncAll(ps)) + rest, accepts) == Some((ps, ps == [], rest))
  {
    FrameIsNext(PARAMS, EncAll(ps), rest);
    PayloadRoundTrip(ps, accepts);
    var b := Frame(PARAMS, EncAll(ps)) + rest;
    assert b[0] == 1 && b[2] == 0 && b[3] == 1;
    assert ps != [] ==> EncAll(ps) != [];
  }

  /** Whatever AddEnv accepted is what ReadParams hands out, in the same order, to an
      environment that accepts it. */
  lemma {:induction false} ParamsRoundTrip(records: seq<seq<Pair>>, rest: Bytes, accepts: Pair -> bool)
    requires Batches(records) && forall ps <- records :: forall p <- ps :: accepts(p)
    ensures ParamsOf(Framed(records) + Frame(PARAMS, []) + rest, accepts) == Some((Concat(records), rest))
  {
    if records == [] {
      assert Framed(records) + Frame(PARAMS, []) + rest == Frame(PARAMS, EncAll([])) + rest;
      OneParamsFrame([], rest, accepts);
    } else {
      var more := Framed(records[1..]) + Frame(PARAMS, []) + rest;
      FramedFront(records, rest);
      assert records[0] in records;
      OneParamsFrame(records[0], more, accepts);
      RestIsAccepted(records, accepts);
      ParamsRoundTrip(records[1..], rest, accepts);
    }
  }

  lemma FramedFront(records: seq<seq<Pair>>, rest: Bytes)
    requires Batches(records) && records != []
    ensures Batches(records[1..])
    ensures Framed(records) + Frame(PARAMS, []) + rest ==
            Frame(PARAMS, EncAll(records[0])) + (Framed(records[1..]) + Frame(PARAMS, []) + rest)
  {
    var first, more := Frame(PARAMS, EncAll(records[0])), Framed(records[1..]);
    Assoc(first, more, Frame(PARAMS, []));
    Assoc(first, more + Frame(PARAMS, []), rest);
  }

  lemma RestIsAccepted(records: seq<seq<Pair>>, accepts: Pair -> bool)
    requires records != [] && forall ps <- records :: forall p <- ps :: accepts(p)
    ensures forall ps <- records[1..] :: forall p <- ps :: accepts(p)
  {
    assert forall ps <- records[1..] :: ps in records;
  }

  /** add_http_header in extended mode puts back the prefix that the reader removes,
      unless the header has no name. */
  lemma HeaderRoundTrip(name: Bytes, val: Bytes)
    ensures Deliver(Pair(HTTP + name, val)) == HttpHeader(Pair(name, val)) <==> name != []
  {
    assert (HTTP + name)[5..] == name && HTTP <= HTTP + name;
  }

  /** Any other pair reaches the environment as it is. */
  lemma EnvRoundTrip(p: Pair)
    ensures Deliver(p) == Env(p) <==> !exists n: Bytes :: n != [] && p.name == HTTP + n
  {
    if |p.name| > 5 && HTTP <= p.name { assert p.name == HTTP + p.name[5..]; }
    if n: Bytes :| n != [] && p.name == HTTP + n { HeaderRoundTrip(n, p.val); }
  }

  /** The prefix is the text of its characters. */
  lemma PrefixIsText()
    ensures |HTTP| == 5 && forall i :: 0 <= i < 5 ==> HTTP[i] as char == "HTTP_"[i]
  {
  }

  /** How the sender puts what is to be delivered into a pair. */
  function SentAs(d: Delivery): Pair {
    match d
    case Env(p) => p
    case HttpHeader(p) => Pair(HTTP + p.name, p.val)
  }

  /** A header has a name, and no other pair looks like one. */
  ghost predicate Distinguished(d: Delivery) {
    match d
    case Env(p) => !exists n: Bytes :: n != [] && p.name == HTTP + n
    case HttpHeader(p) => p.name != []
  }

  function SentAll(ds: seq<Delivery>): seq<Pair> {
    seq(|ds|, i requires 0 <= i < |ds| => SentAs(ds[i]))
  }

  lemma DeliveryRoundTrip(d: Delivery)
    ensures Deliver(SentAs(d)) == d <==> Distinguished(d)
  {
    match d
    case Env(p) => EnvRoundTrip(p);
    case HttpHeader(p) => HeaderRoundTrip(p.name, p.val);
  }

  /** What the writer was given is what the environment gets at the other end: pairs and
      headers, in order. */
  lemma DeliveriesRoundTrip(ds: seq<Delivery>, records: seq<seq<Pair>>, rest: Bytes, accepts: Pair -> bool)
    requires Batches(records) && Concat(records) == SentAll(ds) && forall d <- ds :: Distinguished(d)
    requires forall ps <- records :: forall p <- ps :: accepts(p)
    ensures var sent := ParamsOf(Framed(records) + Frame(PARAMS, []) + rest, accepts);
            sent.Some? && DeliverAll(sent.value.0) == ds && sent.value.1 == rest
  {
    ParamsRoundTrip(records, rest, accepts);
    forall i | 0 <= i < |ds| ensures Deliver(SentAs(ds[i])) == ds[i] { DeliveryRoundTrip(ds[i]); }
    assert DeliverAll(SentAll(ds)) == ds;
  }
}
