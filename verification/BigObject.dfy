/** A large object that is cached piece by piece: which bytes of its file are valid, who
    is fetching which piece, and who waits for it. */
module BigObject {
  import opened Wire

  type Fiber = nat

  datatype Waiter = Waiter(fiber: Fiber, from: nat, length: nat)

  /** The bytes from..to are in the file. The first writer is the one that fetches; the
      others joined when their blocks were merged into this one. */
  datatype Block = Block(from: nat, to: nat, waiters: seq<Waiter>, writers: seq<Fiber>) {
    /** Search counts the end of a block as part of it. */
    predicate Knows(x: nat) { from <= x <= to }

    predicate Has(x: nat) { from <= x < to }
  }

  /** What wakes a waiting reader: bytes, or word to try again. */
  datatype Notice = Notice(waiter: Waiter, bytes: Option<Bytes>)

  datatype Outcome = Data(bytes: Bytes) | NeedFetch | Fetch(from: nat, end: Option<nat>) | Waiting | Failed

  datatype Satisfy = Nothing | Part | Everything

  // ---------------------------------------------------------------- what every operation keeps

  /** Every byte that a block has is the origin's; readers wait only at its end, and only
      if somebody is fetching. */
  ghost predicate BlockOk(b: Block, file: nat -> byte, body: Bytes) {
    && b.from <= b.to <= |body|
    && (forall p: nat :: b.Has(p) ==> file(p) == body[p])
    && (b.waiters != [] ==> b.writers != [])
    && (forall k :: 0 <= k < |b.waiters| ==> b.waiters[k].from == b.to)
  }

  /** Blocks are sound, and apart from each other, in order. */
  ghost predicate Sound(bs: seq<Block>, file: nat -> byte, body: Bytes) {
    && (forall i :: 0 <= i < |bs| ==> BlockOk(bs[i], file, body))
    && (forall i, j :: 0 <= i < j < |bs| ==> bs[i].to < bs[j].from)
  }

  ghost predicate Covered(bs: seq<Block>, p: nat) {
    exists i :: 0 <= i < |bs| && bs[i].Has(p)
  }

  ghost predicate Known(bs: seq<Block>, x: nat) {
    exists i :: 0 <= i < |bs| && bs[i].Knows(x)
  }

  /** Blocks i to j give way to one block. */
  function Replace(bs: seq<Block>, i: nat, j: nat, b: Block): (r: seq<Block>)
    requires i <= j <= |bs|
    ensures |r| == |bs| - (j - i) + 1
    ensures forall k :: 0 <= k < |r| ==> r[k] == if k < i then bs[k] else if k == i then b else bs[k - 1 + j - i]
  {
    bs[..i] + [b] + bs[j..]
  }

  lemma ReplaceIsSound(bs: seq<Block>, file: nat -> byte, body: Bytes, i: nat, j: nat, b: Block)
    requires i <= j <= |bs| && Sound(bs, file, body) && BlockOk(b, file, body)
    requires (i > 0 ==> bs[i - 1].to < b.from) && (j < |bs| ==> b.to < bs[j].from)
    ensures Sound(Replace(bs, i, j, b), file, body)
  {
    var r := Replace(bs, i, j, b);
    forall k | 0 <= k < |r| ensures BlockOk(r[k], file, body) { }
    ReplaceIsInOrder(bs, i, j, b);
  }

  ghost predicate InOrder(bs: seq<Block>) {
    && (forall i :: 0 <= i < |bs| ==> bs[i].from <= bs[i].to)
    && (forall i, j :: 0 <= i < j < |bs| ==> bs[i].to < bs[j].from)
  }

  lemma ReplaceIsInOrder(bs: seq<Block>, i: nat, j: nat, b: Block)
    requires i <= j <= |bs| && InOrder(bs) && b.from <= b.to
    requires (i > 0 ==> bs[i - 1].to < b.from) && (j < |bs| ==> b.to < bs[j].from)
    ensures InOrder(Replace(bs, i, j, b))
  {
    var r := Replace(bs, i, j, b);
    forall k | 0 <= k < i ensures bs[k].to < b.from { assert k < i - 1 ==> bs[k].to < bs[i - 1].from; }
    forall k | j <= k < |bs| ensures b.to < bs[k].from { assert j < k ==> bs[j].to < bs[k].from; }
    forall k, m | 0 <= k < m < |r| ensures r[k].to < r[m].from {
      if k < i && m > i { assert bs[k].to < bs[m - 1 + j - i].from; }
    }
  }

  /** A block that takes the place of others covers what they did and knows what they knew. */
  lemma ReplaceCovers(bs: seq<Block>, i: nat, j: nat, b: Block)
    requires i <= j <= |bs|
    requires forall k :: i <= k < j ==> b.from <= bs[k].from && bs[k].to <= b.to
    ensures forall p: nat :: Covered(bs, p) ==> Covered(Replace(bs, i, j, b), p)
    ensures forall x: nat :: Known(bs, x) ==> Known(Replace(bs, i, j, b), x)
    ensures forall p: nat :: Covered(Replace(bs, i, j, b), p) ==> Covered(bs, p) || b.Has(p)
    ensures forall p: nat :: b.Has(p) ==> Covered(Replace(bs, i, j, b), p)
  {
    var r := Replace(bs, i, j, b);
    assert r[i] == b;
    forall p: nat | Covered(bs, p) ensures Covered(r, p) {
      var k :| 0 <= k < |bs| && bs[k].Has(p);
      assert r[if k < i then k else if k < j then i else k + 1 - (j - i)].Has(p);
    }
    forall x: nat | Known(bs, x) ensures Known(r, x) {
      var k :| 0 <= k < |bs| && bs[k].Knows(x);
      assert r[if k < i then k else if k < j then i else k + 1 - (j - i)].Knows(x);
    }
  }

  /** The blocks have the same bounds. */
  ghost predicate SameBounds(bs: seq<Block>, bs': seq<Block>) {
    |bs| == |bs'| && forall k :: 0 <= k < |bs| ==> bs[k].from == bs'[k].from && bs[k].to == bs'[k].to
  }

  lemma SameBoundsCover(bs: seq<Block>, bs': seq<Block>)
    requires SameBounds(bs, bs')
    ensures forall p: nat :: Covered(bs, p) <==> Covered(bs', p)
    ensures forall x: nat :: Known(bs, x) <==> Known(bs', x)
  {
    forall p: nat ensures Covered(bs, p) <==> Covered(bs', p) {
      if i :| 0 <= i < |bs| && bs[i].Has(p) { assert bs'[i].Has(p); }
      if i :| 0 <= i < |bs| && bs'[i].Has(p) { assert bs[i].Has(p); }
    }
    forall x: nat ensures Known(bs, x) <==> Known(bs', x) {
      if i :| 0 <= i < |bs| && bs[i].Knows(x) { assert bs'[i].Knows(x); }
      if i :| 0 <= i < |bs| && bs'[i].Knows(x) { assert bs[i].Knows(x); }
    }
  }

  lemma SameBoundsSound(bs: seq<Block>, i: nat, b: Block, file: nat -> byte, body: Bytes)
    requires i < |bs| && Sound(bs, file, body) && BlockOk(b, file, body) && b.from == bs[i].from && b.to == bs[i].to
    ensures Sound(bs[i := b], file, body) && SameBounds(bs, bs[i := b]) && bs[i := b] == Replace(bs, i, i + 1, b)
  {
  }

  /** The file after data has been written at an offset. */
  function Patch(file: nat -> byte, offset: nat, data: Bytes): nat -> byte {
    (p: nat) => if offset <= p < offset + |data| then data[p - offset] else file(p)
  }

  lemma PatchIsSound(bs: seq<Block>, file: nat -> byte, body: Bytes, offset: nat, data: Bytes)
    requires Sound(bs, file, body) && offset + |data| <= |body| && data == body[offset..offset + |data|]
    ensures Sound(bs, Patch(file, offset, data), body)
  {
  }

  /** What block b becomes when it grows over the block after it; waiters and writers move over. */
  function Merge(b: Block, next: Block): Block {
    var joined :=
      if b.writers == [] then next.writers
      else if next.writers != [] && next.writers[0] == b.writers[0] then b.writers + next.writers[1..]
      else b.writers + next.writers;
    Block(b.from, next.to, b.waiters + next.waiters, joined)
  }

  /** Block i grown to a new end, over the next block if it reaches it ... */
  function Grown(bs: seq<Block>, i: nat, to: nat): Block
    requires i < |bs|
  {
    if Reaches(bs, i, to) then Merge(bs[i].(to := to), bs[i + 1]) else bs[i].(to := to)
  }

  predicate Reaches(bs: seq<Block>, i: nat, to: nat) {
    i + 1 < |bs| && to >= bs[i + 1].from
  }

  /** ... is sound once the readers that can go on have left it. */
  lemma GrownIsSound(bs: seq<Block>, file: nat -> byte, body: Bytes, i: nat, to: nat, keep: seq<Waiter>)
    requires i < |bs| && Sound(bs, file, body) && bs[i].to < to <= |body|
    requires forall p: nat :: bs[i].to <= p < to ==> file(p) == body[p]
    requires var g := Grown(bs, i, to);
             forall w <- keep :: w in g.waiters && w.from >= g.to && g.writers != []
    ensures BlockOk(Grown(bs, i, to).(waiters := keep), file, body)
    ensures var j := if Reaches(bs, i, to) then i + 2 else i + 1; j < |bs| ==> Grown(bs, i, to).to < bs[j].from
    ensures Reaches(bs, i, to) ==> bs[i].to < bs[i + 1].from <= bs[i + 1].to == Grown(bs, i, to).to
  {
    var g := Grown(bs, i, to);
    assert BlockOk(bs[i], file, body);
    if Reaches(bs, i, to) {
      assert BlockOk(bs[i + 1], file, body);
      assert forall w <- bs[i + 1].waiters :: w.from == g.to;
    }
    assert forall w <- bs[i].waiters :: w.from == bs[i].to;
    assert forall w <- keep :: w.from == g.to;
    if keep != [] { assert keep[0] in keep; }
  }

  lemma GrownCovers(bs: seq<Block>, i: nat, offset: nat, to: nat)
    requires i < |bs| && bs[i].Knows(offset)
    ensures forall p: nat :: Grown(bs, i, to).Has(p) ==> Covered(bs, p) || offset <= p < Claimed(bs, i, to)
    ensures forall p: nat :: offset <= p < Claimed(bs, i, to) ==> Grown(bs, i, to).Has(p)
  {
    forall p: nat | Grown(bs, i, to).Has(p) ensures Covered(bs, p) || offset <= p < Claimed(bs, i, to) {
      assert p < offset ==> bs[i].Has(p);
      assert p >= to && p >= offset ==> Reaches(bs, i, to) && bs[i + 1].Has(p);
    }
  }

  /** Where the bytes end that a write up to a new end adds: at the end of the next block, if
      the write goes over it. */
  function Claimed(bs: seq<Block>, i: nat, to: nat): nat
    requires i < |bs|
  {
    if Reaches(bs, i, to) && bs[i + 1].to < to then bs[i + 1].to else to
  }

  lemma ExtendIsSound(bs: seq<Block>, file: nat -> byte, body: Bytes, i: nat, offset: nat, to: nat, keep: seq<Waiter>)
    requires i < |bs| && Sound(bs, file, body) && bs[i].Knows(offset) && bs[i].to < to <= |body|
    requires forall p: nat :: bs[i].to <= p < to ==> file(p) == body[p]
    requires var g := Grown(bs, i, to);
             forall w <- keep :: w in g.waiters && w.from >= g.to && g.writers != []
    ensures Sound(Extended(bs, i, to, keep), file, body)
    ensures forall x: nat :: Known(bs, x) ==> Known(Extended(bs, i, to, keep), x)
    ensures forall p: nat ::
      Covered(Extended(bs, i, to, keep), p) <==> Covered(bs, p) || offset <= p < Claimed(bs, i, to)
  {
    var b := Grown(bs, i, to).(waiters := keep);
    var j := if Reaches(bs, i, to) then i + 2 else i + 1;
    GrownIsSound(bs, file, body, i, to, keep);
    GrownCovers(bs, i, offset, to);
    ReplaceIsSound(bs, file, body, i, j, b);
    ReplaceCovers(bs, i, j, b);
    assert forall p: nat :: b.Has(p) == Grown(bs, i, to).Has(p);
  }

  ghost predicate Fetching(bs: seq<Block>, fiber: Fiber) {
    exists i :: 0 <= i < |bs| && fiber in bs[i].writers
  }

  /** Whoever fetches for two blocks fetches for the merged one, and the fiber in charge of the
      first stays so; one that was in charge of both is listed once. */
  lemma MergeKeepsFetchers(b: Block, next: Block)
    ensures forall f :: f in Merge(b, next).writers <==> f in b.writers || f in next.writers
    ensures b.writers != [] ==> Merge(b, next).writers != [] && Merge(b, next).writers[0] == b.writers[0]
    ensures multiset(Merge(b, next).writers) ==
            multiset(b.writers) + multiset(next.writers) -
            (if b.writers != [] && next.writers != [] && b.writers[0] == next.writers[0]
             then multiset{b.writers[0]} else multiset{})
  {
    if next.writers != [] { assert next.writers == [next.writers[0]] + next.writers[1..]; }
  }

  /** No fetcher is lost when a block grows, and none changes its place. */
  lemma ExtendKeepsFetchers(bs: seq<Block>, i: nat, to: nat, keep: seq<Waiter>)
    requires i < |bs|
    ensures forall f :: Fetching(Extended(bs, i, to, keep), f) <==> Fetching(bs, f)
    ensures bs[i].writers != [] ==>
              var g := Extended(bs, i, to, keep)[i]; g.writers != [] && g.writers[0] == bs[i].writers[0]
  {
    var r, g := Extended(bs, i, to, keep), Grown(bs, i, to);
    var j := if Reaches(bs, i, to) then i + 2 else i + 1;
    if Reaches(bs, i, to) { MergeKeepsFetchers(bs[i].(to := to), bs[i + 1]); }
    assert r[i].writers == g.writers;
    forall f ensures Fetching(r, f) <==> Fetching(bs, f) {
      if k :| 0 <= k < |bs| && f in bs[k].writers {
        assert f in r[if k < i then k else if k < j then i else k + 1 - (j - i)].writers;
      }
      if k :| 0 <= k < |r| && f in r[k].writers {
        if k == i {
          assert f in bs[i].writers || (Reaches(bs, i, to) && f in bs[i + 1].writers);
        } else {
          assert f in bs[if k < i then k else k - 1 + j - i].writers;
        }
      }
    }
  }

  /** What a write of bytes up to a new end covers, by the block that knows its offset. */
  ghost predicate Adds(bs: seq<Block>, bs': seq<Block>, offset: nat, to: nat) {
    forall i :: 0 <= i < |bs| && bs[i].Knows(offset) ==>
      forall p: nat :: Covered(bs', p) <==> Covered(bs, p) || offset <= p < Claimed(bs, i, to)
  }

  /** How often a reader is queued. */
  ghost function Queued(bs: seq<Block>, w: Waiter): nat {
    if bs == [] then 0 else multiset(bs[0].waiters)[w] + Queued(bs[1..], w)
  }

  lemma {:induction false} QueuedAppend(a: seq<Block>, b: seq<Block>, w: Waiter)
    ensures Queued(a + b, w) == Queued(a, w) + Queued(b, w)
  {
    if a == [] {
      assert a + b == b;
    } else {
      QueuedAppend(a[1..], b, w);
      assert (a + b)[1..] == a[1..] + b;
    }
  }

  lemma ReplaceQueued(bs: seq<Block>, i: nat, j: nat, b: Block, w: Waiter)
    requires i <= j <= |bs|
    ensures Queued(bs, w) + multiset(b.waiters)[w] == Queued(Replace(bs, i, j, b), w) + Queued(bs[i..j], w)
  {
    var left, mid, right := bs[..i], bs[i..j], bs[j..];
    ThreeParts(bs, i, j);
    QueuedThree(left, mid, right, w);
    Assoc(left, [b], right);
    QueuedThree(left, [b], right, w);
    QueuedOne(b, w);
  }

  lemma ThreeParts(bs: seq<Block>, i: nat, j: nat)
    requires i <= j <= |bs|
    ensures bs == bs[..i] + (bs[i..j] + bs[j..])
  {
  }

  lemma QueuedThree(left: seq<Block>, mid: seq<Block>, right: seq<Block>, w: Waiter)
    ensures Queued(left + (mid + right), w) == Queued(left, w) + Queued(mid, w) + Queued(right, w)
  {
    QueuedAppend(left, mid + right, w);
    QueuedAppend(mid, right, w);
  }

  lemma QueuedOne(b: Block, w: Waiter)
    ensures Queued([b], w) == multiset(b.waiters)[w]
  {
    assert [b][1..] == [];
  }

  /** The blocks after block i has grown, with the readers that go on waiting. */
  function Extended(bs: seq<Block>, i: nat, to: nat, keep: seq<Waiter>): seq<Block>
    requires i < |bs|
  {
    Replace(bs, i, if Reaches(bs, i, to) then i + 2 else i + 1, Grown(bs, i, to).(waiters := keep))
  }

  /** The readers of a grown block are those of the blocks it is made of. */
  lemma GrownQueued(bs: seq<Block>, i: nat, to: nat, keep: seq<Waiter>, w: Waiter)
    requires i < |bs|
    ensures Queued(bs, w) + multiset(keep)[w] ==
            Queued(Extended(bs, i, to, keep), w) + multiset(Grown(bs, i, to).waiters)[w]
  {
    var g := Grown(bs, i, to);
    var j := if Reaches(bs, i, to) then i + 2 else i + 1;
    ReplaceQueued(bs, i, j, g.(waiters := keep), w);
    var mid := bs[i..j];
    assert mid[0] == bs[i];
    if Reaches(bs, i, to) {
      assert mid == [bs[i]] + [bs[i + 1]];
      QueuedAppend([bs[i]], [bs[i + 1]], w);
    }
  }

  lemma NoneIsLost(bs: seq<Block>, i: nat, to: nat, keep: seq<Waiter>, woken: seq<Waiter>)
    requires i < |bs|
    requires forall w :: multiset(Grown(bs, i, to).waiters)[w] == multiset(keep)[w] + multiset(woken)[w]
    ensures forall w :: Queued(bs, w) == Queued(Extended(bs, i, to, keep), w) + multiset(woken)[w]
  {
    forall w ensures Queued(bs, w) == Queued(Extended(bs, i, to, keep), w) + multiset(woken)[w] {
      GrownQueued(bs, i, to, keep, w);
    }
  }

  /** What a waiter gets out of a write. */
  function Deliver(w: Waiter, offset: nat, data: Bytes): Notice {
    if offset <= w.from < offset + |data| && w.length > 0 then
      var start := w.from - offset;
      var k := if w.length < |data| - start then w.length else |data| - start;
      Notice(w, Some(data[start..start + k]))
    else Notice(w, None)
  }

  /** A reader that a write up to a new end wakes gets bytes exactly if it asked for some of
      those written, and then all of them that it asked for; they are the origin's. */
  predicate Right(n: Notice, body: Bytes, offset: nat, to: nat) {
    if offset <= n.waiter.from < to <= |body| && n.waiter.length > 0 then
      var k := if n.waiter.from + n.waiter.length < to then n.waiter.from + n.waiter.length else to;
      n.bytes == Some(body[n.waiter.from..k])
    else n.bytes == None
  }

  function Waiters(notices: seq<Notice>): seq<Waiter> {
    seq(|notices|, i requires 0 <= i < |notices| => notices[i].waiter)
  }

  lemma DeliveryIsRight(w: Waiter, offset: nat, data: Bytes, body: Bytes)
    requires offset + |data| <= |body| && data == body[offset..offset + |data|]
    ensures Right(Deliver(w, offset, data), body, offset, offset + |data|)
  {
    var n := Deliver(w, offset, data);
    if n.bytes.Some? {
      SubSlice(body, offset, offset + |data|, w.from - offset, w.from - offset + |n.bytes.value|);
    }
  }

  /** The reader could go on. */
  ghost predicate Woken(n: Notice, b: Block, body: Bytes, offset: nat, to: nat) {
    Right(n, body, offset, to) && (n.waiter.from < b.to || b.writers == [])
  }

  lemma WaitersPush(notices: seq<Notice>, n: Notice)
    ensures Waiters(notices + [n]) == Waiters(notices) + [n.waiter]
  {
  }

  lemma SubSlice(s: Bytes, a: nat, b: nat, i: nat, j: nat)
    requires a <= b <= |s| && i <= j <= b - a
    ensures s[a..b][i..j] == s[a + i..a + j]
  {
    var mid := s[a..b];
    assert forall k | 0 <= k < j - i :: mid[i..j][k] == mid[i + k] == s[a + i + k] == s[a + i..a + j][k];
  }

  lemma NoneIsDropped(bs: seq<Block>, i: nat, b: Block, woken: seq<Waiter>)
    requires i < |bs| && forall w :: multiset(bs[i].waiters)[w] == multiset(b.waiters)[w] + multiset(woken)[w]
    ensures forall w :: Queued(bs, w) == Queued(Replace(bs, i, i + 1, b), w) + multiset(woken)[w]
  {
    forall w ensures Queued(bs, w) == Queued(Replace(bs, i, i + 1, b), w) + multiset(woken)[w] {
      ReplaceOneQueued(bs, i, b, w);
    }
  }

  lemma InsertedQueued(bs: seq<Block>, i: nat, b: Block)
    requires i <= |bs| && b.waiters == []
    ensures forall w :: Queued(Replace(bs, i, i, b), w) == Queued(bs, w)
  {
    forall w ensures Queued(Replace(bs, i, i, b), w) == Queued(bs, w) {
      ReplaceQueued(bs, i, i, b, w);
      assert bs[i..i] == [];
    }
  }

  lemma OneMoreQueued(bs: seq<Block>, i: nat, w: Waiter)
    requires i < |bs|
    ensures var b := bs[i].(waiters := bs[i].waiters + [w]);
            forall v :: Queued(Replace(bs, i, i + 1, b), v) == Queued(bs, v) + if v == w then 1 else 0
  {
    var b := bs[i].(waiters := bs[i].waiters + [w]);
    forall v ensures Queued(Replace(bs, i, i + 1, b), v) == Queued(bs, v) + if v == w then 1 else 0 {
      ReplaceOneQueued(bs, i, b, v);
      OneMoreWaiter(bs[i].waiters, w, v);
    }
  }

  lemma ReplaceOneQueued(bs: seq<Block>, i: nat, b: Block, w: Waiter)
    requires i < |bs|
    ensures Queued(Replace(bs, i, i + 1, b), w) == Queued(bs, w) + multiset(b.waiters)[w] - multiset(bs[i].waiters)[w]
  {
    ReplaceQueued(bs, i, i + 1, b, w);
    assert bs[i..i + 1] == [bs[i]];
    QueuedOne(bs[i], w);
  }

  lemma OneMoreWaiter(ws: seq<Waiter>, w: Waiter, v: Waiter)
    ensures multiset(ws + [w])[v] == multiset(ws)[v] + if v == w then 1 else 0
  {
  }

  predicate InRange(p: nat, from: nat, end: Option<nat>) {
    from <= p && (end.Some? ==> p <= end.value)
  }

  /** Every byte of the body that the range asks for is covered. */
  ghost predicate AllCovered(bs: seq<Block>, from: nat, end: Option<nat>, length: nat) {
    forall p: nat :: InRange(p, from, end) && p < length ==> Covered(bs, p)
  }

  /** The list without its first entry for a fiber. */
  function Without(fibers: seq<Fiber>, fiber: Fiber): seq<Fiber> {
    if fibers == [] then []
    else if fibers[0] == fiber then fibers[1..]
    else [fibers[0]] + Without(fibers[1..], fiber)
  }

  lemma {:induction false} WithoutIs(fibers: seq<Fiber>, fiber: Fiber)
    ensures fiber !in fibers ==> Without(fibers, fiber) == fibers
    ensures multiset(Without(fibers, fiber)) == multiset(fibers) - multiset{fiber}
  {
    if fibers != [] {
      assert fibers == [fibers[0]] + fibers[1..];
      WithoutIs(fibers[1..], fiber);
    }
  }

  ghost predicate Starts(bs: seq<Block>, x: nat) { exists i :: 0 <= i < |bs| && bs[i].from == x }

  /** The fiber is in charge of the block that knows x. */
  ghost predicate Fetches(bs: seq<Block>, x: nat, fiber: Fiber) {
    exists i :: 0 <= i < |bs| && bs[i].Knows(x) && bs[i].writers != [] && bs[i].writers[0] == fiber
  }

  /** The fiber has left the block that knows x, and if it was the last one there, the readers
      of that block are woken. */
  ghost predicate Leaves(bs: seq<Block>, bs': seq<Block>, x: nat, fiber: Fiber, woken: seq<Waiter>) {
    |bs'| == |bs| && forall i :: 0 <= i < |bs| && bs[i].Knows(x) ==>
      && multiset(bs'[i].writers) == multiset(bs[i].writers) - multiset{fiber}
      && woken == if fiber in bs[i].writers && bs'[i].writers == [] then bs[i].waiters else []
  }

  lemma LeavesAt(bs: seq<Block>, bs': seq<Block>, i: nat, x: nat, fiber: Fiber, woken: seq<Waiter>)
    requires |bs'| == |bs| && i < |bs| && forall k :: 0 <= k < |bs| && bs[k].Knows(x) ==> k == i
    requires bs'[i].writers == Without(bs[i].writers, fiber)
    requires woken == if fiber in bs[i].writers && bs'[i].writers == [] then bs[i].waiters else []
    ensures Leaves(bs, bs', x, fiber, woken)
  {
    WithoutIs(bs[i].writers, fiber);
  }

  /** The block that knows x has a body of that length from its first byte on. */
  ghost predicate Whole(bs: seq<Block>, x: nat, length: nat) {
    exists i :: 0 <= i < |bs| && bs[i].Knows(x) && bs[i].from == 0 && bs[i].to == length
  }

  class SharedObject {
    ghost const body: Bytes  // what the origin would send
    const contentLength: nat
    var blocks: seq<Block>
    var file: nat -> byte
    var complete: bool

    ghost predicate Valid()
      reads this
    {
      && contentLength == |body| && Sound(blocks, file, body)
      && (complete ==> forall p: nat :: p < |body| ==> Covered(blocks, p))
    }

    constructor (ghost body: Bytes, length: nat)
      requires length == |body|
      ensures Valid() && this.body == body && blocks == [] && !complete
    {
      this.body, contentLength, blocks, file, complete := body, length, [], (p: nat) => 0, false;
    }

    /** The block that knows an offset, or where it would stand. */
    method Find(x: nat) returns (found: bool, i: nat)
      requires Sound(blocks, file, body)
      ensures found == Known(blocks, x)
      ensures found ==> i < |blocks| && blocks[i].Knows(x)
      ensures !found ==> i <= |blocks| && (i > 0 ==> blocks[i - 1].to < x) && (i < |blocks| ==> x < blocks[i].from)
    {
      i := 0;
      while i < |blocks| && blocks[i].to < x
        invariant i <= |blocks|
        invariant forall k :: 0 <= k < i ==> blocks[k].to < x
      {
        i := i + 1;
      }
      found := i < |blocks| && blocks[i].from <= x;
      if !found && i < |blocks| {
        assert forall k :: i < k < |blocks| ==> blocks[i].to < blocks[k].from;
      }
    }

    /** All that is known stays known and all that is covered stays covered. */
    twostate predicate Grows()
      reads this
    {
      && (forall x: nat :: Known(old(blocks), x) ==> Known(blocks, x))
      && (forall p: nat :: Covered(old(blocks), p) ==> Covered(blocks, p))
    }

    /** Blocks i to j become one. */
    method Put(i: nat, j: nat, b: Block)
      requires Valid() && i <= j <= |blocks| && BlockOk(b, file, body)
      requires (i > 0 ==> blocks[i - 1].to < b.from) && (j < |blocks| ==> b.to < blocks[j].from)
      requires forall k :: i <= k < j ==> b.from <= blocks[k].from && blocks[k].to <= b.to
      modifies this`blocks
      ensures Valid() && Grows() && blocks == Replace(old(blocks), i, j, b)
      ensures forall p: nat :: Covered(blocks, p) ==> Covered(old(blocks), p) || b.Has(p)
      ensures forall p: nat :: b.Has(p) ==> Covered(blocks, p)
    {
      ReplaceIsSound(blocks, file, body, i, j, b);
      ReplaceCovers(blocks, i, j, b);
      blocks := Replace(blocks, i, j, b);
    }

    /** Block i changes, but not its bounds. */
    method Update(i: nat, b: Block)
      requires Valid() && i < |blocks| && BlockOk(b, file, body) && b.from == blocks[i].from && b.to == blocks[i].to
      modifies this`blocks
      ensures Valid() && SameBounds(old(blocks), blocks) && blocks == Replace(old(blocks), i, i + 1, b)
    {
      SameBoundsSound(blocks, i, b, file, body);
      SameBoundsCover(blocks, blocks[i := b]);
      blocks := blocks[i := b];
    }

    /** The block that knows an offset, made if there is none. */
    method Insert(x: nat) returns (i: nat)
      requires Valid() && x <= |body|
      modifies this`blocks
      ensures Valid() && Grows() && i < |blocks| && blocks[i].Knows(x)
      ensures forall p: nat :: Covered(blocks, p) ==> Covered(old(blocks), p)
      ensures Known(old(blocks), x) ==> blocks == old(blocks)
      ensures forall w :: Queued(blocks, w) == Queued(old(blocks), w)
    {
      var found;
      found, i := Find(x);
      if !found {
        InsertedQueued(blocks, i, Block(x, x, [], []));
        Put(i, i, Block(x, x, [], []));
      }
    }

    /** A fiber starts to fetch from an offset; it takes the place of the one in charge. */
    method OpenWrite(fiber: Fiber, from: nat)
      requires Valid() && from <= |body|
      modifies this`blocks
      ensures Valid() && Grows() && Fetches(blocks, from, fiber)
      ensures forall p: nat :: Covered(blocks, p) ==> Covered(old(blocks), p)
      ensures forall w :: Queued(blocks, w) == Queued(old(blocks), w)
    {
      var i := Insert(from);
      var b := blocks[i];
      var taken := b.(writers := [fiber] + if b.writers == [] then [] else b.writers[1..]);
      NoneIsDropped(blocks, i, taken, []);
      ghost var was := blocks;
      Update(i, taken);
      SameBoundsCover(was, blocks);
      assert blocks[i].Knows(from) && blocks[i].writers[0] == fiber;
    }

    /** Wakes the readers that can go on, and keeps the others. */
    static method Partition(b: Block, offset: nat, data: Bytes, ghost body: Bytes)
      returns (keep: seq<Waiter>, notices: seq<Notice>)
      requires offset + |data| <= |body| && data == body[offset..offset + |data|]
      ensures forall w <- keep :: w in b.waiters && w.from >= b.to && b.writers != []
      ensures forall k :: 0 <= k < |notices| ==> Right(notices[k], body, offset, offset + |data|)
      ensures forall k :: 0 <= k < |notices| ==> notices[k].waiter.from < b.to || b.writers == []
      ensures forall w :: multiset(b.waiters)[w] == multiset(keep)[w] + multiset(Waiters(notices))[w]
    {
      keep, notices := [], [];
      for k := 0 to |b.waiters|
        invariant forall w <- keep :: w in b.waiters && w.from >= b.to && b.writers != []
        invariant forall j :: 0 <= j < |notices| ==> Woken(notices[j], b, body, offset, offset + |data|)
        invariant multiset(b.waiters[..k]) == multiset(keep) + multiset(Waiters(notices))
      {
        var w := b.waiters[k];
        assert b.waiters[..k + 1] == b.waiters[..k] + [w];
        if w.from < b.to || b.writers == [] {
          var n := Deliver(w, offset, data);
          DeliveryIsRight(w, offset, data, body);
          WaitersPush(notices, n);
          notices := notices + [n];
        } else {
          keep := keep + [w];
        }
      }
      assert b.waiters[..|b.waiters|] == b.waiters;
    }

    /** Block i grows up to a new end, and over the next one if it reaches it. */
    method Grow(i: nat, offset: nat, to: nat, keep: seq<Waiter>)
      requires Valid() && i < |blocks| && blocks[i].Knows(offset) && blocks[i].to < to <= |body|
      requires forall p: nat :: blocks[i].to <= p < to ==> file(p) == body[p]
      requires var g := Grown(blocks, i, to);
               forall w <- keep :: w in g.waiters && w.from >= g.to && g.writers != []
      modifies this`blocks
      ensures Valid() && Grows() && blocks == Extended(old(blocks), i, to, keep)
      ensures forall p: nat ::
        Covered(blocks, p) <==> Covered(old(blocks), p) || offset <= p < Claimed(old(blocks), i, to)
    {
      ExtendIsSound(blocks, file, body, i, offset, to, keep);
      blocks := Extended(blocks, i, to, keep);
    }

    /** ... by data, and the readers that waited for it go on. */
    method Extend(i: nat, offset: nat, data: Bytes) returns (end: bool, notices: seq<Notice>)
      requires Valid() && i < |blocks| && blocks[i].Knows(offset) && blocks[i].to < offset + |data| <= |body|
      requires data == body[offset..offset + |data|]
      requires forall p: nat :: offset <= p < offset + |data| ==> file(p) == body[p]
      modifies this`blocks
      ensures Valid() && Grows()
      ensures forall p: nat ::
        Covered(blocks, p) <==> Covered(old(blocks), p) || offset <= p < Claimed(old(blocks), i, offset + |data|)
      ensures end == Reaches(old(blocks), i, offset + |data|)
      ensures forall f :: Fetching(blocks, f) <==> Fetching(old(blocks), f)
      ensures forall f :: Fetches(old(blocks), offset, f) ==> Fetches(blocks, offset, f)
      ensures forall k :: 0 <= k < |notices| ==> Right(notices[k], body, offset, offset + |data|)
      ensures forall w :: Queued(old(blocks), w) == Queued(blocks, w) + multiset(Waiters(notices))[w]
    {
      var to := offset + |data|;
      end := Reaches(blocks, i, to);
      var b := Grown(blocks, i, to);
      var keep;
      keep, notices := Partition(b, offset, data, body);
      NoneIsLost(blocks, i, to, keep, Waiters(notices));
      ExtendKeepsFetchers(blocks, i, to, keep);
      OnlyOneKnows(i, offset);
      Grow(i, offset, to, keep);
      assert blocks[i].Knows(offset);
    }

    /** A write extends the block it falls in, over the next one if it reaches it. No
        reader is forgotten, and none gets wrong bytes. */
    method Write(offset: nat, data: Bytes) returns (end: bool, notices: seq<Notice>)
      requires Valid() && Known(blocks, offset)
      requires offset + |data| <= |body| && data == body[offset..offset + |data|]
      modifies this`blocks, this`file
      ensures Valid() && Grows()
      ensures Adds(old(blocks), blocks, offset, offset + |data|)
      ensures !end ==> forall p: nat :: Covered(blocks, p) <==> Covered(old(blocks), p) || offset <= p < offset + |data|
      ensures forall f :: Fetching(blocks, f) <==> Fetching(old(blocks), f)
      ensures forall f :: Fetches(old(blocks), offset, f) ==> Fetches(blocks, offset, f)
      ensures forall k :: 0 <= k < |notices| ==> Right(notices[k], body, offset, offset + |data|)
      ensures forall w :: Queued(old(blocks), w) == Queued(blocks, w) + multiset(Waiters(notices))[w]
    {
      PatchIsSound(blocks, file, body, offset, data);
      file := Patch(file, offset, data);
      var _, i := Find(offset);
      OnlyOneKnows(i, offset);
      if offset + |data| <= blocks[i].to {
        assert forall p: nat :: offset <= p < offset + |data| ==> blocks[i].Has(p);
        return false, [];
      }
      end, notices := Extend(i, offset, data);
    }

    /** A gap between two neighbouring blocks has no bytes. */
    lemma GapIsFree(i: nat)
      requires Sound(blocks, file, body) && i < |blocks|
      ensures forall p: nat ::
        p >= blocks[i].to && (i + 1 < |blocks| ==> p < blocks[i + 1].from) ==> !Covered(blocks, p)
    {
      assert forall k :: 0 <= k < i ==> blocks[k].to < blocks[i].from;
      assert i + 1 < |blocks| ==> forall k :: i + 1 < k < |blocks| ==> blocks[i + 1].to < blocks[k].from;
      assert BlockOk(blocks[i], file, body);
      assert forall k :: 0 <= k < |blocks| ==> BlockOk(blocks[k], file, body);
    }

    /** Reads what the block has at an offset. */
    method ReadFile(i: nat, offset: nat, length: nat) returns (bytes: Bytes)
      requires Valid() && i < |blocks| && blocks[i].Has(offset)
      ensures |bytes| == (if length < blocks[i].to - offset then length else blocks[i].to - offset)
      ensures offset + |bytes| <= |body| && bytes == body[offset..offset + |bytes|]
    {
      var k: nat := if length < blocks[i].to - offset then length else blocks[i].to - offset;
      assert BlockOk(blocks[i], file, body);
      var f := file;
      bytes := seq(k, (n: nat) requires n < k => f(offset + n));
      forall n | 0 <= n < k ensures bytes[n] == body[offset + n] {
        assert blocks[i].Has(offset + n);
      }
    }

    /** A read at the end of block i, whose bytes it has all seen. */
    method ReadEnd(i: nat, fiber: Fiber, offset: nat, length: nat, mayFetch: bool) returns (r: Outcome)
      requires Valid() && i < |blocks| && blocks[i].to == offset
      modifies this`blocks
      ensures Valid() && Grows() && !r.Data? && !r.Failed?
      ensures forall p: nat :: Covered(blocks, p) ==> Covered(old(blocks), p)
      ensures r.NeedFetch? ==> !mayFetch && blocks == old(blocks)
      ensures r.Fetch? ==> mayFetch && r.from == offset && (r.end.Some? ==> offset <= r.end.value)
      ensures r.Fetch? ==> Fetches(blocks, offset, fiber)
      ensures r.Fetch? ==> forall p: nat :: offset <= p && (r.end.Some? ==> p <= r.end.value) ==> !Covered(blocks, p)
      ensures r.Fetch? && r.end.Some? ==> Starts(blocks, r.end.value + 1)
      ensures forall w :: Queued(blocks, w) ==
                Queued(old(blocks), w) + if r.Waiting? && w == Waiter(fiber, offset, length) then 1 else 0
    {
      var b := blocks[i];
      assert BlockOk(b, file, body);
      GapIsFree(i);
      ghost var was := blocks;
      if b.writers == [] {
        if !mayFetch { return NeedFetch; }
        Charge(i, fiber);
        SameBoundsCover(was, blocks);
        assert i + 1 < |blocks| ==> blocks[i + 1].from == was[i + 1].from && Starts(blocks, blocks[i + 1].from);
        return Fetch(offset, if i + 1 < |blocks| then Some(blocks[i + 1].from - 1) else None);
      }
      Enqueue(i, Waiter(fiber, offset, length));
      SameBoundsCover(was, blocks);
      return Waiting;
    }

    /** A fiber takes charge of a block that nobody fetches for. */
    method Charge(i: nat, fiber: Fiber)
      requires Valid() && i < |blocks| && blocks[i].writers == []
      modifies this`blocks
      ensures Valid() && SameBounds(old(blocks), blocks) && Fetches(blocks, blocks[i].to, fiber)
      ensures forall w :: Queued(blocks, w) == Queued(old(blocks), w)
    {
      var b := blocks[i];
      assert BlockOk(b, file, body);
      NoneIsDropped(blocks, i, b.(writers := [fiber]), []);
      Update(i, b.(writers := [fiber]));
      assert blocks[i].Knows(b.to) && blocks[i].writers[0] == fiber;
    }

    /** A reader waits at the end of a block that somebody fetches for. */
    method Enqueue(i: nat, w: Waiter)
      requires Valid() && i < |blocks| && blocks[i].writers != [] && w.from == blocks[i].to
      modifies this`blocks
      ensures Valid() && SameBounds(old(blocks), blocks)
      ensures forall v :: Queued(blocks, v) == Queued(old(blocks), v) + if v == w then 1 else 0
    {
      var b := blocks[i];
      assert BlockOk(b, file, body);
      OneMoreQueued(blocks, i, w);
      Update(i, b.(waiters := b.waiters + [w]));
    }

    /** A read gets the origin's bytes, or waits for somebody who fetches, or becomes the
        one who fetches the gap up to the next block, or is told to. It fails without the
        cache file, and if the file cannot be read. */
    method Read(fiber: Fiber, offset: nat, length: nat, mayFetch: bool, open: bool, readable: bool)
      returns (r: Outcome)
      requires Valid() && offset <= |body|
      modifies this`blocks
      ensures Valid() && Grows()
      ensures forall p: nat :: Covered(blocks, p) ==> Covered(old(blocks), p)
      ensures r.Failed? <==> !open || (!readable && Covered(old(blocks), offset))
      ensures r.Failed? ==> blocks == old(blocks)
      ensures r.Data? <==> open && readable && Covered(old(blocks), offset)
      ensures r.Data? ==> offset + |r.bytes| <= |body| && r.bytes == body[offset..offset + |r.bytes|]
      ensures r.Data? && length > 0 ==> 0 < |r.bytes| <= length
      ensures r.NeedFetch? ==> !mayFetch && blocks == old(blocks)
      ensures r.Fetch? ==> mayFetch && r.from == offset && (r.end.Some? ==> offset <= r.end.value)
      ensures r.Fetch? ==> Fetches(blocks, offset, fiber)
      ensures r.Fetch? ==> forall p: nat :: offset <= p && (r.end.Some? ==> p <= r.end.value) ==> !Covered(blocks, p)
      ensures r.Fetch? && r.end.Some? ==> Starts(blocks, r.end.value + 1)
      ensures forall w :: Queued(blocks, w) ==
                Queued(old(blocks), w) + if r.Waiting? && w == Waiter(fiber, offset, length) then 1 else 0
    {
      if !open { return Failed; }
      var found, i := Find(offset);
      if !found {
        assert !Covered(blocks, offset);
        if !mayFetch { return NeedFetch; }
        i := Insert(offset);
      }
      if offset < blocks[i].to {
        assert blocks[i].Has(offset);
        if !readable { return Failed; }
        var bytes := ReadFile(i, offset, length);
        assert Covered(blocks, offset);
        return Data(bytes);
      }
      GapIsFree(i);
      r := ReadEnd(i, fiber, offset, length, mayFetch);
    }

    /** A fiber leaves block i; the last one to leave wakes every reader that waits there. */
    method Leave(i: nat, fiber: Fiber) returns (woken: seq<Waiter>)
      requires Valid() && i < |blocks|
      modifies this`blocks
      ensures Valid() && SameBounds(old(blocks), blocks)
      ensures forall w :: Queued(old(blocks), w) == Queued(blocks, w) + multiset(woken)[w]
      ensures blocks[i].writers == Without(old(blocks)[i].writers, fiber)
      ensures woken == if fiber in old(blocks)[i].writers && blocks[i].writers == [] then old(blocks)[i].waiters else []
    {
      var b := blocks[i];
      var last := fiber in b.writers && Without(b.writers, fiber) == [];
      var rest := b.(writers := Without(b.writers, fiber), waiters := if last then [] else b.waiters);
      woken := if last then b.waiters else [];
      assert BlockOk(b, file, body);
      NoneIsDropped(blocks, i, rest, woken);
      Update(i, rest);
    }

    /** A fiber stops fetching; when its block is the whole body, the object is complete. */
    method CloseWrite(fiber: Fiber, from: nat) returns (woken: seq<Waiter>)
      requires Valid() && Known(blocks, from)
      modifies this`blocks, this`complete
      ensures Valid() && Grows() && (forall p: nat :: Covered(blocks, p) ==> Covered(old(blocks), p))
      ensures forall w :: Queued(old(blocks), w) == Queued(blocks, w) + multiset(woken)[w]
      ensures complete <==> old(complete) || Whole(blocks, from, |body|)
      ensures Leaves(old(blocks), blocks, from, fiber, woken)
    {
      var _, i := Find(from);
      ghost var was := blocks;
      OnlyOneKnows(i, from);
      woken := Leave(i, fiber);
      SameBoundsCover(was, blocks);
      LeavesAt(was, blocks, i, from, fiber, woken);
      OnlyOneKnows(i, from);
      if blocks[i].from == 0 && blocks[i].to >= contentLength {
        assert forall p: nat :: p < |body| ==> blocks[i].Has(p);
        complete := true;
      }
      assert BlockOk(blocks[i], file, body);
    }

    lemma OnlyOneKnows(i: nat, x: nat)
      requires Sound(blocks, file, body) && i < |blocks| && blocks[i].Knows(x)
      ensures forall k :: 0 <= k < |blocks| && blocks[k].Knows(x) ==> k == i
    {
    }

    /** A complete object is the origin's body. */
    lemma CompleteIsBody(p: nat)
      requires Valid() && complete && p < |body|
      ensures file(p) == body[p]
    {
      assert Covered(blocks, p);
      var i :| 0 <= i < |blocks| && blocks[i].Has(p);
      assert BlockOk(blocks[i], file, body);
    }

    /** Shortens a range so that it ends before the block at i. */
    method Clip(i: nat, end: Option<nat>) returns (clipped: bool, to: Option<nat>)
      requires i < |blocks| && blocks[i].from > 0
      ensures to == if clipped then Some(blocks[i].from - 1) else end
      ensures clipped == (end.None? || blocks[i].from <= end.value)
    {
      if end.None? || blocks[i].from <= end.value {
        return true, Some(blocks[i].from - 1);
      }
      return false, end;
    }

    /** What an answer means for a range: "all" if and only if every byte of it is covered, if
        it begins in the body; otherwise the first gap in it. */
    ghost predicate Satisfies(s: Satisfy, from: nat, end: Option<nat>, start: nat, to: Option<nat>)
      reads this
    {
      && (s.Everything? ==> AllCovered(blocks, from, end, |body|))
      && (from < |body| && InRange(from, from, end) && AllCovered(blocks, from, end, |body|) ==> s.Everything?)
      && (s.Part? ==> from <= start && forall p: nat :: from <= p < start ==> Covered(blocks, p))
      && (!s.Everything? ==> forall p: nat :: InRange(p, start, to) ==> !Covered(blocks, p))
      && (!s.Everything? ==> to == end || (to.Some? && Starts(blocks, to.value + 1)))
      && (s.Nothing? ==> start == from && to == end)
    }

    /** can_satisfy: a request without a range is served whole only from a complete object. */
    method CanSatisfy(range: Option<(nat, Option<nat>)>) returns (s: Satisfy, start: nat, to: Option<nat>)
      requires Valid()
      ensures range.Some? ==> Satisfies(s, range.value.0, range.value.1, start, to)
      ensures range.None? ==> s == if complete then Everything else Part
      ensures range.None? && s.Everything? ==> AllCovered(blocks, 0, None, |body|)
    {
      if range.None? { return if complete then Everything else Part, 0, None; }
      s, start, to := SatisfyRange(range.value.0, range.value.1);
    }

    /** Whether a range can be served from the file, and if only part of it can, which part
        is to be fetched. */
    method SatisfyRange(from: nat, end: Option<nat>) returns (s: Satisfy, start: nat, to: Option<nat>)
      requires Valid()
      ensures Satisfies(s, from, end, start, to)
    {
      if complete { return Everything, from, end; }
      var found, i := Find(from);
      if found {
        s, start, to := SatisfyFrom(i, from, end);
      } else {
        s, start, to := SatisfyGap(i, from, end);
      }
    }

    /** A block knows the start of the range. */
    method SatisfyFrom(i: nat, from: nat, end: Option<nat>) returns (s: Satisfy, start: nat, to: Option<nat>)
      requires Valid() && i < |blocks| && blocks[i].Knows(from)
      ensures Satisfies(s, from, end, start, to)
    {
      var b := blocks[i];
      assert forall p: nat :: from <= p < b.to ==> blocks[i].Has(p);
      if from < b.to && (b.to >= contentLength || (end.Some? && end.value < b.to)) {
        return Everything, from, end;
      }
      GapIsFree(i);
      assert !Covered(blocks, b.to);
      start, to := b.to, end;
      if i + 1 < |blocks| {
        var clipped;
        clipped, to := Clip(i + 1, end);
        assert Starts(blocks, blocks[i + 1].from);
      }
      return Part, start, to;
    }

    /** No block does, and block i is the next one. */
    method SatisfyGap(i: nat, from: nat, end: Option<nat>) returns (s: Satisfy, start: nat, to: Option<nat>)
      requires Valid() && i <= |blocks|
      requires (i > 0 ==> blocks[i - 1].to < from) && (i < |blocks| ==> from < blocks[i].from)
      ensures Satisfies(s, from, end, start, to)
    {
      BeforeIsFree(i, from);
      assert !Covered(blocks, from);
      if i < |blocks| {
        var clipped;
        clipped, to := Clip(i, end);
        assert Starts(blocks, blocks[i].from);
        return if clipped then Part else Nothing, from, to;
      }
      return Nothing, from, end;
    }

    /** An offset that no block knows has a gap after it, up to the next block. */
    lemma BeforeIsFree(i: nat, x: nat)
      requires Sound(blocks, file, body) && i <= |blocks|
      requires (i > 0 ==> blocks[i - 1].to < x) && (i < |blocks| ==> x < blocks[i].from)
      ensures forall p: nat :: x <= p && (i < |blocks| ==> p < blocks[i].from) ==> !Covered(blocks, p)
    {
      if i > 0 { GapIsFree(i - 1); }
      else {
        assert forall k :: 0 < k < |blocks| ==> blocks[0].to < blocks[k].from;
        assert forall k :: 0 <= k < |blocks| ==> BlockOk(blocks[k], file, body);
      }
    }
  }
}
