/** The object-cache index: a search tree of chains of cached objects with running
    size counters.

    Every stored object of a URL carries the same vary key, and an object whose key was
    overwritten is dead, so a lookup never returns a variant selected by an older key. */
module ObjectIndex {
  import opened Wire
  import opened SearchTree

  /** strcasecmp compares folded strings; an absent key equals only an absent key. */
  function Fold(k: Option<string>): Option<string> {
    match k
    case None => None
    case Some(s) => Some(Lower(s))
  }

  /** What cmp_vary_key calls equal. */
  ghost predicate SameKey(a: Option<string>, b: Option<string>) {
    (a.None? && b.None?) || (a.Some? && b.Some? && SameText(a.value, b.value))
  }

  lemma FoldIsKey(a: Option<string>, b: Option<string>)
    ensures Fold(a) == Fold(b) <==> SameKey(a, b)
  {
    if a.Some? && b.Some? { LowerIsText(a.value, b.value); }
  }

  /** The four size counters of the index. */
  datatype Counter = Mem | MemCount | Disk | DiskCount

  class HttpObject {
    const uk: Key
    const acceptEncoding: nat
    const encoding: nat
    const internal: bool
    const headSize: nat
    ghost const storedKey: Option<string>  // the vary key that uk.val was built with
    var hasVary: bool                      // uk.vary is not NULL
    var varyKey: Option<string>
    var dead: bool
    var lastVerified: nat
    var inMem: bool
    var inDisk: bool
    var memoryBody: bool
    var contentLength: nat
    var refs: nat

    /** A response is created live, with a vary key and value that are both present or
        both absent. */
    constructor (uk: Key, varyKey: Option<string>, acceptEncoding: nat, encoding: nat,
                 internal: bool, headSize: nat, contentLength: nat, lastVerified: nat)
      requires varyKey.Some? <==> uk.val.Some?
      requires headSize > 0
      ensures this.uk == uk && this.varyKey == varyKey && this.storedKey == varyKey
      ensures this.acceptEncoding == acceptEncoding && this.encoding == encoding
      ensures this.internal == internal && this.headSize == headSize
      ensures this.contentLength == contentLength && this.lastVerified == lastVerified
      ensures !dead && refs == 1 && inMem && !inDisk && memoryBody && Coherent()
    {
      this.uk, this.varyKey, this.storedKey := uk, varyKey, varyKey;
      this.acceptEncoding, this.encoding, this.internal := acceptEncoding, encoding, internal;
      this.headSize, this.contentLength, this.lastVerified := headSize, contentLength, lastVerified;
      hasVary := varyKey.Some?;
      dead, refs, inMem, inDisk, memoryBody := false, 1, true, false, true;
    }

    function MemorySize(): nat reads `memoryBody, `contentLength {
      headSize + if memoryBody then contentLength else 0
    }

    function DiskSize(): nat reads `contentLength {
      headSize + contentLength
    }

    /** What CountSize adds to counter w for this object. */
    function Share(w: Counter): nat reads `inMem, `inDisk, `memoryBody, `contentLength {
      match w
      case Mem => if inMem then MemorySize() else 0
      case MemCount => if inMem then 1 else 0
      case Disk => if inDisk then DiskSize() else 0
      case DiskCount => if inDisk then 1 else 0
    }

    /** A live object still has the vary key its value was built with. */
    ghost predicate Coherent() reads `hasVary, `varyKey, `dead {
      && (varyKey.Some? ==> hasVary)
      && headSize > 0
      && (!dead ==> Fold(varyKey) == Fold(storedKey) && (varyKey.Some? <==> uk.val.Some?))
    }
  }

  type Chain = seq<HttpObject>

  function ObjSet(c: Chain): set<HttpObject> { set o | o in c }

  ghost function Members(es: seq<Entry<Chain>>): set<HttpObject> {
    set i, o | 0 <= i < |es| && o in es[i].data :: o
  }

  ghost predicate Distinct(c: Chain) {
    forall i, j :: 0 <= i < j < |c| ==> c[i] != c[j]
  }

  /** The tree is ordered and each node holds a non-empty chain of distinct objects that
      all have the node's key. */
  ghost predicate Shaped(es: seq<Entry<Chain>>) {
    && Sorted(es)
    && forall i | 0 <= i < |es| ::
      es[i].data != [] && Distinct(es[i].data) && forall o <- es[i].data :: o.uk == es[i].key
  }

  /** Objects are coherent and have the vary keys listed for their URLs. */
  ghost predicate Agree(objects: set<HttpObject>, current: map<string, Option<string>>)
    reads objects`hasVary, objects`varyKey, objects`dead
  {
    forall o <- objects ::
      o.Coherent() && o.uk.url in current && Fold(o.varyKey) == current[o.uk.url]
  }

  lemma AgreeAdd(objects: set<HttpObject>, current: map<string, Option<string>>, obj: HttpObject)
    requires Agree(objects, current) && obj.Coherent()
    requires obj.uk.url in current && current[obj.uk.url] == Fold(obj.varyKey)
    ensures Agree(objects + {obj}, current)
  {
  }

  /** What counter w should read for a set of objects. */
  ghost function Sum(s: set<HttpObject>, w: Counter): nat
    reads s`inMem, s`inDisk, s`memoryBody, s`contentLength
  {
    if s == {} then 0 else var o :| o in s; o.Share(w) + Sum(s - {o}, w)
  }

  lemma {:induction false} SumSplit(s: set<HttpObject>, x: HttpObject, w: Counter)
    requires x in s
    ensures Sum(s, w) == x.Share(w) + Sum(s - {x}, w)
  {
    var o :| o in s && Sum(s, w) == o.Share(w) + Sum(s - {o}, w);
    if o != x {
      SumSplit(s - {o}, x, w);
      SumSplit(s - {x}, o, w);
      assert s - {o} - {x} == s - {x} - {o};
    }
  }

  /** One object's share of the counters. */
  lemma Shares(s: set<HttpObject>, x: HttpObject)
    requires x in s
    ensures Sum(s, Mem) == x.Share(Mem) + Sum(s - {x}, Mem)
    ensures Sum(s, MemCount) == x.Share(MemCount) + Sum(s - {x}, MemCount)
    ensures Sum(s, Disk) == x.Share(Disk) + Sum(s - {x}, Disk)
    ensures Sum(s, DiskCount) == x.Share(DiskCount) + Sum(s - {x}, DiskCount)
  {
    SumSplit(s, x, Mem);
    SumSplit(s, x, MemCount);
    SumSplit(s, x, Disk);
    SumSplit(s, x, DiskCount);
  }

  ghost predicate InRange(es: seq<Entry<Chain>>, i: nat, j: nat, o: HttpObject)
    requires i <= j <= |es|
  {
    exists n | i <= n < j :: o in es[n].data
  }

  /** One more node adds its chain to a range, and nothing of it was there before. */
  lemma RangeStep(es: seq<Entry<Chain>>, i: nat, j: nat)
    requires Shaped(es) && i <= j < |es|
    ensures ObjSet(es[j].data) <= Members(es)
    ensures forall o <- Members(es) :: InRange(es, i, j + 1, o) <==> InRange(es, i, j, o) || o in es[j].data
    ensures forall o <- es[j].data :: !InRange(es, i, j, o)
  {
    ChainOfKey(es, j);
  }

  lemma JoinDistinct(a: Chain, b: Chain)
    requires Distinct(a) && Distinct(b) && forall o <- b :: o !in a
    ensures Distinct(a + b)
  {
    forall i, j | 0 <= i < j < |a + b| ensures (a + b)[i] != (a + b)[j] {
      if i < |a| <= j { assert a[i] in a && b[j - |a|] in b; }
    }
  }

  /** What a purge covers is contiguous in rb_next order. */
  lemma CoveredRange(es: seq<Entry<Chain>>, i: nat, j: nat, url: string, wide: bool)
    requires Sorted(es) && i < j <= |es| && Covers(url, es[i].key.url, wide)
    requires i > 0 ==> !Covers(url, es[i - 1].key.url, wide)
    requires j < |es| ==> !Covers(url, es[j].key.url, wide)
    requires forall n | i <= n < j :: Covers(url, es[n].key.url, wide)
    requires forall n | 0 <= n < |es| :: forall o <- es[n].data :: o.uk == es[n].key
    ensures forall o <- Members(es) :: InRange(es, i, j, o) <==> Covers(url, o.uk.url, wide)
  {
    forall n | 0 <= n < i ensures !Covers(url, es[n].key.url, wide) {
      NotBetween(es, n, i - 1, i, url, wide);
    }
    forall n | j <= n < |es| ensures !Covers(url, es[n].key.url, wide) {
      NotBetween(es, i, j, n, url, wide);
    }
  }

  lemma NotBetween(es: seq<Entry<Chain>>, a: nat, b: nat, c: nat, url: string, wide: bool)
    requires Sorted(es) && a <= b <= c < |es|
    requires !Covers(url, es[b].key.url, wide)
    ensures !(Covers(url, es[a].key.url, wide) && Covers(url, es[c].key.url, wide))
  {
    PurgeCmpCovers(url, es[a].key.url, wide);
    PurgeCmpCovers(url, es[b].key.url, wide);
    PurgeCmpCovers(url, es[c].key.url, wide);
    if a < b { PurgeCmpMonotone(url, es[a].key, es[b].key, wide); }
    if b < c { PurgeCmpMonotone(url, es[b].key, es[c].key, wide); }
  }

  /** The vary value of a request under a key. */
  function Built(key: Option<string>, build: string -> Option<string>): Option<string> {
    if key.None? then None else build(key.value)
  }

  lemma NoUrlNoObject(es: seq<Entry<Chain>>, url: string)
    requires Shaped(es) && NoUrl(es, url)
    ensures forall o <- Members(es) :: o.uk.url != url
  {
    forall o <- Members(es) ensures o.uk.url != url {
      var n :| 0 <= n < |es| && o in es[n].data;
      assert es[n] in es;
    }
  }

  /** What a lookup asks for; an odd minimum verification time kills older objects. */
  datatype Request = Request(url: string, internal: bool, minVerified: nat, noDisk: bool)

  predicate Stale(o: HttpObject, rq: Request) reads o`lastVerified {
    rq.minVerified > 0 && o.lastVerified < rq.minVerified
  }

  predicate Eligible(o: HttpObject, rq: Request, accepts: nat -> bool)
    reads o`dead, o`lastVerified, o`memoryBody
  {
    && !o.dead
    && !(Stale(o, rq) && rq.minVerified % 2 == 1)
    && rq.internal == o.internal && accepts(o.encoding) && (!rq.noDisk || o.memoryBody)
  }

  /** How scanning an object changes it. */
  twostate predicate Aged(o: HttpObject, rq: Request) reads o`dead, o`lastVerified {
    && o.dead == (old(o.dead) || (old(Stale(o, rq)) && rq.minVerified % 2 == 1))
    && o.lastVerified == if !o.dead && old(Stale(o, rq)) then 0 else old(o.lastVerified)
  }

  predicate Side(i: int, n: int, forward: bool) { if forward then i < n else n < i }

  predicate Between(i: int, n: int, j: int) { i < n < j || j < n < i }

  /** A search that stops at a node has reached all stored objects of the key, and one
      that runs off the tree shows there are none. */
  lemma NodeOf(t: Tree<Chain>, k: Key)
    requires Shaped(InOrder(t))
    ensures
      var es, i, n := InOrder(t), FindRank(t, k), FindNode(t, k);
      if n.Nil? then forall o <- Members(es) :: o.uk != k
      else n.key == k && i < |es| && es[i] == Entry(k, n.data) && forall o <- Members(es) :: o.uk == k <==> o in n.data
  {
    FindNodeCorrect(t, k);
    FindRankCorrect(t, k);
    if FindNode(t, k).Node? { ChainOfKey(InOrder(t), FindRank(t, k)); }
  }

  lemma UrlIsMet(t: Tree<Chain>, obj: HttpObject)
    requires Shaped(InOrder(t)) && obj in Members(InOrder(t))
    ensures FirstMatch(t, obj.uk).Node?
  {
    FirstMatchRank(t, obj.uk);
    var n :| 0 <= n < |InOrder(t)| && obj in InOrder(t)[n].data;
    assert InOrder(t)[n].key.url == obj.uk.url;
  }

  ghost predicate Rewritten(o: HttpObject, key: Option<string>)
    reads o`dead, o`varyKey, o`hasVary
  {
    o.dead && o.varyKey == key && o.hasVary
  }

  twostate predicate Untouched(o: HttpObject)
    reads o`dead, o`varyKey, o`hasVary
  {
    o.dead == old(o.dead) && o.varyKey == old(o.varyKey) && o.hasVary == old(o.hasVary)
  }

  /** The chain at j holds every stored object of its key. */
  lemma ChainOfKey(es: seq<Entry<Chain>>, j: nat)
    requires Shaped(es) && j < |es|
    ensures forall o <- Members(es) :: o.uk == es[j].key <==> o in es[j].data
    ensures ObjSet(es[j].data) <= Members(es)
    ensures forall n | 0 <= n < |es| && n != j :: es[n].key != es[j].key
  {
    forall n | 0 <= n < |es| && n != j ensures es[n].key != es[j].key {
      KeyCmpOrder(es[n].key, es[j].key);
    }
  }

  /** The multimap that the tree stands for: the chain stored under k, newest first. */
  ghost function ChainAt(es: seq<Entry<Chain>>, k: Key): Chain {
    if exists i :: 0 <= i < |es| && es[i].key == k
    then var i :| 0 <= i < |es| && es[i].key == k; es[i].data
    else []
  }

  lemma ChainAtIndex(es: seq<Entry<Chain>>, i: nat)
    requires DistinctKeys(es) && i < |es|
    ensures ChainAt(es, es[i].key) == es[i].data
  {
  }

  /** obj joins the front of the chain of its key; every other chain stays. */
  ghost predicate Added(es: seq<Entry<Chain>>, es': seq<Entry<Chain>>, obj: HttpObject) {
    && Shaped(es')
    && Members(es') == Members(es) + {obj}
    && forall k :: ChainAt(es', k) == if k == obj.uk then [obj] + ChainAt(es, k) else ChainAt(es, k)
  }

  lemma AddToChain(es: seq<Entry<Chain>>, i: nat, obj: HttpObject)
    requires Shaped(es) && i < |es| && es[i].key == obj.uk && obj !in Members(es)
    ensures Added(es, es[i := Entry(obj.uk, [obj] + es[i].data)], obj)
  {
    var x := Entry(obj.uk, [obj] + es[i].data);
    var es' := es[i := x];
    SortedUpdate(es, i, x.data);
    assert forall o <- es[i].data :: o in Members(es);
    assert Distinct(x.data);
    assert Members(es') == Members(es) + {obj} by {
      assert obj in es'[i].data;
      assert forall o, n | 0 <= n < |es| && o in es[n].data :: o in es'[n].data;
    }
    forall k ensures ChainAt(es', k) == if k == obj.uk then [obj] + ChainAt(es, k) else ChainAt(es, k) {
      SortedDistinct(es);
      SameChain(es, x, i, k);
    }
  }

  /** Replacing the chain at i changes what its key maps to and nothing else. */
  lemma SameChain(es: seq<Entry<Chain>>, x: Entry<Chain>, i: nat, k: Key)
    requires DistinctKeys(es) && i < |es| && es[i].key == x.key
    ensures ChainAt(es[i := x], k) == if k == x.key then x.data else ChainAt(es, k)
    ensures k == x.key ==> ChainAt(es, k) == es[i].data
  {
    var es' := es[i := x];
    assert forall n | 0 <= n < |es| :: es'[n].key == es[n].key;
    ChainAtIndex(es, i);
    ChainAtIndex(es', i);
    if n :| 0 <= n < |es| && es[n].key == k {
      ChainAtIndex(es, n);
      ChainAtIndex(es', n);
    }
  }

  lemma NewShape(es: seq<Entry<Chain>>, es': seq<Entry<Chain>>, i: nat, obj: HttpObject)
    requires Shaped(es) && Sorted(es') && OneMore(es, es', i) && es'[i] == Entry(obj.uk, [obj])
    ensures Shaped(es')
  {
    assert forall n | 0 <= n < |es'| && n != i :: es'[n] == es[if n < i then n else n - 1];
  }

  lemma NewMember(es: seq<Entry<Chain>>, es': seq<Entry<Chain>>, i: nat, obj: HttpObject)
    requires OneMore(es, es', i) && es'[i].data == [obj]
    ensures Members(es') == Members(es) + {obj}
  {
    DropMembers(es, es', i);
  }

  lemma AddNode(lo: seq<Entry<Chain>>, hi: seq<Entry<Chain>>, obj: HttpObject)
    requires Shaped(lo + hi)
    requires forall e <- lo :: KeyCmp(e.key, obj.uk) < 0
    requires forall e <- hi :: KeyCmp(obj.uk, e.key) < 0
    ensures Added(lo + hi, lo + [Entry(obj.uk, [obj])] + hi, obj)
  {
    var es, x := lo + hi, Entry(obj.uk, [obj]);
    var es' := lo + [x] + hi;
    assert OneMore(es, es', |lo|);
    SortedInsert(lo, x, hi);
    NewShape(es, es', |lo|, obj);
    NewMember(es, es', |lo|, obj);
    NewChain(es, es', |lo|, obj);
  }

  lemma NewChain(es: seq<Entry<Chain>>, es': seq<Entry<Chain>>, i: nat, obj: HttpObject)
    requires Sorted(es') && OneMore(es, es', i) && es'[i] == Entry(obj.uk, [obj])
    ensures forall k :: ChainAt(es', k) == if k == obj.uk then [obj] + ChainAt(es, k) else ChainAt(es, k)
  {
    SortedDistinct(es');
    forall k ensures ChainAt(es', k) == if k == obj.uk then [obj] + ChainAt(es, k) else ChainAt(es, k) {
      DropNode(es, es', i, k);
    }
  }

  /** es' has one node more than es, at i. */
  ghost predicate OneMore(es: seq<Entry<Chain>>, es': seq<Entry<Chain>>, i: nat) {
    && i < |es'| == |es| + 1
    && (forall n | 0 <= n < i :: es[n] == es'[n])
    && (forall n | i <= n < |es| :: es[n] == es'[n + 1])
  }

  lemma DropMembers(es: seq<Entry<Chain>>, es': seq<Entry<Chain>>, i: nat)
    requires OneMore(es, es', i)
    ensures Members(es') == Members(es) + ObjSet(es'[i].data)
  {
    forall o <- Members(es') ensures o in Members(es) || o in es'[i].data {
      var n :| 0 <= n < |es'| && o in es'[n].data;
      if n != i { assert o in es[if n < i then n else n - 1].data; }
    }
  }

  /** Without the node at i, only its key maps to something else. */
  lemma DropNode(es: seq<Entry<Chain>>, es': seq<Entry<Chain>>, i: nat, k: Key)
    requires DistinctKeys(es') && OneMore(es, es', i)
    ensures ChainAt(es', k) == if k == es'[i].key then es'[i].data else ChainAt(es, k)
    ensures k == es'[i].key ==> ChainAt(es, k) == []
  {
    ChainAtIndex(es', i);
    if n :| 0 <= n < |es'| && es'[n].key == k && n != i {
      var m := if n < i then n else n - 1;
      assert es[m] == es'[n];
      ChainAtIndex(es, m);
      ChainAtIndex(es', n);
    } else {
      assert forall n | 0 <= n < |es| :: es[n].key == es'[if n < i then n else n + 1].key;
    }
  }

  lemma {:induction false} SomeTree(es: seq<Entry<Chain>>)
    ensures exists t :: InOrder(t) == es
  {
    if es == [] {
      assert InOrder<Chain>(Nil) == es;
    } else {
      SomeTree(es[1..]);
      var t :| InOrder(t) == es[1..];
      assert InOrder(Node(Nil, es[0].key, es[0].data, t)) == es;
    }
  }

  ghost function SetAt(es: seq<Entry<Chain>>, i: nat, k: Key, rest: Chain): seq<Entry<Chain>>
    requires i < |es|
  {
    if rest != [] then es[i := Entry(k, rest)] else es[..i] + es[i + 1..]
  }

  ghost function Without(c: Chain, o: HttpObject): Chain {
    if c == [] then [] else if c[0] == o then c[1..] else [c[0]] + Without(c[1..], o)
  }

  lemma {:induction false} WithoutIndex(c: Chain, o: HttpObject, j: nat)
    requires j < |c| && c[j] == o && o !in c[..j]
    ensures Without(c, o) == c[..j] + c[j + 1..]
  {
    if j > 0 {
      assert c[..j] == [c[0]] + c[1..][..j - 1];
      WithoutIndex(c[1..], o, j - 1);
    }
  }

  /** obj leaves the chain of its key; every other chain stays. */
  ghost predicate Removed(es: seq<Entry<Chain>>, es': seq<Entry<Chain>>, obj: HttpObject) {
    && Shaped(es')
    && Members(es') == Members(es) - {obj}
    && forall k :: ChainAt(es', k) == if k == obj.uk then Without(ChainAt(es, k), obj) else ChainAt(es, k)
  }

  lemma ChainRemove(c: Chain, j: nat)
    requires Distinct(c) && j < |c|
    ensures Distinct(c[..j] + c[j + 1..])
    ensures forall o :: o in c[..j] + c[j + 1..] <==> o in c && o != c[j]
  {
    var rest := c[..j] + c[j + 1..];
    assert forall n | 0 <= n < |rest| :: rest[n] == c[if n < j then n else n + 1];
    forall o | o in c && o != c[j] ensures o in rest {
      var n :| 0 <= n < |c| && c[n] == o;
      assert rest[if n < j then n else n - 1] == o;
    }
  }

  lemma RemoveFromChain(es: seq<Entry<Chain>>, i: nat, obj: HttpObject, rest: Chain)
    requires Shaped(es) && i < |es| && es[i].key == obj.uk && obj in es[i].data
    requires rest != [] && Distinct(rest) && rest == Without(es[i].data, obj)
    requires forall o :: o in rest <==> o in es[i].data && o != obj
    ensures Removed(es, es[i := Entry(obj.uk, rest)], obj)
  {
    var es' := es[i := Entry(obj.uk, rest)];
    SortedUpdate(es, i, rest);
    ChainOfKey(es, i);
    assert forall n | 0 <= n < |es| && n != i :: es'[n] == es[n];
    assert Members(es') == Members(es) - {obj} by {
      forall o <- Members(es) - {obj} ensures o in Members(es') {
        var n :| 0 <= n < |es| && o in es[n].data;
        assert o in es'[n].data;
      }
    }
    forall k ensures ChainAt(es', k) == if k == obj.uk then Without(ChainAt(es, k), obj) else ChainAt(es, k) {
      SortedDistinct(es);
      SameChain(es, Entry(obj.uk, rest), i, k);
    }
  }

  lemma RemoveNode(es: seq<Entry<Chain>>, es': seq<Entry<Chain>>, i: nat, obj: HttpObject)
    requires Shaped(es) && Sorted(es') && OneMore(es', es, i) && es[i] == Entry(obj.uk, [obj])
    ensures Removed(es, es', obj)
  {
    assert forall n | 0 <= n < |es'| :: es'[n] == es[if n < i then n else n + 1];
    assert Members(es') == Members(es) - {obj} by {
      DropMembers(es', es, i);
      ChainOfKey(es, i);
    }
    forall k ensures ChainAt(es', k) == if k == obj.uk then Without(ChainAt(es, k), obj) else ChainAt(es, k) {
      SortedDistinct(es);
      DropNode(es', es, i, k);
    }
  }

  /** What is left of a chain without its object j stands for the multimap without it. */
  lemma Unlinked(es: seq<Entry<Chain>>, i: nat, obj: HttpObject, j: nat, rest: Chain)
    requires Shaped(es) && i < |es| && es[i].key == obj.uk
    requires j < |es[i].data| && es[i].data[j] == obj && obj !in es[i].data[..j]
    requires rest == es[i].data[..j] + es[i].data[j + 1..]
    ensures Removed(es, SetAt(es, i, obj.uk, rest), obj)
  {
    ChainRemove(es[i].data, j);
    WithoutIndex(es[i].data, obj, j);
    if rest != [] {
      RemoveFromChain(es, i, obj, rest);
    } else {
      SortedRemove(es, i);
      assert es[i].data == [obj];
      RemoveNode(es, es[..i] + es[i + 1..], i, obj);
    }
  }

  lemma {:induction false} SizesCoverCounts(s: set<HttpObject>)
    requires forall o <- s :: o.headSize > 0
    ensures Sum(s, Mem) >= Sum(s, MemCount) && Sum(s, Disk) >= Sum(s, DiskCount)
  {
    if s != {} {
      var o :| o in s;
      SizesCoverCounts(s - {o});
      Shares(s, o);
    }
  }

  class ObjectHash {
    var nodes: Tree<Chain>
    var memSize: int
    var memCount: int
    var diskSize: int
    var diskCount: int
    ghost var objects: set<HttpObject>              // every stored object
    ghost var current: map<string, Option<string>>  // folded vary key of each stored URL

    ghost predicate Counted()
      reads `objects, `memSize, `memCount, `diskSize, `diskCount
      reads objects`inMem, objects`inDisk, objects`memoryBody, objects`contentLength
    {
      && memSize == Sum(objects, Mem) && memCount == Sum(objects, MemCount)
      && diskSize == Sum(objects, Disk) && diskCount == Sum(objects, DiskCount)
    }

    /** One vary key per URL. */
    ghost predicate KeysAgree()
      reads `objects, `current, objects`hasVary, objects`varyKey, objects`dead
    {
      Agree(objects, current)
    }

    ghost predicate Valid()
      reads this, objects`hasVary, objects`varyKey, objects`dead
      reads objects`inMem, objects`inDisk, objects`memoryBody, objects`contentLength
    {
      && Shaped(InOrder(nodes))
      && objects == Members(InOrder(nodes))
      && KeysAgree()
      && Counted()
    }

    constructor ()
      ensures Valid() && objects == {}
    {
      nodes := Nil;
      memSize, memCount, diskSize, diskCount := 0, 0, 0, 0;
      objects, current := {}, map[];
    }

    /** Descends from start; also returns the first node met with k's URL and where both
        lie in rb_next order. */
    static method Find(k: Key, start: Tree<Chain>)
      returns (node: Tree<Chain>, rank: nat, first: Tree<Chain>, firstRank: nat)
      ensures node == FindNode(start, k) && (node.Node? ==> rank == FindRank(start, k))
      ensures first == FirstMatch(start, k)
      ensures first.Node? ==> firstRank == MatchStart(start, k) + |InOrder(first.left)|
    {
      node, rank, first, firstRank := start, 0, Nil, 0;
      while node.Node?
        invariant FindNode(node, k) == FindNode(start, k)
        invariant rank + FindRank(node, k) == FindRank(start, k)
        invariant first.Nil? ==>
          FirstMatch(node, k) == FirstMatch(start, k) &&
          rank + MatchStart(node, k) == MatchStart(start, k)
        invariant first.Node? ==>
          first == FirstMatch(start, k) &&
          firstRank == MatchStart(start, k) + |InOrder(first.left)|
        decreases node
      {
        if first.Nil? && StrCmp(k.url, node.key.url) == 0 {
          first, firstRank := node, rank + |InOrder(node.left)|;
        }
        var c := KeyCmp(k, node.key);
        if c < 0 {
          node := node.left;
        } else if c > 0 {
          rank := rank + |InOrder(node.left)| + 1;
          node := node.right;
        } else {
          rank := rank + |InOrder(node.left)|;
          return;
        }
      }
    }

    /** update_obj_vary_key: kills a chain and overwrites its vary keys. The key may be
        erased only where there is one to erase. */
    static method UpdateChain(chain: Chain, key: Option<string>)
      requires key.None? ==> forall o <- chain :: o.hasVary
      modifies ObjSet(chain)`dead, ObjSet(chain)`varyKey, ObjSet(chain)`hasVary
      ensures forall o <- chain :: o.dead && o.varyKey == key && o.hasVary
    {
      for i := 0 to |chain|
        invariant forall o <- chain[..i] :: o.dead && o.varyKey == key && o.hasVary
        invariant key.None? ==> forall o <- chain :: o.hasVary
      {
        var o := chain[i];
        o.dead, o.varyKey, o.hasVary := true, key, true;
      }
    }

    /** InternalUpdateUrlVary: walks away from i with rb_next or rb_prev. */
    static method UpdateNeighbours(es: seq<Entry<Chain>>, i: nat, forward: bool, key: Option<string>,
                                   ghost was: Option<string>)
      requires Shaped(es) && i < |es|
      requires forall n | 0 <= n < |es| && es[n].key.url == es[i].key.url && Side(i, n, forward) ::
        forall o <- es[n].data :: Fold(o.varyKey) == was && (o.varyKey.Some? ==> o.hasVary)
      modifies Members(es)`dead, Members(es)`varyKey, Members(es)`hasVary
      ensures forall n | 0 <= n < |es| ::
        forall o <- es[n].data ::
          if es[n].key.url == es[i].key.url && Side(i, n, forward) && was != Fold(key)
          then Rewritten(o, key) else Untouched(o)
    {
      var step := if forward then 1 else -1;
      var j := i + step;
      while 0 <= j < |es| && es[j].key.url == es[i].key.url
        invariant if forward then i < j <= |es| else -1 <= j < i
        decreases if forward then |es| - j else j
        invariant forall n | 0 <= n < |es| && Between(i, n, j) :: es[n].key.url == es[i].key.url
        invariant forall n | 0 <= n < |es| ::
          forall o <- es[n].data ::
            if Between(i, n, j) && was != Fold(key) then Rewritten(o, key) else Untouched(o)
      {
        ChainOfKey(es, j);
        if Fold(es[j].data[0].varyKey) != Fold(key) { UpdateChain(es[j].data, key); }
        j := j + step;
      }
      forall n | 0 <= n < |es| && es[n].key.url == es[i].key.url && Side(i, n, forward)
        ensures Between(i, n, j)
      {
        if forward && n >= j { UrlIsContiguous(es, i, j, n); }
        if !forward && n <= j { UrlIsContiguous(es, n, j, i); }
      }
    }

    /** InternalUpdateVary: rewrites the chain at i, and its neighbours of the same URL if
        their key differs. */
    static method UpdateUrl(es: seq<Entry<Chain>>, i: nat, key: Option<string>, ghost was: Option<string>)
      requires Shaped(es) && i < |es|
      requires forall o <- Members(es) | o.uk.url == es[i].key.url ::
        Fold(o.varyKey) == was && (o.varyKey.Some? ==> o.hasVary)
      requires key.None? ==> forall o <- Members(es) | o in es[i].data :: o.hasVary
      modifies Members(es)`dead, Members(es)`varyKey, Members(es)`hasVary
      ensures forall o <- Members(es) ::
        if o in es[i].data || (o.uk.url == es[i].key.url && was != Fold(key)) then Rewritten(o, key) else Untouched(o)
    {
      ChainOfKey(es, i);
      UpdateChain(es[i].data, key);
      UpdateNeighbours(es, i, true, key, was);
      UpdateNeighbours(es, i, false, key, was);
    }

    /** rb_insert_color and rb_erase may reshape the tree in any way that keeps the order
        of its nodes. */
    static method Rebalance(t: Tree<Chain>) returns (t': Tree<Chain>)
      ensures InOrder(t') == InOrder(t)
    {
      t' :| InOrder(t') == InOrder(t);
    }

    /** The part of insert that links obj into the tree. */
    method Insert(obj: HttpObject)
      requires Shaped(InOrder(nodes)) && obj !in Members(InOrder(nodes))
      modifies `nodes
      ensures Added(old(InOrder(nodes)), InOrder(nodes), obj)
    {
      ghost var es := InOrder(nodes);
      var node, rank, _, _ := Find(obj.uk, nodes);
      FindNodeCorrect(nodes, obj.uk);
      FindRankCorrect(nodes, obj.uk);
      if node.Node? {
        ReplaceInOrder(nodes, obj.uk, [obj] + node.data);
        nodes := Replace(nodes, obj.uk, [obj] + node.data);
        AddToChain(es, rank, obj);
      } else {
        ghost var lo, hi := LinkInOrder(nodes, obj.uk, [obj]);
        nodes := Rebalance(Link(nodes, obj.uk, [obj]));
        AddNode(lo, hi, obj);
      }
    }

    /** Linking an object whose URL has its vary key already, and counting it. */
    method Store(obj: HttpObject)
      requires Valid() && obj !in objects && obj.Coherent()
      requires obj.uk.url in current && current[obj.uk.url] == Fold(obj.varyKey)
      modifies `nodes, `objects, `memSize, `memCount, `diskSize, `diskCount
      ensures Valid() && Added(old(InOrder(nodes)), InOrder(nodes), obj)
    {
      Insert(obj);
      CountIn(obj);
      StillAgree();
      AgreeAdd(old(objects), current, obj);
    }

    /** The keys of the objects stored before still agree while they stay the same. */
    twostate lemma StillAgree()
      requires old(KeysAgree()) && unchanged(`current)
      requires forall o <- old(objects) ::
        o.hasVary == old(o.hasVary) && o.varyKey == old(o.varyKey) && o.dead == old(o.dead)
      ensures Agree(old(objects), current)
    {
    }

    /** The counters stay right while sizes and flags stay the same. */
    twostate lemma StillCounted()
      requires old(Counted()) && unchanged(`objects, `memSize, `memCount, `diskSize, `diskCount)
      requires forall o <- objects :: o.inMem == old(o.inMem) && o.inDisk == old(o.inDisk)
      requires forall o <- objects :: o.memoryBody == old(o.memoryBody) && o.contentLength == old(o.contentLength)
      ensures Counted()
    {
    }

    /** What the objects of a URL have in common before its key is replaced. */
    lemma OldKey(url: string)
      requires KeysAgree() && url in current
      ensures forall o <- objects | o.uk.url == url ::
                Fold(o.varyKey) == current[url] && (o.varyKey.Some? ==> o.hasVary)
    {
    }

    /** The URL of the node at i gets a new vary key; the chain at i does even if the key is
        not new, and must then have one that can be erased. */
    method RewriteUrl(url: string, i: nat, key: Option<string>)
      requires Valid() && i < |InOrder(nodes)| && InOrder(nodes)[i].key.url == url && url in current
      requires key.None? && current[url].None? ==> forall o <- objects | o in InOrder(nodes)[i].data :: o.hasVary
      modifies `current, objects`dead, objects`varyKey, objects`hasVary
      ensures Valid() && current == old(current)[url := Fold(key)]
      ensures forall o <- objects ::
        if o in InOrder(nodes)[i].data || (o.uk.url == url && old(current)[url] != Fold(key))
        then Rewritten(o, key) else Untouched(o)
    {
      OldKey(url);
      UpdateUrl(InOrder(nodes), i, key, current[url]);
      current := current[url := Fold(key)];
      assert KeysAgree();
      StillCounted();
    }

    /** Every node shows the vary key of its URL. */
    lemma KeyOfNode(i: nat)
      requires Valid() && i < |InOrder(nodes)|
      ensures var e := InOrder(nodes)[i];
              && e.data != [] && e.data[0] in objects && e.key.url in current
              && Fold(e.data[0].varyKey) == current[e.key.url]
    {
      assert InOrder(nodes)[i].data[0] in InOrder(nodes)[i].data;
    }

    /** A URL without objects may have any key. */
    ghost method NewUrl(url: string, key: Option<string>)
      requires Valid() && NoUrl(InOrder(nodes), url)
      modifies `current
      ensures Valid() && current == old(current)[url := Fold(key)]
      ensures forall o <- objects :: o.uk.url != url
    {
      NoUrlNoObject(InOrder(nodes), url);
      current := current[url := Fold(key)];
    }

    /** The URL of the node at i gets a key, if it does not have it already. */
    method SettleAt(i: nat, url: string, key: Option<string>)
      requires Valid() && i < |InOrder(nodes)| && InOrder(nodes)[i].key.url == url
      modifies `current, objects`dead, objects`varyKey, objects`hasVary
      ensures Valid() && current == old(current)[url := Fold(key)]
      ensures forall o <- objects ::
        if o.uk.url == url && old(Fold(o.varyKey)) != Fold(key) then Rewritten(o, key) else Untouched(o)
    {
      KeyOfNode(i);
      if Fold(InOrder(nodes)[i].data[0].varyKey) != Fold(key) {
        RewriteUrl(url, i, key);
      }
    }

    /** The part of insert that replaces the vary key of obj's URL when it differs. */
    method SettleKey(obj: HttpObject)
      requires Valid() && obj !in objects
      modifies `current, objects`dead, objects`varyKey, objects`hasVary
      ensures Valid() && current == old(current)[obj.uk.url := Fold(obj.varyKey)]
      ensures forall o <- objects ::
        if o.uk.url == obj.uk.url && old(Fold(o.varyKey)) != Fold(obj.varyKey)
        then Rewritten(o, obj.varyKey) else Untouched(o)
    {
      var _, _, first, firstRank := Find(obj.uk, nodes);
      FirstMatchRank(nodes, obj.uk);
      if first.Nil? {
        NewUrl(obj.uk.url, obj.varyKey);
        return;
      }
      SettleAt(firstRank, obj.uk.url, obj.varyKey);
    }

    method Enter(obj: HttpObject)
      requires Valid() && obj !in objects && obj.Coherent() && obj.refs == 1
      modifies this, obj`refs, objects`dead, objects`varyKey, objects`hasVary
      ensures Valid() && Added(old(InOrder(nodes)), InOrder(nodes), obj)
      ensures current == old(current)[obj.uk.url := Fold(obj.varyKey)]
      ensures obj.refs == 2
      ensures forall o <- old(objects) ::
        if o.uk.url == obj.uk.url && old(Fold(o.varyKey)) != Fold(obj.varyKey)
        then Rewritten(o, obj.varyKey) else Untouched(o)
    {
      obj.refs := obj.refs + 1;
      SettleKey(obj);
      Store(obj);
    }

    /** An object joins the front of the chain of its key, and replaces the vary key of
        its URL when that is another one, up to case. */
    method Put(obj: HttpObject)
      requires Valid() && obj !in objects && obj.Coherent() && obj.refs == 1
      modifies this, obj`refs, objects`dead, objects`varyKey, objects`hasVary
      ensures Valid() && Added(old(InOrder(nodes)), InOrder(nodes), obj)
      ensures current == old(current)[obj.uk.url := Fold(obj.varyKey)]
      ensures obj.refs == 2
      ensures forall o <- old(objects) ::
        if o.uk.url == obj.uk.url && !SameKey(old(o.varyKey), obj.varyKey)
        then Rewritten(o, obj.varyKey) else Untouched(o)
    {
      Enter(obj);
      forall o <- old(objects)
        ensures SameKey(old(o.varyKey), obj.varyKey) <==> old(Fold(o.varyKey)) == Fold(obj.varyKey)
      {
        FoldIsKey(old(o.varyKey), obj.varyKey);
      }
    }

    /** Two stored objects of one URL have the same vary key, and a live one has the key that
        it was stored with. */
    lemma VaryIsOne(o: HttpObject, p: HttpObject)
      requires Valid() && o in objects && p in objects && o.uk.url == p.uk.url
      ensures SameKey(o.varyKey, p.varyKey) && (!o.dead ==> SameKey(o.varyKey, o.storedKey))
    {
      FoldIsKey(o.varyKey, p.varyKey);
      FoldIsKey(o.varyKey, o.storedKey);
    }

    /** CountSize on the index's counters, for an object that joins it. */
    method CountIn(obj: HttpObject)
      requires Counted() && obj !in objects
      modifies `objects, `memSize, `memCount, `diskSize, `diskCount
      ensures Counted() && objects == old(objects) + {obj}
    {
      CountSize(obj);
      ghost var rest := objects;
      objects := objects + {obj};
      assert objects - {obj} == rest;
      Recount(obj, rest);
    }

    method CountSize(obj: HttpObject)
      requires Counted()
      modifies `memSize, `memCount, `diskSize, `diskCount
      ensures Parts(obj, objects)
    {
      if obj.inMem {
        memCount := memCount + 1;
        memSize := memSize + obj.MemorySize();
      }
      if obj.inDisk {
        diskCount := diskCount + 1;
        diskSize := diskSize + obj.DiskSize();
      }
    }

    /** The chain at the first node of obj's URL that a search meets. */
    ghost function FirstChain(obj: HttpObject): Chain
      reads `nodes
    {
      if FirstMatch(nodes, obj.uk).Node? then FirstMatch(nodes, obj.uk).data else []
    }

    /** UpdateVary: a revalidation reported the vary key of obj's URL. All of the URL dies if
        the key is another one, and the first chain does in any case. */
    method UpdateVary(obj: HttpObject, key: Option<string>)
      requires Valid() && obj in objects
      requires key.None? && obj.varyKey.None? ==> forall o <- objects | o in FirstChain(obj) :: o.hasVary
      modifies `current, objects`dead, objects`varyKey, objects`hasVary
      ensures Valid() && current == old(current)[obj.uk.url := Fold(key)]
      ensures forall o <- objects ::
        if o in FirstChain(obj) || (o.uk.url == obj.uk.url && old(Fold(obj.varyKey)) != Fold(key))
        then Rewritten(o, key) else Untouched(o)
    {
      var i := FirstOf(obj);
      assert current[obj.uk.url] == Fold(obj.varyKey);
      RewriteUrl(obj.uk.url, i, key);
    }

    /** A stored object is found, and so is the first node of its URL. */
    method FirstOf(obj: HttpObject) returns (i: nat)
      requires Shaped(InOrder(nodes)) && obj in Members(InOrder(nodes))
      ensures i < |InOrder(nodes)| && InOrder(nodes)[i].key.url == obj.uk.url
      ensures InOrder(nodes)[i].data == FirstChain(obj)
    {
      var node, rank, first, firstRank := Find(obj.uk, nodes);
      NodeOf(nodes, obj.uk);
      UrlIsMet(nodes, obj);
      FirstMatchRank(nodes, obj.uk);
      assert node.Node? && first.Node?;
      i := firstRank;
    }

    /** Where obj stands in a chain, or the end of the chain. */
    static method Position(chain: Chain, obj: HttpObject) returns (j: nat)
      ensures j <= |chain| && obj !in chain[..j]
      ensures if j < |chain| then chain[j] == obj else obj !in chain
    {
      j := 0;
      while j < |chain| && chain[j] != obj
        invariant 0 <= j <= |chain| && obj !in chain[..j]
      {
        j := j + 1;
      }
    }

    /** The part of remove that unlinks obj from the chain of its node. */
    method Unlink(obj: HttpObject) returns (result: bool)
      requires Shaped(InOrder(nodes))
      modifies `nodes
      ensures result <==> obj in Members(old(InOrder(nodes)))
      ensures result ==> Removed(old(InOrder(nodes)), InOrder(nodes), obj)
      ensures !result ==> nodes == old(nodes)
    {
      ghost var es := InOrder(nodes);
      var node, rank, _, _ := Find(obj.uk, nodes);
      NodeOf(nodes, obj.uk);
      if node.Nil? { return false; }
      var chain := node.data;
      var j := Position(chain, obj);
      if j == |chain| { return false; }
      assert obj in es[rank].data;
      var rest := chain[..j] + chain[j + 1..];
      result := true;
      nodes := SetChain(nodes, obj.uk, rank, rest);
      Unlinked(es, rank, obj, j, rest);
    }

    /** Stores what is left of a chain, or erases its node when nothing is left. */
    static method SetChain(t: Tree<Chain>, k: Key, i: nat, rest: Chain) returns (t': Tree<Chain>)
      requires FindNode(t, k).Node? && FindNode(t, k).key == k && i == FindRank(t, k) < |InOrder(t)|
      ensures InOrder(t') == SetAt(InOrder(t), i, k, rest)
    {
      if rest != [] {
        ReplaceInOrder(t, k, rest);
        t' := Replace(t, k, rest);
      } else {
        t' := Erase(t, i);
      }
    }

    /** rb_erase: any tree of the remaining nodes. */
    static method Erase(t: Tree<Chain>, i: nat) returns (t': Tree<Chain>)
      requires i < |InOrder(t)|
      ensures InOrder(t') == InOrder(t)[..i] + InOrder(t)[i + 1..]
    {
      SomeTree(InOrder(t)[..i] + InOrder(t)[i + 1..]);
      t' :| InOrder(t') == InOrder(t)[..i] + InOrder(t)[i + 1..];
    }

    /** remove: takes obj out of its chain and its share off the counters. */
    method Remove(obj: HttpObject) returns (result: bool)
      requires Valid()
      modifies this
      ensures Valid() && current == old(current)
      ensures result <==> obj in old(objects)
      ensures result ==> Removed(old(InOrder(nodes)), InOrder(nodes), obj)
      ensures !result ==> nodes == old(nodes)
      ensures memSize > 0 || memSize == memCount == 0
      ensures diskSize > 0 || diskSize == diskCount == 0
    {
      result := Discard(obj);
      assert KeysAgree();
      SizesCoverCounts(objects);
    }

    /** Unlinking an object and taking it off the counters. */
    method Discard(obj: HttpObject) returns (result: bool)
      requires Shaped(InOrder(nodes)) && objects == Members(InOrder(nodes)) && Counted()
      modifies `nodes, `objects, `memSize, `memCount, `diskSize, `diskCount
      ensures Shaped(InOrder(nodes)) && Counted()
      ensures result <==> obj in old(objects)
      ensures result ==> Removed(old(InOrder(nodes)), InOrder(nodes), obj)
      ensures objects == old(objects) - {obj}
      ensures !result ==> nodes == old(nodes)
    {
      result := Unlink(obj);
      if result {
        CountOut(obj);
      }
    }

    /** DecMemObjectSize and DecDiskObjectSize. */
    method CountOut(obj: HttpObject)
      requires Counted() && obj in objects
      modifies `objects, `memSize, `memCount, `diskSize, `diskCount
      ensures Counted() && objects == old(objects) - {obj}
    {
      ghost var rest := Rest(obj);
      if obj.inMem {
        memSize := memSize - obj.MemorySize();
        memCount := memCount - 1;
      }
      if obj.inDisk {
        diskSize := diskSize - obj.DiskSize();
        diskCount := diskCount - 1;
      }
      objects := rest;
    }

    /** The loop of get over one chain: expires what is older than the request's minimum
        verification time and picks the best eligible object. */
    static method Scan(chain: Chain, rq: Request, accepts: nat -> bool) returns (hit: HttpObject?)
      requires Distinct(chain)
      modifies ObjSet(chain)`dead, ObjSet(chain)`lastVerified
      ensures forall o <- chain :: Aged(o, rq)
      ensures hit == null <==> forall o <- chain :: !old(Eligible(o, rq, accepts))
      ensures hit != null ==> hit in chain && old(Eligible(hit, rq, accepts))
      ensures hit != null ==>
                forall o <- chain | old(Eligible(o, rq, accepts)) :: o.acceptEncoding <= hit.acceptEncoding
    {
      hit := null;
      for i := 0 to |chain|
        invariant forall n | 0 <= n < i :: Aged(chain[n], rq)
        invariant forall n | i <= n < |chain| ::
          chain[n].dead == old(chain[n].dead) && chain[n].lastVerified == old(chain[n].lastVerified)
        invariant hit == null ==> forall n | 0 <= n < i :: !old(Eligible(chain[n], rq, accepts))
        invariant hit != null ==> hit in chain && old(Eligible(hit, rq, accepts))
        invariant hit != null ==>
          forall n | 0 <= n < i && old(Eligible(chain[n], rq, accepts)) :: chain[n].acceptEncoding <= hit.acceptEncoding
      {
        var o := chain[i];
        if o.dead { continue; }
        if rq.minVerified > 0 && o.lastVerified < rq.minVerified {
          if rq.minVerified % 2 == 1 {
            o.dead := true;
            continue;
          }
          o.lastVerified := 0;
        }
        if rq.internal == o.internal && accepts(o.encoding) && (!rq.noDisk || o.memoryBody) {
          if hit == null || o.acceptEncoding > hit.acceptEncoding {
            hit := o;
          }
        }
      }
    }

    /** The two searches of get: the second one restarts at the first node of the URL.
        Returns the vary key the URL is stored under and the chain of the request's own
        vary value under that key. */
    method Select(url: string, build: string -> Option<string>)
      returns (chain: Chain, key: Option<string>)
      requires Valid()
      ensures Distinct(chain)
      ensures forall o :: o in chain <==> o in objects && o.uk == Key(url, Built(key, build))
      ensures (exists o <- objects :: o.uk.url == url) ==> url in current && Fold(key) == current[url]
    {
      var node, rank, first, firstRank := Find(Key(url, None), nodes);
      FirstMatchRank(nodes, Key(url, None));
      chain, key := [], None;
      if first.Nil? {
        NoUrlNoObject(InOrder(nodes), url);
        return;
      }
      KeyOfNode(firstRank);
      key := first.data[0].varyKey;
      var val := if key.None? then None else build(key.value);
      if val.Some? {
        RestartIsSound(nodes, url, val, None);
        node, rank, first, firstRank := Find(Key(url, val), first);
      }
      NodeOf(nodes, Key(url, val));
      if node.Node? {
        chain := node.data;
      }
    }

    /** Objects may die without making the index invalid. */
    twostate lemma OnlyDying()
      requires old(Valid())
      requires unchanged(this)
      requires forall o <- objects :: o.varyKey == old(o.varyKey) && o.hasVary == old(o.hasVary)
      requires forall o <- objects :: old(o.dead) ==> o.dead
      requires forall o <- objects :: o.inMem == old(o.inMem) && o.inDisk == old(o.inDisk)
      requires forall o <- objects ::
        o.memoryBody == old(o.memoryBody) && o.contentLength == old(o.contentLength)
      ensures Valid()
    {
      StillCounted();
    }

    /** Scanning a chain of the index. */
    method Serve(chain: Chain, rq: Request, accepts: nat -> bool) returns (hit: HttpObject?)
      requires Valid() && Distinct(chain) && forall o <- chain :: o in objects
      modifies ObjSet(chain)`dead, ObjSet(chain)`lastVerified
      ensures Valid()
      ensures hit == null <==> forall o <- chain :: !old(Eligible(o, rq, accepts))
      ensures hit != null ==> hit in chain && !hit.dead && old(Eligible(hit, rq, accepts))
      ensures hit != null ==>
        forall o <- chain | old(Eligible(o, rq, accepts)) :: o.acceptEncoding <= hit.acceptEncoding
      ensures forall o <- chain :: Aged(o, rq)
    {
      hit := Scan(chain, rq, accepts);
      OnlyDying();
    }

    /** What get finds before it takes a reference. */
    method Lookup(rq: Request, build: string -> Option<string>, accepts: nat -> bool)
      returns (hit: HttpObject?, key: Option<string>)
      requires Valid()
      modifies objects`dead, objects`lastVerified
      ensures Valid()
      ensures (exists o <- objects :: o.uk.url == rq.url) ==> rq.url in current && Fold(key) == current[rq.url]
      ensures hit == null <==>
        forall o <- objects | o.uk == Key(rq.url, Built(key, build)) :: !old(Eligible(o, rq, accepts))
      ensures hit != null ==> hit in objects && !hit.dead && old(Eligible(hit, rq, accepts))
      ensures hit != null ==> hit.uk == Key(rq.url, Built(key, build)) && Fold(hit.storedKey) == Fold(key)
      ensures hit != null ==> (key.Some? <==> hit.uk.val.Some?)
      ensures hit != null ==>
        forall o <- objects | o.uk == hit.uk && old(Eligible(o, rq, accepts)) :: o.acceptEncoding <= hit.acceptEncoding
      ensures forall o <- objects ::
        if o.uk == Key(rq.url, Built(key, build)) then Aged(o, rq)
        else o.dead == old(o.dead) && o.lastVerified == old(o.lastVerified)
    {
      var chain;
      chain, key := Select(rq.url, build);
      hit := Serve(chain, rq, accepts);
    }

    method TakeRef(obj: HttpObject)
      requires Valid() && obj in objects
      modifies obj`refs
      ensures Valid() && obj.refs == old(obj.refs) + 1
    {
      obj.refs := obj.refs + 1;
    }

    /** get: the lookup returns the best eligible object of the variant that the request
        selects under the vary key its URL is stored with, and nothing when there is none. */
    method Get(rq: Request, build: string -> Option<string>, accepts: nat -> bool)
      returns (hit: HttpObject?, key: Option<string>)
      requires Valid()
      modifies objects`dead, objects`lastVerified, objects`refs
      ensures Valid()
      ensures (exists o <- objects :: o.uk.url == rq.url) ==> rq.url in current && Fold(key) == current[rq.url]
      ensures hit == null <==>
        forall o <- objects | o.uk == Key(rq.url, Built(key, build)) :: !old(Eligible(o, rq, accepts))
      ensures hit != null ==> hit in objects && !hit.dead && old(Eligible(hit, rq, accepts))
      ensures hit != null ==> hit.uk == Key(rq.url, Built(key, build)) && SameKey(hit.storedKey, key)
      ensures hit != null ==> (key.Some? <==> hit.uk.val.Some?)
      ensures hit != null ==>
        forall o <- objects | o.uk == hit.uk && old(Eligible(o, rq, accepts)) :: o.acceptEncoding <= hit.acceptEncoding
      ensures forall o <- objects ::
        if o.uk == Key(rq.url, Built(key, build)) then Aged(o, rq)
        else o.dead == old(o.dead) && o.lastVerified == old(o.lastVerified)
      ensures forall o <- objects :: o.refs == old(o.refs) + if o == hit then 1 else 0
    {
      hit, key := Lookup(rq, build, accepts);
      if hit != null {
        FoldIsKey(hit.storedKey, key);
        TakeRef(hit);
      }
    }

    /** findn without its walk back: some node that a purge covers, or -1. */
    static method FindCovered(t: Tree<Chain>, url: string, wide: bool) returns (i: int)
      ensures i == CoveredRank(t, url, wide)
    {
      var node, rank := t, 0;
      while node.Node?
        invariant CoveredRank(t, url, wide) ==
          if CoveredRank(node, url, wide) == -1 then -1 else rank + CoveredRank(node, url, wide)
        decreases node
      {
        var c := PurgeCmp(url, node.key.url, wide);
        if c < 0 {
          node := node.left;
        } else if c > 0 {
          rank := rank + |InOrder(node.left)| + 1;
          node := node.right;
        } else {
          return rank + |InOrder(node.left)|;
        }
      }
      return -1;
    }

    /** purgeObject, with a handler that marks objects dead or one that only looks at them. */
    static method PurgeChain(chain: Chain, kills: bool) returns (visited: Chain)
      requires Distinct(chain)
      modifies ObjSet(chain)`dead
      ensures Distinct(visited)
      ensures forall o <- visited :: o in chain
      ensures forall o <- chain :: o in visited <==> !old(o.dead)
      ensures forall o <- chain :: o.dead == (old(o.dead) || kills)
    {
      visited := [];
      for i := 0 to |chain|
        invariant Distinct(visited)
        invariant forall o <- visited :: o in chain[..i]
        invariant forall o <- chain[..i] :: o in visited <==> !old(o.dead)
        invariant forall n | 0 <= n < i :: chain[n].dead == (old(chain[n].dead) || kills)
        invariant forall n | i <= n < |chain| :: chain[n].dead == old(chain[n].dead)
      {
        assert chain[i] !in chain[..i];
        if !chain[i].dead {
          visited := visited + [chain[i]];
          if kills { chain[i].dead := true; }
        }
      }
    }

    /** The forward walk of purge, from i on. */
    static method PurgeFrom(es: seq<Entry<Chain>>, i: nat, url: string, wide: bool, kills: bool)
      returns (visited: Chain, count: nat, j: nat)
      requires Shaped(es) && i < |es| && Covers(url, es[i].key.url, wide)
      modifies Members(es)`dead
      ensures count == |visited| && Distinct(visited)
      ensures i < j <= |es| && (j < |es| ==> !Covers(url, es[j].key.url, wide))
      ensures forall n | i <= n < j :: Covers(url, es[n].key.url, wide)
      ensures forall o <- visited :: o in Members(es)
      ensures forall o <- Members(es) :: o in visited <==> InRange(es, i, j, o) && !old(o.dead)
      ensures forall o <- Members(es) :: o.dead == (old(o.dead) || (kills && InRange(es, i, j, o)))
    {
      visited, count, j := [], 0, i;
      while j < |es| && Covers(url, es[j].key.url, wide)
        invariant i <= j <= |es|
        invariant count == |visited| && Distinct(visited)
        invariant forall n | i <= n < j :: Covers(url, es[n].key.url, wide)
        invariant forall o <- visited :: o in Members(es)
        invariant forall o <- Members(es) :: o in visited <==> InRange(es, i, j, o) && !old(o.dead)
        invariant forall o <- Members(es) :: o.dead == (old(o.dead) || (kills && InRange(es, i, j, o)))
      {
        RangeStep(es, i, j);
        var more := PurgeChain(es[j].data, kills);
        JoinDistinct(visited, more);
        visited, count, j := visited + more, count + |more|, j + 1;
      }
    }

    /** findn, or the search of an exact purge with its walk back: the first covered node. */
    static method FirstCovered(t: Tree<Chain>, url: string, wide: bool) returns (i: int)
      requires Sorted(InOrder(t))
      ensures i == -1 ==> forall n | 0 <= n < |InOrder(t)| :: !Covers(url, InOrder(t)[n].key.url, wide)
      ensures i != -1 ==> 0 <= i < |InOrder(t)| && Covers(url, InOrder(t)[i].key.url, wide)
      ensures i > 0 ==> !Covers(url, InOrder(t)[i - 1].key.url, wide)
    {
      var es := InOrder(t);
      i := FindCovered(t, url, wide);
      CoveredRankCorrect(t, url, wide);
      while i > 0 && Covers(url, es[i - 1].key.url, wide)
        invariant i == -1 || (0 <= i < |es| && Covers(url, es[i].key.url, wide))
        invariant i == -1 ==> forall e <- es :: !Covers(url, e.key.url, wide)
      {
        i := i - 1;
      }
    }

    /** purge: every live object that url covers is visited exactly once, and dies if the
        handler kills. */
    method Purge(url: string, wide: bool, kills: bool) returns (visited: Chain, count: nat)
      requires Valid()
      modifies objects`dead
      ensures Valid() && count == |visited| && Distinct(visited)
      ensures forall o <- visited :: o in objects
      ensures forall o <- objects :: o in visited <==> Covers(url, o.uk.url, wide) && !old(o.dead)
      ensures forall o <- objects :: o.dead == (old(o.dead) || (kills && Covers(url, o.uk.url, wide)))
    {
      visited, count := [], 0;
      var i := FirstCovered(nodes, url, wide);
      if i != -1 {
        var j;
        visited, count, j := PurgeFrom(InOrder(nodes), i, url, wide, kills);
        CoveredRange(InOrder(nodes), i, j, url, wide);
        OnlyDying();
      }
    }

    /** The counters as the rest of the objects and obj make them up. */
    ghost predicate Parts(obj: HttpObject, rest: set<HttpObject>)
      reads `memSize, `memCount, `diskSize, `diskCount
      reads obj`inMem, obj`inDisk, obj`memoryBody, obj`contentLength
      reads rest`inMem, rest`inDisk, rest`memoryBody, rest`contentLength
    {
      && memSize == obj.Share(Mem) + Sum(rest, Mem) && memCount == obj.Share(MemCount) + Sum(rest, MemCount)
      && diskSize == obj.Share(Disk) + Sum(rest, Disk) && diskCount == obj.Share(DiskCount) + Sum(rest, DiskCount)
    }

    lemma Rest(obj: HttpObject) returns (rest: set<HttpObject>)
      requires Counted() && obj in objects
      ensures rest == objects - {obj} && Parts(obj, rest)
    {
      rest := objects - {obj};
      Shares(objects, obj);
    }

    lemma Recount(obj: HttpObject, rest: set<HttpObject>)
      requires obj in objects && rest == objects - {obj}
      ensures Parts(obj, rest) <==> Counted()
    {
      Shares(objects, obj);
    }

    method CountSwapIn(obj: HttpObject, memoryBody: bool)
      requires Counted() && obj in objects && !obj.inMem
      modifies `memSize, `memCount, obj`inMem, obj`memoryBody
      ensures Counted() && obj.inMem && obj.memoryBody == memoryBody
    {
      ghost var rest := Rest(obj);
      obj.memoryBody := memoryBody;
      obj.inMem := true;
      memSize := memSize + obj.MemorySize();
      memCount := memCount + 1;
      Recount(obj, rest);
    }

    /** A body loaded from disk: IncMemObjectSize after the memory flag is set. */
    method SwapIn(obj: HttpObject, memoryBody: bool)
      requires Valid() && obj in objects && !obj.inMem
      modifies `memSize, `memCount, obj`inMem, obj`memoryBody
      ensures Valid() && obj.inMem && obj.memoryBody == memoryBody
    {
      CountSwapIn(obj, memoryBody);
    }

    method CountSave(obj: HttpObject)
      requires Counted() && obj in objects && !obj.inDisk
      modifies `diskSize, `diskCount, obj`inDisk
      ensures Counted() && obj.inDisk
    {
      ghost var rest := Rest(obj);
      diskSize := diskSize + obj.DiskSize();
      diskCount := diskCount + 1;
      obj.inDisk := true;
      Recount(obj, rest);
    }

    /** A body saved to disk: IncDiskObjectSize before the disk flag is set. */
    method SaveToDisk(obj: HttpObject)
      requires Valid() && obj in objects && !obj.inDisk
      modifies `diskSize, `diskCount, obj`inDisk
      ensures Valid() && obj.inDisk
    {
      CountSave(obj);
    }

    method CountSwapOut(obj: HttpObject)
      requires Counted() && obj in objects && obj.inMem
      modifies `memSize, `memCount, obj`inMem, obj`memoryBody
      ensures Counted() && !obj.inMem
    {
      ghost var rest := Rest(obj);
      obj.inMem := false;
      memSize := memSize - obj.MemorySize();
      memCount := memCount - 1;
      obj.memoryBody := false;
      Recount(obj, rest);
    }

    /** A body dropped from memory: DecMemObjectSize while the body is still there. */
    method SwapOut(obj: HttpObject)
      requires Valid() && obj in objects && obj.inMem
      modifies `memSize, `memCount, obj`inMem, obj`memoryBody
      ensures Valid() && !obj.inMem
    {
      CountSwapOut(obj);
    }

    method CountChange(obj: HttpObject, newSize: nat)
      requires Counted() && obj in objects && obj.inMem
      modifies `memSize, obj`contentLength
      ensures obj.contentLength == newSize && memSize == old(memSize) + newSize - old(obj.contentLength)
      ensures Counted() <==> newSize == old(obj.contentLength) || (obj.memoryBody && !obj.inDisk)
    {
      ghost var rest := Rest(obj);
      memSize := memSize + newSize;
      memSize := memSize - obj.contentLength;
      obj.contentLength := newSize;
      Recount(obj, rest);
    }

    /** MemObjectSizeChange: the counters stay right exactly when the object's body is
        counted in memory only, or its size does not really change. */
    method SizeChange(obj: HttpObject, newSize: nat)
      requires Valid() && obj in objects && obj.inMem
      modifies `memSize, obj`contentLength
      ensures obj.contentLength == newSize && memSize == old(memSize) + newSize - old(obj.contentLength)
      ensures Valid() <==> newSize == old(obj.contentLength) || (obj.memoryBody && !obj.inDisk)
    {
      CountChange(obj, newSize);
    }
  }

  /** The counters go wrong when a body that is also on disk changes its size. */
  method SizeChangeLosesCount() returns (h: ObjectHash)
    ensures !h.Valid()
  {
    h := new ObjectHash();
    var o := new HttpObject(Key("/", None), None, 0, 0, false, 1, 10, 0);
    h.Put(o);
    h.SaveToDisk(o);
    h.SizeChange(o, 20);
  }
}
