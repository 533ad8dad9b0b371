/** The ordering of cache keys and the search tree of the object index.

    A key is a URL with an optional vary value. Keys are compared by URL first and
    by vary value second; a missing vary value sorts after every present one. */
module SearchTree {
  import opened Wire

  datatype Key = Key(url: string, val: Option<string>)

  /** strcmp on NUL-free strings. */
  function StrCmp(a: string, b: string): int {
    if a == [] || b == [] then |a| - |b|
    else if a[0] != b[0] then a[0] as int - b[0] as int
    else StrCmp(a[1..], b[1..])
  }

  function ValCmp(a: Option<string>, b: Option<string>): int {
    if a.None? then (if b.None? then 0 else 1)
    else if b.None? then -1
    else StrCmp(a.value, b.value)
  }

  function KeyCmp(a: Key, b: Key): int {
    var c := StrCmp(a.url, b.url);
    if c != 0 then c else ValCmp(a.val, b.val)
  }

  lemma {:induction false} StrCmpOrder(a: string, b: string)
    ensures StrCmp(a, b) == 0 <==> a == b
    ensures StrCmp(a, b) < 0 <==> StrCmp(b, a) > 0
    ensures StrCmp(a, b) == 0 <==> StrCmp(b, a) == 0
  {
    if a != [] && b != [] && a[0] == b[0] {
      StrCmpOrder(a[1..], b[1..]);
      assert a == [a[0]] + a[1..] && b == [b[0]] + b[1..];
    }
  }

  lemma {:induction false} StrCmpTrans(a: string, b: string, c: string)
    requires StrCmp(a, b) <= 0 && StrCmp(b, c) <= 0
    ensures StrCmp(a, c) <= 0
    ensures StrCmp(a, c) == 0 ==> StrCmp(a, b) == 0
  {
    if a != [] && b != [] && c != [] && a[0] == b[0] == c[0] {
      StrCmpTrans(a[1..], b[1..], c[1..]);
    }
  }

  lemma KeyCmpOrder(a: Key, b: Key)
    ensures KeyCmp(a, b) == 0 <==> a == b
    ensures KeyCmp(a, b) < 0 <==> KeyCmp(b, a) > 0
  {
    StrCmpOrder(a.url, b.url);
    if a.val.Some? && b.val.Some? { StrCmpOrder(a.val.value, b.val.value); }
  }

  lemma KeyCmpTrans(a: Key, b: Key, c: Key)
    requires KeyCmp(a, b) < 0 && KeyCmp(b, c) < 0
    ensures KeyCmp(a, c) < 0
  {
    StrCmpOrder(a.url, b.url);
    StrCmpOrder(b.url, c.url);
    StrCmpTrans(a.url, b.url, c.url);
    if a.url == b.url == c.url {
      StrCmpOrder(a.url, c.url);
      if a.val.Some? && b.val.Some? && c.val.Some? {
        StrCmpTrans(a.val.value, b.val.value, c.val.value);
        StrCmpOrder(a.val.value, b.val.value);
        StrCmpOrder(a.val.value, c.val.value);
      }
    }
  }

  /** strncmp: both strings cut to n characters. */
  function Cut(s: string, n: nat): string {
    if |s| <= n then s else s[..n]
  }

  lemma {:induction false} CutMonotone(a: string, b: string, n: nat)
    requires StrCmp(a, b) <= 0
    ensures StrCmp(Cut(a, n), Cut(b, n)) <= 0
  {
    if n > 0 && a != [] && b != [] && a[0] == b[0] {
      CutMonotone(a[1..], b[1..], n - 1);
      assert Cut(a, n)[1..] == Cut(a[1..], n - 1);
      assert Cut(b, n)[1..] == Cut(b[1..], n - 1);
    }
  }

  /** A node of the tree carries the key of the objects chained at it. */
  datatype Tree<V> = Nil | Node(left: Tree<V>, key: Key, data: V, right: Tree<V>)

  datatype Entry<V> = Entry(key: Key, data: V)

  /** The nodes in rb_next order. */
  function InOrder<V>(t: Tree<V>): seq<Entry<V>> {
    match t
    case Nil => []
    case Node(l, k, d, r) => InOrder(l) + [Entry(k, d)] + InOrder(r)
  }

  ghost predicate Sorted<V>(es: seq<Entry<V>>) {
    forall i, j :: 0 <= i < j < |es| ==> KeyCmp(es[i].key, es[j].key) < 0
  }

  /** The subtree that the search for k stops at, starting from t. */
  function FindNode<V>(t: Tree<V>, k: Key): Tree<V> {
    match t
    case Nil => Nil
    case Node(l, k', _, r) =>
      var c := KeyCmp(k, k');
      if c < 0 then FindNode(l, k) else if c > 0 then FindNode(r, k) else t
  }

  /** The first subtree on the search path of k whose root has k's URL. */
  function FirstMatch<V>(t: Tree<V>, k: Key): Tree<V> {
    match t
    case Nil => Nil
    case Node(l, k', _, r) =>
      if StrCmp(k.url, k'.url) == 0 then t
      else if StrCmp(k.url, k'.url) < 0 then FirstMatch(l, k)
      else FirstMatch(r, k)
  }

  lemma SortedParts<V>(a: seq<Entry<V>>, x: Entry<V>, b: seq<Entry<V>>)
    requires Sorted(a + [x] + b)
    ensures Sorted(a) && Sorted(b)
    ensures forall e <- a :: KeyCmp(e.key, x.key) < 0
    ensures forall e <- b :: KeyCmp(x.key, e.key) < 0
  {
    var s := a + [x] + b;
    assert forall i | 0 <= i < |a| :: s[i] == a[i];
    assert s[|a|] == x;
    assert forall i | 0 <= i < |b| :: s[|a| + 1 + i] == b[i];
  }

  /** Searching finds a node exactly when its key is stored. */
  lemma {:induction false} FindNodeCorrect<V>(t: Tree<V>, k: Key)
    requires Sorted(InOrder(t))
    ensures FindNode(t, k).Node? <==> exists e <- InOrder(t) :: e.key == k
    ensures FindNode(t, k).Node? ==>
      FindNode(t, k).key == k && Entry(k, FindNode(t, k).data) in InOrder(t)
  {
    if t.Node? {
      SortedParts(InOrder(t.left), Entry(t.key, t.data), InOrder(t.right));
      KeyCmpOrder(k, t.key);
      FindNodeCorrect(t.left, k);
      FindNodeCorrect(t.right, k);
    }
  }

  /** How many entries precede the root of FindNode(t, k) in rb_next order. */
  function FindRank<V>(t: Tree<V>, k: Key): nat {
    match t
    case Nil => 0
    case Node(l, k', _, r) =>
      var c := KeyCmp(k, k');
      if c < 0 then FindRank(l, k)
      else if c > 0 then |InOrder(l)| + 1 + FindRank(r, k)
      else |InOrder(l)|
  }

  /** How many entries precede the subtree FirstMatch(t, k). */
  function MatchStart<V>(t: Tree<V>, k: Key): nat {
    match t
    case Nil => 0
    case Node(l, k', _, r) =>
      if StrCmp(k.url, k'.url) == 0 then 0
      else if StrCmp(k.url, k'.url) < 0 then MatchStart(l, k)
      else |InOrder(l)| + 1 + MatchStart(r, k)
  }

  lemma {:induction false} FindRankCorrect<V>(t: Tree<V>, k: Key)
    ensures FindNode(t, k).Node? ==>
      FindRank(t, k) < |InOrder(t)| &&
      InOrder(t)[FindRank(t, k)] == Entry(FindNode(t, k).key, FindNode(t, k).data)
  {
    if t.Node? {
      FindRankCorrect(t.left, k);
      FindRankCorrect(t.right, k);
    }
  }

  ghost predicate NoUrl<V>(es: seq<Entry<V>>, url: string) {
    forall e <- es :: e.key.url != url
  }

  lemma Regroup<T>(a: seq<T>, b: seq<T>, c: seq<T>, d: seq<T>, e: seq<T>)
    ensures (a + b + c) + d + e == a + b + (c + d + e)
  {
    Assoc(a + b, c, d);
    Assoc(a + b, c + d, e);
  }

  /** Every node of a URL lies in the subtree of the first one met. */
  lemma {:induction false} FirstMatchCoversUrl<V>(t: Tree<V>, k: Key)
    returns (before: seq<Entry<V>>, after: seq<Entry<V>>)
    requires Sorted(InOrder(t))
    ensures InOrder(t) == before + InOrder(FirstMatch(t, k)) + after
    ensures |before| == MatchStart(t, k)
    ensures NoUrl(before, k.url) && NoUrl(after, k.url)
    ensures FirstMatch(t, k).Node? ==> FirstMatch(t, k).key.url == k.url
  {
    before, after := [], [];
    if t.Node? {
      var l, x, r := InOrder(t.left), Entry(t.key, t.data), InOrder(t.right);
      SortedParts(l, x, r);
      StrCmpOrder(k.url, t.key.url);
      if StrCmp(k.url, t.key.url) < 0 {
        before, after := FirstMatchCoversUrl(t.left, k);
        forall e <- r ensures e.key.url != k.url { UrlsAscend(x.key, e.key, k.url); }
        Regroup(before, InOrder(FirstMatch(t.left, k)), after, [x], r);
        after := after + [x] + r;
      } else if StrCmp(k.url, t.key.url) > 0 {
        before, after := FirstMatchCoversUrl(t.right, k);
        forall e <- l ensures e.key.url != k.url { UrlsAscend(e.key, x.key, k.url); }
        Regroup(l, [x], before, InOrder(FirstMatch(t.right, k)), after);
        before := l + [x] + before;
      } else {
        assert [] + InOrder(t) + [] == InOrder(t);
      }
    }
  }

  /** The descent meets a node of the URL exactly when one is stored, at this place. */
  lemma FirstMatchRank<V>(t: Tree<V>, k: Key)
    requires Sorted(InOrder(t))
    ensures FirstMatch(t, k).Nil? <==> NoUrl(InOrder(t), k.url)
    ensures FirstMatch(t, k).Node? ==>
      var m := FirstMatch(t, k);
      var i := MatchStart(t, k) + |InOrder(m.left)|;
      i < |InOrder(t)| && InOrder(t)[i] == Entry(m.key, m.data) && m.key.url == k.url
  {
    var before, after := FirstMatchCoversUrl(t, k);
    if FirstMatch(t, k).Node? {
      assert InOrder(t)[MatchStart(t, k) + |InOrder(FirstMatch(t, k).left)|].key.url == k.url;
    }
  }

  lemma UrlsAscend(a: Key, b: Key, url: string)
    requires KeyCmp(a, b) < 0
    ensures url == a.url ==> StrCmp(url, b.url) <= 0
    ensures url == b.url ==> StrCmp(url, a.url) >= 0
  {
    StrCmpOrder(a.url, b.url);
  }

  /** The descent to the first node of a URL does not depend on the vary value, and a
      search for any vary value of that URL may resume there. */
  lemma {:induction false} RestartIsSound<V>(t: Tree<V>, url: string, v: Option<string>, w: Option<string>)
    ensures FirstMatch(t, Key(url, v)) == FirstMatch(t, Key(url, w))
    ensures MatchStart(t, Key(url, v)) == MatchStart(t, Key(url, w))
    ensures FindNode(FirstMatch(t, Key(url, w)), Key(url, v)) == FindNode(t, Key(url, v))
    ensures FindNode(t, Key(url, v)).Node? ==>
      MatchStart(t, Key(url, w)) + FindRank(FirstMatch(t, Key(url, w)), Key(url, v))
        == FindRank(t, Key(url, v))
  {
    if t.Node? {
      RestartIsSound(t.left, url, v, w);
      RestartIsSound(t.right, url, v, w);
    }
  }

  /** Links a new leaf where the search for k runs off the tree. */
  function Link<V>(t: Tree<V>, k: Key, d: V): Tree<V> {
    match t
    case Nil => Node(Nil, k, d, Nil)
    case Node(l, k', d', r) =>
      if KeyCmp(k, k') < 0 then Node(Link(l, k, d), k', d', r)
      else Node(l, k', d', Link(r, k, d))
  }

  /** Replaces the data of the node that the search for k stops at. */
  function Replace<V>(t: Tree<V>, k: Key, d: V): Tree<V> {
    match t
    case Nil => Nil
    case Node(l, k', d', r) =>
      var c := KeyCmp(k, k');
      if c < 0 then Node(Replace(l, k, d), k', d', r)
      else if c > 0 then Node(l, k', d', Replace(r, k, d))
      else Node(l, k', d, r)
  }

  lemma {:induction false} LinkInOrder<V>(t: Tree<V>, k: Key, d: V)
    returns (lo: seq<Entry<V>>, hi: seq<Entry<V>>)
    requires Sorted(InOrder(t)) && FindNode(t, k).Nil?
    ensures InOrder(t) == lo + hi
    ensures InOrder(Link(t, k, d)) == lo + [Entry(k, d)] + hi
    ensures forall e <- lo :: KeyCmp(e.key, k) < 0
    ensures forall e <- hi :: KeyCmp(k, e.key) < 0
  {
    lo, hi := [], [];
    if t.Node? {
      var l, x, r := InOrder(t.left), Entry(t.key, t.data), InOrder(t.right);
      SortedParts(l, x, r);
      KeyCmpOrder(k, t.key);
      KeyCmpOrder(t.key, k);
      if KeyCmp(k, t.key) < 0 {
        lo, hi := LinkInOrder(t.left, k, d);
        Regroup(lo, [], hi, [x], r);
        Regroup(lo, [Entry(k, d)], hi, [x], r);
        forall e <- r ensures KeyCmp(k, e.key) < 0 { KeyCmpTrans(k, x.key, e.key); }
        assert lo + [] == lo;
        hi := hi + [x] + r;
      } else {
        lo, hi := LinkInOrder(t.right, k, d);
        Regroup(l, [x], lo, [], hi);
        Regroup(l, [x], lo, [Entry(k, d)], hi);
        forall e <- l ensures KeyCmp(e.key, k) < 0 { KeyCmpTrans(e.key, x.key, k); }
        assert lo + [] == lo;
        lo := l + [x] + lo;
        assert lo + [] == lo;
      }
    }
  }

  lemma {:induction false} ReplaceInOrder<V>(t: Tree<V>, k: Key, d: V)
    requires FindNode(t, k).Node?
    ensures FindRank(t, k) < |InOrder(t)|
    ensures InOrder(Replace(t, k, d)) == InOrder(t)[FindRank(t, k) := Entry(FindNode(t, k).key, d)]
  {
    FindRankCorrect(t, k);
    if KeyCmp(k, t.key) < 0 {
      FindRankCorrect(t.left, k);
      ReplaceInOrder(t.left, k, d);
    } else if KeyCmp(k, t.key) > 0 {
      FindRankCorrect(t.right, k);
      ReplaceInOrder(t.right, k, d);
    }
  }

  /** Entries of one URL are contiguous in rb_next order. */
  lemma UrlIsContiguous<V>(es: seq<Entry<V>>, i: nat, j: nat, n: nat)
    requires Sorted(es) && i <= j <= n < |es|
    requires es[i].key.url == es[n].key.url
    ensures es[j].key.url == es[i].key.url
  {
    if i < j < n {
      StrCmpOrder(es[i].key.url, es[j].key.url);
      StrCmpOrder(es[j].key.url, es[n].key.url);
    }
  }

  lemma SortedInsert<V>(lo: seq<Entry<V>>, x: Entry<V>, hi: seq<Entry<V>>)
    requires Sorted(lo + hi)
    requires forall e <- lo :: KeyCmp(e.key, x.key) < 0
    requires forall e <- hi :: KeyCmp(x.key, e.key) < 0
    ensures Sorted(lo + [x] + hi)
  {
    var es, es' := lo + hi, lo + [x] + hi;
    assert forall n | 0 <= n < |lo| :: es'[n] == es[n] == lo[n];
    assert forall n | |lo| < n < |es'| :: es'[n] == es[n - 1] == hi[n - |lo| - 1];
  }

  ghost predicate DistinctKeys<V>(es: seq<Entry<V>>) {
    forall i, j :: 0 <= i < j < |es| ==> es[i].key != es[j].key
  }

  lemma SortedDistinct<V>(es: seq<Entry<V>>)
    requires Sorted(es)
    ensures DistinctKeys(es)
  {
    forall i, j | 0 <= i < j < |es| ensures es[i].key != es[j].key {
      KeyCmpOrder(es[i].key, es[j].key);
    }
  }

  lemma SortedRemove<V>(es: seq<Entry<V>>, i: nat)
    requires Sorted(es) && i < |es|
    ensures Sorted(es[..i] + es[i + 1..])
  {
    var es' := es[..i] + es[i + 1..];
    assert forall n | 0 <= n < |es'| :: es'[n] == es[if n < i then n else n + 1];
  }

  lemma SortedUpdate<V>(es: seq<Entry<V>>, i: nat, d: V)
    requires Sorted(es) && i < |es|
    ensures Sorted(es[i := Entry(es[i].key, d)])
  {
    assert forall n | 0 <= n < |es| :: es[i := Entry(es[i].key, d)][n].key == es[n].key;
  }

  /** Comparison for a purge: by the whole URL, or by the first |url| characters only. */
  function PurgeCmp(url: string, other: string, wide: bool): int {
    StrCmp(url, if wide then Cut(other, |url|) else other)
  }

  /** What a purge of url covers. */
  predicate Covers(url: string, other: string, wide: bool) {
    if wide then url <= other else url == other
  }

  lemma PurgeCmpCovers(url: string, other: string, wide: bool)
    ensures PurgeCmp(url, other, wide) == 0 <==> Covers(url, other, wide)
  {
    StrCmpOrder(url, if wide then Cut(other, |url|) else other);
  }

  /** Along the order of keys a purge compares greater first, then equal, then less. */
  lemma PurgeCmpMonotone(url: string, a: Key, b: Key, wide: bool)
    requires KeyCmp(a, b) < 0
    ensures PurgeCmp(url, a.url, wide) < 0 ==> PurgeCmp(url, b.url, wide) < 0
    ensures PurgeCmp(url, b.url, wide) > 0 ==> PurgeCmp(url, a.url, wide) > 0
  {
    StrCmpOrder(a.url, b.url);
    var x := if wide then Cut(a.url, |url|) else a.url;
    var y := if wide then Cut(b.url, |url|) else b.url;
    if wide { CutMonotone(a.url, b.url, |url|); }
    assert StrCmp(x, y) <= 0;
    StrCmpOrder(url, x);
    StrCmpOrder(url, y);
    StrCmpOrder(x, y);
    if StrCmp(url, x) < 0 { StrCmpTrans(url, x, y); StrCmpOrder(y, url); }
    if StrCmp(url, y) > 0 { StrCmpOrder(y, url); StrCmpTrans(x, y, url); StrCmpOrder(x, url); }
  }

  /** The place of the node that a descent by PurgeCmp stops at, or -1. */
  function CoveredRank<V>(t: Tree<V>, url: string, wide: bool): (i: int)
    ensures i >= -1
  {
    match t
    case Nil => -1
    case Node(l, k, _, r) =>
      var c := PurgeCmp(url, k.url, wide);
      if c < 0 then CoveredRank(l, url, wide)
      else if c == 0 then |InOrder(l)|
      else
        var i := CoveredRank(r, url, wide);
        if i < 0 then -1 else |InOrder(l)| + 1 + i
  }

  lemma {:induction false} CoveredRankCorrect<V>(t: Tree<V>, url: string, wide: bool)
    requires Sorted(InOrder(t))
    ensures
      var i := CoveredRank(t, url, wide);
      if i == -1 then forall e <- InOrder(t) :: !Covers(url, e.key.url, wide)
      else 0 <= i < |InOrder(t)| && Covers(url, InOrder(t)[i].key.url, wide)
  {
    if t.Node? {
      var l, x, r := InOrder(t.left), Entry(t.key, t.data), InOrder(t.right);
      SortedParts(l, x, r);
      PurgeCmpCovers(url, x.key.url, wide);
      var c := PurgeCmp(url, x.key.url, wide);
      if c < 0 {
        CoveredRankCorrect(t.left, url, wide);
        forall e <- r ensures !Covers(url, e.key.url, wide) {
          PurgeCmpMonotone(url, x.key, e.key, wide);
          PurgeCmpCovers(url, e.key.url, wide);
        }
      } else if c > 0 {
        CoveredRankCorrect(t.right, url, wide);
        forall e <- l ensures !Covers(url, e.key.url, wide) {
          PurgeCmpMonotone(url, e.key, x.key, wide);
          PurgeCmpCovers(url, e.key.url, wide);
        }
      }
    }
  }
}
